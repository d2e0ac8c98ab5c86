/** Filename translation between Unix and RISC OS style (cmunge, filename.c), on strings. */
module FilenameSpec {

  datatype Option<+T> = None | Some(value: T)

  /** Position of the last c in s, or -1. */
  function LastIndex(s: string, c: char): (r: int)
    ensures -1 <= r < |s|
  {
    if s == [] then -1
    else if s[|s| - 1] == c then |s| - 1
    else LastIndex(s[..|s| - 1], c)
  }

  predicate IsLast(s: string, c: char, r: int) {
    && -1 <= r < |s|
    && (r >= 0 ==> s[r] == c)
    && forall k :: r < k < |s| ==> s[k] != c
  }

  /** The next character, or the terminator. */
  function At(s: string, i: nat): char { if i < |s| then s[i] else '\0' }

  /** The three ways in which unix_to_riscos treats a position specially. */
  predicate SkipsDot(s: string, i: nat, previous: char) {
    previous == '.' && At(s, i) == '.' && At(s, i + 1) == '/'
  }

  predicate GoesUp(s: string, i: nat, previous: char) {
    previous == '.' && At(s, i) == '.' && At(s, i + 1) == '.' && At(s, i + 2) == '/'
  }

  predicate SkipsSlash(s: string, i: nat, previous: char) {
    previous == '.' && At(s, i) == '/'
  }

  function SwapChar(c: char): char {
    if c == '.' then '/' else if c == '/' then '.' else c
  }

  function Swap(s: string): (r: string)
    ensures |r| == |s|
    ensures forall k :: 0 <= k < |s| ==> r[k] == SwapChar(s[k])
  {
    seq(|s|, k requires 0 <= k < |s| => SwapChar(s[k]))
  }

  /** unix_to_riscos from position i on; `previous` is the last character written. */
  function Native(s: string, i: nat := 0, previous: char := '.'): (r: string)
    requires i <= |s|
    ensures |r| <= |s| - i
    decreases |s| - i
  {
    if i == |s| then ""
    else if SkipsDot(s, i, previous) then Native(s, i + 2, previous)
    else if GoesUp(s, i, previous) then ['^'] + Native(s, i + 2, '^')
    else if SkipsSlash(s, i, previous) then Native(s, i + 1, previous)
    else [SwapChar(s[i])] + Native(s, i + 1, SwapChar(s[i]))
  }

  /** The entries of a colon separated list; a trailing colon adds none. */
  function Entries(list: string): seq<string>
    decreases |list|
  {
    if list == "" then []
    else
      var n := EntryLength(list);
      [list[..n]] + Entries(list[if n < |list| then n + 1 else n..])
  }

  function EntryLength(list: string): (n: nat)
    ensures n <= |list|
    ensures n < |list| ==> list[n] == ':'
    ensures forall k :: 0 <= k < n ==> list[k] != ':'
  {
    if list == "" || list[0] == ':' then 0 else 1 + EntryLength(list[1..])
  }

  /** dir.stem/ext becomes dir.ext.stem when ext is listed and stem is not empty. */
  function Hoist(b: string, entries: seq<string>): (r: string)
    ensures |r| == |b|
  {
    var l := LastIndex(b, '.') + 1;
    HoistAt(b, l, LastIndex(b[l..], '/'), entries)
  }

  function HoistAt(b: string, l: nat, t: int, entries: seq<string>): (r: string)
    requires l <= |b| && t < |b| - l
    ensures |r| == |b|
  {
    var leaf := b[l..];
    if t > 0 && leaf[t + 1..] in entries then b[..l] + leaf[t + 1..] + "." + leaf[..t] else b
  }

  /** dir/ext/leaf becomes dir/leaf.ext when ext is listed. */
  function Lower(b: string, entries: seq<string>): (r: string)
    ensures |r| == |b|
  {
    var l := LastIndex(b, '/');
    if l <= 0 then b else LowerAt(b, LastIndex(b[..l], '/') + 1, l, entries)
  }

  function LowerAt(b: string, q: nat, l: nat, entries: seq<string>): (r: string)
    requires q <= l < |b|
    ensures |r| == |b|
  {
    if b[q..l] in entries then b[..q] + b[l + 1..] + "." + b[q..l] else b
  }

  /** filename_unixtoriscos; None is a null extension list. */
  function ToRiscos(s: string, extlist: Option<string>): string {
    match extlist
    case None => Native(s)
    case Some(list) => Hoist(Native(s), Entries(list))
  }

  /** filename_riscostounix. */
  function ToUnix(s: string, extlist: Option<string>): string {
    match extlist
    case None => Swap(s)
    case Some(list) => Lower(Swap(s), Entries(list))
  }
}
