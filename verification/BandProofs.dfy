/** What the compressed form promises: round trips, exact range, expansion bound. */
module BandProofs {
  import opened BandSpec

  // ------------------------------------------------------------ round trip

  lemma RunDecodes(n: nat, b: byte, rest: seq<byte>)
    requires 2 <= n <= 0x3fff + 2
    ensures DecodeToken(RunCode(n, b) + rest) == Some(Piece(seq(n, _ => b), |RunCode(n, b)|))
  {
    var head, c := RunCode(n, b), n - 2;
    var code := head + rest;
    assert code[0] == head[0] && code[1] == head[1];
    hide DecodeToken;
    if c < 64 {
      ShortRun(code, c, b);
    } else {
      assert code[2] == b;
      LongRun(code, c, b);
    }
  }

  lemma ShortRun(code: seq<byte>, c: nat, b: byte)
    requires |code| >= 2 && c < 64 && code[0] == 0x7f - c && code[1] == b
    ensures DecodeToken(code) == Some(Piece(seq(c + 2, _ => b), 2))
  {
    assert code[0] / 64 == 1 && 63 - code[0] % 64 == c;
    assert DecodeToken(code).value.bytes == seq(c + 2, _ => b);
  }

  lemma LongRun(code: seq<byte>, c: nat, b: byte)
    requires |code| >= 3 && c <= 0x3fff && code[2] == b
    requires code[0] == (0xffff - c) / 256 && code[1] == (0xffff - c) % 256
    ensures DecodeToken(code) == Some(Piece(seq(c + 2, _ => b), 3))
  {
    var w := 0xffff - c;
    assert w / 256 / 64 == 3 && w / 256 % 64 * 256 + w % 256 == 0x3fff - c;
    assert DecodeToken(code).value.bytes == seq(c + 2, _ => b);
  }

  lemma LiteralDecodes(s: seq<byte>, rest: seq<byte>)
    requires 1 <= |s| <= 0x4000
    ensures DecodeToken(LiteralHead(|s|) + s + rest)
            == Some(Piece(s, |LiteralHead(|s|)| + |s|))
  {
    var head, c := LiteralHead(|s|), |s| - 1;
    var code := head + s + rest;
    var n := |head|;
    assert code[n..n + |s|] == s;
    assert code[0] == head[0];
    if c < 64 {
      assert code[0] / 64 == 0 && code[0] % 64 == c;
    } else {
      assert code[1] == head[1];
      var w := 0x8000 + c;
      assert w / 256 / 64 == 2 && w / 256 % 64 * 256 + w % 256 == c;
    }
  }

  lemma RunIsConstant(s: seq<byte>, n: nat)
    requires n <= |s| && forall k :: 0 <= k < n ==> s[k] == s[0]
    ensures n > 0 ==> s[..n] == seq(n, _ => s[0])
  {
  }

  /** The longest token of this kind that a 14-bit count can hold: a run has two
      bytes more than its count, a literal one. */
  function TokenLimit(s: seq<byte>): nat {
    if StartsWithRun(s) then 0x4001 else 0x4000
  }

  /** The first token of a line decodes to the bytes it covers. */
  lemma TokenDecodes(s: seq<byte>, rest: seq<byte>)
    requires 1 <= |s| && TokenLength(s) <= TokenLimit(s)
    ensures DecodeToken(TokenCode(s) + rest) == Some(Piece(s[..TokenLength(s)], |TokenCode(s)|))
  {
    hide RunCode, LiteralHead, DecodeToken, RunFrom, FirstRun;
    var n := TokenLength(s);
    if StartsWithRun(s) {
      RunDecodes(n, s[0], rest);
      RunIsConstant(s, n);
    } else {
      LiteralDecodes(s[..n], rest);
    }
  }

  /** Every token of the line has a count that its control code can hold. */
  predicate TokensFit(s: seq<byte>)
    decreases |s|
  {
    s == [] || (TokenLength(s) <= TokenLimit(s) && TokensFit(s[TokenLength(s)..]))
  }

  lemma {:induction false} ShortLinesFit(s: seq<byte>)
    requires |s| <= 0x4000
    ensures TokensFit(s)
    decreases |s|
  {
    if s != [] {
      ShortLinesFit(s[TokenLength(s)..]);
    }
  }

  /** Decoding goes token by token: a decodable prefix can be split off. */
  lemma DecodeLineStep(head: seq<byte>, tail: seq<byte>, bytes: seq<byte>, more: nat)
    requires DecodeToken(head + tail) == Some(Piece(bytes, |head|))
    ensures DecodeLine(head + tail, |bytes| + more)
            == match DecodeLine(tail, more)
               case None => None
               case Some(r) => Some((bytes + r.0, r.1))
  {
    assert (head + tail)[|head|..] == tail;
  }

  lemma {:induction false} LineRoundTrip(s: seq<byte>, rest: seq<byte>)
    requires TokensFit(s)
    ensures DecodeLine(Encode(s) + rest, |s|) == Some((s, rest))
    decreases |s|
  {
    hide *;
    CodeUnfolds(s);
    if s == [] {
      NothingDecodes(rest);
      assert [] + rest == rest;
    } else {
      var n := TokenLength(s);
      var head, tail := TokenCode(s), Encode(s[n..]) + rest;
      TokenDecodes(s, tail);
      LineRoundTrip(s[n..], rest);
      DecodeLineStep(head, tail, s[..n], |s| - n);
      assert (head + Encode(s[n..])) + rest == head + tail;
      assert s[..n] + s[n..] == s;
    }
  }

  lemma CodeUnfolds(s: seq<byte>)
    requires TokensFit(s)
    ensures s == [] ==> Encode(s) == []
    ensures s != [] ==>
      && TokenLength(s) <= TokenLimit(s) && TokensFit(s[TokenLength(s)..])
      && Encode(s) == TokenCode(s) + Encode(s[TokenLength(s)..])
  {
    hide TokenCode, TokenLength, TokenLimit;
  }

  lemma NothingDecodes(code: seq<byte>)
    ensures DecodeLine(code, 0) == Some(([], code))
  {
  }

  // --------------------------------------- beyond 16384 bytes it is not true

  /** 0, 1, 0, 1, ...: no two neighbours are equal. */
  function Alternating(n: nat): (r: seq<byte>)
    ensures |r| == n
    ensures forall k :: 0 <= k < n ==> r[k] == k % 2
  {
    seq(n, k => k % 2)
  }

  lemma AlternatingIsOneLiteral(n: nat)
    requires n >= 1
    ensures Encode(Alternating(n)) == LiteralHead(n) + Alternating(n)
  {
    var s := Alternating(n);
    assert forall k :: 0 <= k < n ==> !Worthwhile(s, k);
    assert TokenLength(s) == n;
    assert s[..n] == s;
    assert s[n..] == [];
    assert Encode([]) == [];
  }

  /** Code made of small bytes holds only short literals, so it yields fewer bytes than it has. */
  lemma {:induction false} SmallBytesShrink(code: seq<byte>, n: nat)
    requires forall k :: 0 <= k < |code| ==> code[k] < 64
    requires n > 0
    ensures DecodeLine(code, n).Some? ==> n < |code|
    decreases n
  {
    var p := DecodeToken(code);
    if p.Some? && |p.value.bytes| < n {
      var rest := code[p.value.used..];
      SmallBytesShrink(rest, n - |p.value.bytes|);
    }
  }

  lemma LongAlternatingFails(n: nat)
    requires n > 0x4000
    ensures DecodeLine(Encode(Alternating(n)), n).None?
  {
    var s := Alternating(n);
    var code := LiteralHead(n) + s;
    var m := (n - 1) % 0x4000 + 1;
    AlternatingIsOneLiteral(n);
    LongHeadDecodes(n, s);
    var rest := code[m + 2..];
    hide DecodeToken, LiteralHead, Encode;
    assert |rest| == n - m;
    forall k | 0 <= k < |rest| ensures rest[k] < 64 { assert rest[k] == s[m + k]; }
    SmallBytesShrink(rest, n - m);
    NotReached(code, n, Piece(code[2..m + 2], m + 2));
  }

  lemma NotReached(code: seq<byte>, n: nat, p: Piece)
    requires DecodeToken(code) == Some(p) && n > 0
    requires |p.bytes| < n && DecodeLine(code[p.used..], n - |p.bytes|).None?
    ensures DecodeLine(code, n).None?
  {
    hide DecodeToken;
  }

  /** A head for too many bytes announces only (n - 1) % 16384 + 1 of them. */
  lemma LongHeadDecodes(n: nat, s: seq<byte>)
    requires |s| == n > 0x4000
    ensures var m := (n - 1) % 0x4000 + 1; var code := LiteralHead(n) + s;
      |LiteralHead(n)| == 2 && m < n && DecodeToken(code) == Some(Piece(code[2..m + 2], m + 2))
  {
    var c := (n - 1) % 0x4000;
    var w := 0x8000 + c;
    var head := LiteralHead(n);
    assert head == [w / 256, w % 256];
    var code := head + s;
    assert code[0] == w / 256 && code[1] == w % 256;
    assert w / 256 % 64 * 256 + w % 256 == c;
  }

  /** The line coder is lossless on every line of n bytes exactly when n is at most 16384. */
  lemma LosslessLengths(n: nat)
    ensures (forall s: seq<byte> :: |s| == n ==> DecodeLine(Encode(s), n) == Some((s, [])))
            <==> n <= 0x4000
  {
    if n <= 0x4000 {
      forall s: seq<byte> | |s| == n
        ensures DecodeLine(Encode(s), n) == Some((s, []))
      {
        ShortLinesFit(s);
        LineRoundTrip(s, []);
        assert Encode(s) + [] == Encode(s);
      }
    } else {
      LongAlternatingFails(n);
      assert |Alternating(n)| == n;
    }
  }

  // ------------------------------------------------------------------ bands

  lemma OneMore(n: nat, width: nat)
    ensures (n + 1) * width == n * width + width
  {
  }

  lemma EncodeLinesStep(s: seq<byte>, i: nat, width: nat)
    requires (i + 1) * width <= |s|
    ensures (i + 1) * width == i * width + width
    ensures EncodeLines(s, i + 1, width) == EncodeLines(s, i, width) + Encode(s[i * width..i * width + width])
  {
    hide Encode;
    OneMore(i, width);
  }

  /** Lines can be peeled off the front as well as added at the back. */
  lemma {:induction false} EncodeLinesFront(s: seq<byte>, lines: nat, width: nat)
    requires 1 <= lines && lines * width <= |s|
    ensures width <= |s| && (lines - 1) * width <= |s[width..]|
    ensures EncodeLines(s, lines, width) == Encode(s[..width]) + EncodeLines(s[width..], lines - 1, width)
    decreases lines
  {
    hide Encode;
    assert lines * width == (lines - 1) * width + width;
    assert (lines - 1) * width >= 0;
    if lines == 1 {
      assert s[0..width] == s[..width];
    } else {
      var a, b := (lines - 2) * width, (lines - 1) * width;
      assert b == a + width;
      EncodeLinesFront(s, lines - 1, width);
      assert s[b..b + width] == s[width..][a..b];
      var first, mid, last := Encode(s[..width]), EncodeLines(s[width..], lines - 2, width), Encode(s[b..b + width]);
      assert (first + mid) + last == first + (mid + last);
    }
  }

  lemma DecodeBandStep(head: seq<byte>, tail: seq<byte>, line: seq<byte>, lines: nat)
    requires DecodeLine(head + tail, |line|) == Some((line, tail))
    ensures DecodeBand(head + tail, lines + 1, |line|)
            == match DecodeBand(tail, lines, |line|)
               case None => None
               case Some(r) => Some((line + r.0, r.1))
  {
  }

  lemma {:induction false} LinesRoundTrip(s: seq<byte>, lines: nat, width: nat, rest: seq<byte>)
    requires |s| == lines * width && width <= 0x4000
    ensures DecodeBand(EncodeLines(s, lines, width) + rest, lines, width) == Some((s, rest))
    decreases lines
  {
    hide Encode, DecodeLine;
    if lines == 0 {
      assert s == [] && EncodeLines(s, 0, width) + rest == rest;
    } else {
      EncodeLinesFront(s, lines, width);
      assert lines * width == (lines - 1) * width + width;
      var head, tail := Encode(s[..width]), EncodeLines(s[width..], lines - 1, width) + rest;
      assert EncodeLines(s, lines, width) + rest == head + tail;
      ShortLinesFit(s[..width]);
      LineRoundTrip(s[..width], tail);
      LinesRoundTrip(s[width..], lines - 1, width, rest);
      DecodeBandStep(head, tail, s[..width], lines - 1);
      assert s[..width] + s[width..] == s;
    }
  }

  /** A band decodes to itself and leaves at most three zero bytes. */
  lemma BandRoundTrip(s: seq<byte>, lines: nat, width: nat)
    requires |s| == lines * width && width <= 0x4000
    ensures exists pad: nat :: pad < 4
              && DecodeBand(EncodeBand(s, lines, width), lines, width) == Some((s, Zeros(pad)))
  {
    var pad := PadLength(|EncodeLines(s, lines, width)|);
    LinesRoundTrip(s, lines, width, Zeros(pad));
  }

  // -------------------------------------------------------- expansion bound

  predicate StartsWithTriple(s: seq<byte>) {
    |s| >= 3 && s[0] == s[1] == s[2]
  }

  /** The most that n bytes can compress to. */
  function LineLimit(n: nat): nat { n + n / 64 + 2 }

  /** A line grows by at most one byte in 64, plus two. */
  lemma {:induction false} LineGrowth(s: seq<byte>)
    ensures |Encode(s)| <= LineLimit(|s|)
    ensures StartsWithTriple(s) ==> |Encode(s)| < LineLimit(|s|)
    ensures |s| == 0 ==> |Encode(s)| == 0
    ensures |s| <= 2 && StartsWithRun(s) ==> |Encode(s)| <= 2
    ensures |s| == 3 && StartsWithRun(s) ==> |Encode(s)| <= 4
    ensures |s| == 1 ==> |Encode(s)| == 2
    decreases |s|
  {
    if s != [] {
      var n := TokenLength(s);
      var rest := s[n..];
      LineGrowth(rest);
      if !StartsWithRun(s) && n < |s| {
        assert Worthwhile(s, n);
        assert StartsWithRun(rest);
        assert |rest| <= 3 || StartsWithTriple(rest);
      }
    }
  }

  lemma {:induction false} LinesGrowth(s: seq<byte>, lines: nat, width: nat)
    requires lines * width <= |s|
    ensures |EncodeLines(s, lines, width)| <= lines * LineLimit(width)
    decreases lines
  {
    hide *;
    if lines > 0 {
      var n, per, at := lines - 1, LineLimit(width), (lines - 1) * width;
      OneMore(n, width);
      OneMore(n, per);
      EncodeLinesStep(s, n, width);
      LineWithin(s[at..at + width]);
      LinesGrowth(s, n, width);
    } else {
      NoLines(s, width);
    }
  }

  lemma NoLines(s: seq<byte>, width: nat)
    ensures EncodeLines(s, 0, width) == []
  {
  }

  lemma LineWithin(s: seq<byte>)
    ensures |Encode(s)| <= LineLimit(|s|)
  {
    LineGrowth(s);
  }

  /** The pixel widths of the two paper types. */
  const BAND_WIDTH: seq<nat> := [4768, 4928]

  function BandWidthBytes(paper: nat, dpi600: bool): nat
    requires paper < 2
  {
    var w := (BAND_WIDTH[paper] + 31) / 32 * 4;
    if dpi600 then w else w / 2
  }

  function BandHeight(dpi600: bool): nat {
    if dpi600 then 128 else 256
  }

  /** The bands of the two papers in bytes: 596 and 616 wide and 128 lines high at
      600 dots per inch, half as wide and twice as high at 300. */
  lemma BandSizes()
    ensures BandWidthBytes(0, true) == 596 && BandWidthBytes(1, true) == 616 && BandHeight(true) == 128
    ensures BandWidthBytes(0, false) == 298 && BandWidthBytes(1, false) == 308 && BandHeight(false) == 256
  {
  }

  /** The output buffer of 13/10 of the band always holds the compressed band. */
  lemma OutputBufferSuffices(s: seq<byte>, paper: nat, dpi600: bool)
    requires paper < 2
    requires |s| == BandHeight(dpi600) * BandWidthBytes(paper, dpi600)
    ensures |EncodeBand(s, BandHeight(dpi600), BandWidthBytes(paper, dpi600))| <= |s| * 13 / 10
  {
    LinesGrowth(s, BandHeight(dpi600), BandWidthBytes(paper, dpi600));
  }

  // ------------------------------------------------------------ blank bands

  predicate Blank(s: seq<byte>) {
    forall k :: 0 <= k < |s| ==> s[k] == 0
  }

  lemma BlankLineIsOneRun(s: seq<byte>)
    requires Blank(s) && |s| >= 66
    ensures |Encode(s)| == 3
  {
    assert TokenLength(s) == |s|;
    assert s[|s|..] == [];
    assert |Encode(s[|s|..])| == 0;
  }

  lemma BlankSlice(s: seq<byte>, lo: nat, hi: nat)
    requires Blank(s) && lo <= hi <= |s|
    ensures Blank(s[lo..hi])
  {
  }

  lemma {:induction false} BlankLines(s: seq<byte>, lines: nat, width: nat)
    requires Blank(s) && width >= 66 && lines * width <= |s|
    ensures |EncodeLines(s, lines, width)| == 3 * lines
    decreases lines
  {
    hide *;
    if lines > 0 {
      var n, at := lines - 1, (lines - 1) * width;
      OneMore(n, width);
      EncodeLinesStep(s, n, width);
      BlankSlice(s, at, at + width);
      BlankLineIsOneRun(s[at..at + width]);
      BlankLines(s, n, width);
    } else {
      NoLines(s, width);
    }
  }

  // ------------------------------------------------------------- coarsening

  /** One byte of a band coarsened at a retry level; level 0 is the band itself. */
  function Coarse(level: nat, x: byte): byte {
    match level
    case 0 => x
    case 2 =>
      (if x / 64 % 4 != 0 then 192 else 0) + (if x / 16 % 4 != 0 then 48 else 0)
      + (if x / 4 % 4 != 0 then 12 else 0) + (if x % 4 != 0 then 3 else 0)
    case 3 => (if x / 16 % 16 != 0 then 240 else 0) + (if x % 16 != 0 then 15 else 0)
    case 4 => if x != 0 then 15 else 0
    case _ => 0
  }

  function Coarsened(level: nat, s: seq<byte>): (r: seq<byte>)
    ensures |r| == |s|
    ensures level >= 5 ==> Blank(r)
  {
    seq(|s|, k requires 0 <= k < |s| => Coarse(level, s[k]))
  }

  /** Two-bit and four-bit groups of a byte, from the low end. */
  function Pair(x: byte, j: nat): int
    requires j < 4
  {
    match j case 0 => x % 4 case 1 => x / 4 % 4 case 2 => x / 16 % 4 case _ => x / 64
  }

  function Nibble(x: byte, j: nat): int
    requires j < 2
  {
    if j == 0 then x % 16 else x / 16
  }

  lemma PairDigits(a: int, b: int, c: int, d: int)
    requires 0 <= a < 4 && 0 <= b < 4 && 0 <= c < 4 && 0 <= d < 4
    ensures var y := a * 64 + b * 16 + c * 4 + d;
      Pair(y, 3) == a && Pair(y, 2) == b && Pair(y, 1) == c && Pair(y, 0) == d
  {
    var y := a * 64 + b * 16 + c * 4 + d;
    assert y / 64 == a;
    assert y / 16 == 4 * a + b;
    assert y / 4 == 4 * (4 * a + b) + c;
  }

  /** The retries round ink up: at first in groups of two bits, then of four, so
      no ink is lost; the third keeps whether a byte has ink, all of it low. */
  lemma RetriesRoundUp(x: byte, j: nat)
    ensures j < 4 ==> Pair(Coarse(2, x), j) == (if Pair(x, j) != 0 then 3 else 0)
    ensures j < 2 ==> Nibble(Coarse(3, x), j) == (if Nibble(x, j) != 0 then 15 else 0)
    ensures Coarse(4, x) == 0 <==> x == 0
    ensures Nibble(Coarse(4, x), 1) == 0 && Nibble(Coarse(4, x), 0) == (if x != 0 then 15 else 0)
  {
    if j < 4 {
      var a := if Pair(x, 3) != 0 then 3 else 0;
      var b := if Pair(x, 2) != 0 then 3 else 0;
      var c := if Pair(x, 1) != 0 then 3 else 0;
      var d := if Pair(x, 0) != 0 then 3 else 0;
      assert x / 64 % 4 == x / 64;
      assert Coarse(2, x) == a * 64 + b * 16 + c * 4 + d;
      PairDigits(a, b, c, d);
    }
  }
}
