/** Exactly when translating a Unix name to RISC OS and back gives the name again. */
module FilenameProofs {
  import opened FilenameSpec

  predicate ComponentStart(s: string, i: nat) {
    i == 0 || (i <= |s| && s[i - 1] == '/')
  }

  /** No empty component, no "." or ".." component that is followed by a slash. */
  predicate Direct(s: string) {
    forall i :: 0 <= i < |s| && ComponentStart(s, i) ==>
      !SkipsDot(s, i, '.') && !GoesUp(s, i, '.') && !SkipsSlash(s, i, '.')
  }

  lemma {:induction false} DirectSwaps(s: string, i: nat, previous: char)
    requires i <= |s| && Direct(s) && (previous == '.' <==> ComponentStart(s, i))
    ensures Native(s, i, previous) == Swap(s)[i..]
    decreases |s| - i
  {
    if i < |s| {
      DirectSwaps(s, i + 1, SwapChar(s[i]));
      assert Swap(s)[i..] == [SwapChar(s[i])] + Swap(s)[i + 1..];
    }
  }

  /** Every special treatment makes the name shorter. */
  lemma {:induction false} SpecialShortens(s: string, i: nat, j: nat, previous: char)
    requires i <= j < |s| && (previous == '.' <==> ComponentStart(s, i))
    requires ComponentStart(s, j) && (SkipsDot(s, j, '.') || GoesUp(s, j, '.') || SkipsSlash(s, j, '.'))
    ensures |Native(s, i, previous)| < |s| - i
    decreases |s| - i
  {
    if SkipsDot(s, i, previous) || GoesUp(s, i, previous) || SkipsSlash(s, i, previous) {
    } else {
      assert i < j;
      SpecialShortens(s, i + 1, j, SwapChar(s[i]));
    }
  }

  lemma NativeLength(s: string)
    ensures Direct(s) ==> Native(s) == Swap(s)
    ensures !Direct(s) ==> |Native(s)| < |s|
  {
    if Direct(s) {
      DirectSwaps(s, 0, '.');
    } else {
      var j :| 0 <= j < |s| && ComponentStart(s, j) && (SkipsDot(s, j, '.') || GoesUp(s, j, '.') || SkipsSlash(s, j, '.'));
      SpecialShortens(s, 0, j, '.');
    }
  }

  lemma SwapTwice(s: string)
    ensures Swap(Swap(s)) == s
  {
  }

  lemma SwapJoins(a: string, b: string)
    ensures Swap(a + b) == Swap(a) + Swap(b)
  {
  }

  lemma SwapSlices(s: string, lo: nat, hi: nat)
    requires lo <= hi <= |s|
    ensures Swap(s[lo..hi]) == Swap(s)[lo..hi]
  {
  }

  /** A position with nothing but other characters behind it is the last one. */
  lemma LastIs(s: string, c: char, r: int)
    requires IsLast(s, c, r)
    ensures LastIndex(s, c) == r
  {
    LastIndexIs(s, c);
  }

  lemma {:induction false} LastIndexIs(s: string, c: char)
    ensures IsLast(s, c, LastIndex(s, c))
    decreases |s|
  {
    if s != "" && s[|s| - 1] != c {
      LastIndexIs(s[..|s| - 1], c);
    }
  }

  lemma SwapLast(s: string)
    ensures LastIndex(Swap(s), '.') == LastIndex(s, '/')
    ensures LastIndex(Swap(s), '/') == LastIndex(s, '.')
  {
    LastIndexIs(s, '/');
    LastIndexIs(s, '.');
    LastIs(Swap(s), '.', LastIndex(s, '/'));
    LastIs(Swap(s), '/', LastIndex(s, '.'));
  }

  // ------------------------------------------------------ parts of a name

  function LeafStart(s: string): (r: nat)
    ensures r <= |s|
  {
    LastIndex(s, '/') + 1
  }

  /** Position of the dot of the extension within the leaf, or at most 0 if there is none. */
  function DotInLeaf(s: string): int { LastIndex(s[LeafStart(s)..], '.') }

  /** The leaf is a non-empty stem, a dot and a listed extension. */
  predicate HasListedExtension(s: string, entries: seq<string>) {
    DotInLeaf(s) > 0 && s[LeafStart(s)..][DotInLeaf(s) + 1..] in entries
  }

  predicate HasDirectory(s: string) { LastIndex(s, '/') > 0 }

  /** The name of the directory that holds the leaf. */
  function Parent(s: string): string
    requires HasDirectory(s)
  {
    s[LastIndex(s[..LeafStart(s) - 1], '/') + 1..LeafStart(s) - 1]
  }

  /** A listed extension comes back unless it is empty and there is no directory;
      any other name comes back unless its parent's name is a listed extension. */
  predicate Reversible(s: string, entries: seq<string>) {
    if HasListedExtension(s, entries) then HasDirectory(s) || DotInLeaf(s) + 1 < |s[LeafStart(s)..]|
    else HasDirectory(s) ==> Parent(s) !in entries
  }

  // ---------------------------------------------------- names in their parts

  predicate Lacks(s: string, c: char) { forall k :: 0 <= k < |s| ==> s[k] != c }

  predicate IsDirectory(d: string) { d == "" || d[|d| - 1] == '/' }

  lemma SwapLacks(s: string)
    ensures Lacks(s, '/') ==> Lacks(Swap(s), '.')
    ensures Lacks(s, '.') ==> Lacks(Swap(s), '/')
    ensures Lacks(s, '/') && Lacks(s, '.') ==> Swap(s) == s
  {
  }

  /** The last c of a + b when b has none, and of a + [c] + b. */
  lemma LastOfJoin(a: string, b: string, c: char)
    requires Lacks(b, c)
    ensures LastIndex(a + b, c) == LastIndex(a, c)
    ensures LastIndex(a + [c] + b, c) == |a|
  {
    LastIndexIs(a, c);
    LastIs(a + b, c, LastIndex(a, c));
    LastIs(a + [c] + b, c, |a|);
  }

  lemma DirectoryEnds(d: string)
    requires IsDirectory(d)
    ensures LastIndex(d, '/') == |d| - 1
  {
    LastIs(d, '/', |d| - 1);
  }

  lemma HoistParts(dir: string, stem: string, ext: string, entries: seq<string>)
    requires IsDirectory(dir) && stem != "" && Lacks(stem, '/') && Lacks(ext, '/') && Lacks(ext, '.')
    ensures Hoist(Swap(dir + stem + "." + ext), entries)
         == Swap(if ext in entries then dir + ext + "/" + stem else dir + stem + "." + ext)
  {
    SwapJoins(dir + stem + ".", ext);
    SwapJoins(dir + stem, ".");
    SwapJoins(dir, stem);
    SwapJoins(dir + ext + "/", stem);
    SwapJoins(dir + ext, "/");
    SwapJoins(dir, ext);
    SwapLacks(stem);
    SwapLacks(ext);
    assert Swap(".") == "/" && Swap("/") == ".";
    SwapLast(dir);
    DirectoryEnds(dir);
    hide Swap;
    HoistNative(Swap(dir), Swap(stem), ext, entries);
  }

  lemma HoistNative(dir: string, stem: string, ext: string, entries: seq<string>)
    requires LastIndex(dir, '.') == |dir| - 1 && stem != "" && Lacks(stem, '.') && Lacks(ext, '/') && Lacks(ext, '.')
    ensures Hoist(dir + stem + "/" + ext, entries)
         == if ext in entries then dir + ext + "." + stem else dir + stem + "/" + ext
  {
    hide *;
    var leaf := stem + "/" + ext;
    JoinLacks(stem, ext);
    Associates(dir, stem, "/", ext);
    LastOfJoin(dir, leaf, '.');
    LastOfJoin(stem, ext, '/');
    Cut(dir, leaf);
    HoistUnfolds(dir + stem + "/" + ext, |dir|, |stem|, entries);
    HoistAtDot(dir, stem, ext, entries);
  }

  lemma JoinLacks(stem: string, ext: string)
    requires Lacks(stem, '.') && Lacks(ext, '.')
    ensures Lacks(stem + "/" + ext, '.')
  {
  }

  lemma HoistUnfolds(b: string, l: nat, t: int, entries: seq<string>)
    requires LastIndex(b, '.') + 1 == l && LastIndex(b[l..], '/') == t
    ensures Hoist(b, entries) == HoistAt(b, l, t, entries)
  {
  }

  lemma Associates(a: string, b: string, c: string, d: string)
    ensures a + b + c + d == a + (b + c + d)
  {
  }

  lemma HoistAtDot(dir: string, stem: string, ext: string, entries: seq<string>)
    requires stem != ""
    ensures HoistAt(dir + stem + "/" + ext, |dir|, |stem|, entries)
         == if ext in entries then dir + ext + "." + stem else dir + stem + "/" + ext
  {
    var leaf := stem + "/" + ext;
    Associates(dir, stem, "/", ext);
    Cut(dir, leaf);
    CutAt(stem, '/', ext);
  }

  lemma Cut(a: string, b: string)
    ensures (a + b)[..|a|] == a && (a + b)[|a|..] == b
  {
  }

  lemma CutAt(a: string, c: char, b: string)
    ensures (a + [c] + b)[..|a|] == a && (a + [c] + b)[|a| + 1..] == b
  {
  }

  lemma LowerParts(dir: string, comp: string, leaf: string, entries: seq<string>)
    requires IsDirectory(dir) && Lacks(comp, '/') && Lacks(leaf, '/')
    ensures Lower(dir + comp + "/" + leaf, entries)
         == if dir + comp != "" && comp in entries then dir + leaf + "." + comp else dir + comp + "/" + leaf
  {
    var b := dir + comp + "/" + leaf;
    var l := |dir + comp|;
    LastOfJoin(dir + comp, leaf, '/');
    assert b[..l] == dir + comp && b[l + 1..] == leaf;
    LastOfJoin(dir, comp, '/');
    DirectoryEnds(dir);
    assert b[..|dir|] == dir && b[|dir|..l] == comp;
    hide LastIndex;
  }

  lemma LowerBare(b: string, entries: seq<string>)
    requires Lacks(b, '/')
    ensures Lower(b, entries) == b
  {
    LastIs(b, '/', -1);
  }

  /** Cutting a name at its last slash and its leaf at the last dot. */
  lemma LeafParts(s: string) returns (dir: string, leaf: string)
    ensures s == dir + leaf && IsDirectory(dir) && Lacks(leaf, '/') && |dir| == LeafStart(s)
  {
    LastIndexIs(s, '/');
    dir, leaf := s[..LeafStart(s)], s[LeafStart(s)..];
  }

  lemma ParentParts(s: string) returns (dir: string, comp: string, leaf: string)
    requires HasDirectory(s)
    ensures s == dir + comp + "/" + leaf && dir + comp != "" && comp == Parent(s)
    ensures IsDirectory(dir) && Lacks(comp, '/') && Lacks(leaf, '/')
  {
    var l := LeafStart(s) - 1;
    var q := LastIndex(s[..l], '/') + 1;
    LastIndexIs(s, '/');
    LastIndexIs(s[..l], '/');
    hide LastIndex;
    dir, comp, leaf := s[..q], s[q..l], s[l + 1..];
    assert q > 0 ==> s[..l][q - 1] == '/';
    forall k | 0 <= k < |comp| ensures comp[k] != '/' { assert comp[k] == s[..l][q + k]; }
  }

  lemma ExtensionParts(s: string) returns (dir: string, stem: string, ext: string)
    requires DotInLeaf(s) > 0
    ensures s == dir + stem + "." + ext && IsDirectory(dir) && |dir| == LeafStart(s) && stem != ""
    ensures Lacks(stem, '/') && Lacks(ext, '/') && Lacks(ext, '.')
    ensures ext == s[LeafStart(s)..][DotInLeaf(s) + 1..]
  {
    var l, d := LeafStart(s), DotInLeaf(s);
    assert d == LastIndex(s[l..], '.');
    hide *;
    var leaf;
    dir, leaf := LeafParts(s);
    Cut(dir, leaf);
    stem, ext := DotParts(leaf);
    Associates(dir, stem, ".", ext);
  }

  lemma DotParts(leaf: string) returns (stem: string, ext: string)
    requires LastIndex(leaf, '.') > 0 && Lacks(leaf, '/')
    ensures leaf == stem + "." + ext && stem != "" && |stem| == LastIndex(leaf, '.')
    ensures Lacks(stem, '/') && Lacks(ext, '/') && Lacks(ext, '.')
    ensures ext == leaf[LastIndex(leaf, '.') + 1..]
  {
    var d := LastIndex(leaf, '.');
    LastIndexIs(leaf, '.');
    stem, ext := leaf[..d], leaf[d + 1..];
  }

  // ------------------------------------------------------------ the theorem

  function SlashCount(s: string): nat {
    if s == "" then 0 else (if s[0] == '/' then 1 else 0) + SlashCount(s[1..])
  }

  lemma {:induction false} SlashesAdd(a: string, b: string)
    ensures SlashCount(a + b) == SlashCount(a) + SlashCount(b)
  {
    if a == "" {
      assert a + b == b;
    } else {
      assert (a + b)[1..] == a[1..] + b;
      SlashesAdd(a[1..], b);
    }
  }

  /** Moving a directory name behind its leaf loses a slash. */
  lemma LoweredDiffers(dir: string, comp: string, leaf: string)
    ensures dir + leaf + "." + comp != dir + comp + "/" + leaf
  {
    SlashesAdd(dir + leaf + ".", comp);
    SlashesAdd(dir + leaf, ".");
    SlashesAdd(dir, leaf);
    SlashesAdd(dir + comp + "/", leaf);
    SlashesAdd(dir + comp, "/");
    SlashesAdd(dir, comp);
    OneSlash();
  }

  lemma OneSlash()
    ensures SlashCount("/") == 1 && SlashCount(".") == 0
  {
    assert "/"[1..] == "" && "."[1..] == "";
  }

  /** Without a listed extension nothing is hoisted. */
  lemma NothingHoisted(s: string, entries: seq<string>)
    requires !HasListedExtension(s, entries)
    ensures Hoist(Swap(s), entries) == Swap(s)
  {
    if DotInLeaf(s) > 0 {
      var dir, stem, ext := ExtensionParts(s);
      HoistParts(dir, stem, ext, entries);
    } else {
      var b, l := Swap(s), LeafStart(s);
      SwapLast(s);
      SwapSlices(s, l, |s|);
      assert s[l..|s|] == s[l..] && b[l..|s|] == b[l..];
      SwapLast(s[l..]);
    }
  }

  lemma ListedComesBack(s: string, entries: seq<string>)
    requires HasListedExtension(s, entries) && s[0] != '/'
    ensures Lower(Swap(Hoist(Swap(s), entries)), entries) == s <==> Reversible(s, entries)
  {
    hide Hoist, Lower, Swap;
    var dir, stem, ext := ExtensionParts(s);
    var back := dir + ext + "/" + stem;
    HoistParts(dir, stem, ext, entries);
    SwapTwice(back);
    LowerParts(dir, ext, stem, entries);
    ListedParts(s, dir, stem, ext);
    if dir + ext == "" {
      assert back[0] == '/';
    }
  }

  /** A leading slash never appears in front of a plain leaf. */
  lemma ListedParts(s: string, dir: string, stem: string, ext: string)
    requires s == dir + stem + "." + ext && |dir| == LeafStart(s) && s[0] != '/' && IsDirectory(dir)
    requires DotInLeaf(s) > 0 && ext == s[LeafStart(s)..][DotInLeaf(s) + 1..]
    ensures dir + ext != "" <==> HasDirectory(s) || DotInLeaf(s) + 1 < |s[LeafStart(s)..]|
  {
  }

  lemma UnlistedComesBack(s: string, entries: seq<string>)
    requires s != "" ==> s[0] != '/'
    ensures !HasListedExtension(s, entries) ==>
      (Lower(Swap(Hoist(Swap(s), entries)), entries) == s <==> Reversible(s, entries))
  {
    hide Hoist, Lower, Swap, HasListedExtension;
    if !HasListedExtension(s, entries) {
      NothingHoisted(s, entries);
      SwapTwice(s);
      if HasDirectory(s) {
        var dir, comp, leaf := ParentParts(s);
        LowerParts(dir, comp, leaf, entries);
        LoweredDiffers(dir, comp, leaf);
      } else {
        LastIndexIs(s, '/');
        LowerBare(s, entries);
      }
    }
  }

  /** Translating a name to RISC OS and back gives the same name exactly when it
      has no component that is dropped or turned into "^" and its extension, or
      else its parent directory, is not mistaken for another. */
  lemma RoundTrip(s: string, extlist: Option<string>)
    ensures ToUnix(ToRiscos(s, extlist), extlist) == s
       <==> Direct(s) && (extlist.Some? ==> Reversible(s, Entries(extlist.value)))
  {
    NativeLength(s);
    hide Native, Swap, Hoist, Lower, Reversible, Entries;
    if Direct(s) {
      if s != "" {
        NoLeadingSlash(s);
      }
      if extlist.Some? {
        var entries := Entries(extlist.value);
        if HasListedExtension(s, entries) {
          ListedComesBack(s, entries);
        } else {
          UnlistedComesBack(s, entries);
        }
      } else {
        SwapTwice(s);
      }
    }
  }

  lemma NoLeadingSlash(s: string)
    requires Direct(s) && s != ""
    ensures s[0] != '/'
  {
    assert ComponentStart(s, 0);
  }

  // ------------------------------------------------- the special components

  /** One step of the translation, case by case. */
  lemma NativeStep(s: string, i: nat, previous: char)
    requires i < |s|
    ensures SkipsDot(s, i, previous) ==> i + 2 <= |s| && Native(s, i, previous) == Native(s, i + 2, previous)
    ensures GoesUp(s, i, previous) ==> i + 2 <= |s| && Native(s, i, previous) == ['^'] + Native(s, i + 2, '^')
    ensures SkipsSlash(s, i, previous) ==> Native(s, i, previous) == Native(s, i + 1, previous)
    ensures !SkipsDot(s, i, previous) && !GoesUp(s, i, previous) && !SkipsSlash(s, i, previous) ==>
      Native(s, i, previous) == [SwapChar(s[i])] + Native(s, i + 1, SwapChar(s[i]))
  {
  }

  lemma NativeEnds(s: string, previous: char)
    ensures Native(s, |s|, previous) == ""
  {
  }

  lemma SameTreatment(p: string, s: string, i: nat, previous: char)
    requires i < |s|
    ensures (p + s)[|p| + i] == s[i]
    ensures SkipsDot(p + s, |p| + i, previous) <==> SkipsDot(s, i, previous)
    ensures GoesUp(p + s, |p| + i, previous) <==> GoesUp(s, i, previous)
    ensures SkipsSlash(p + s, |p| + i, previous) <==> SkipsSlash(s, i, previous)
  {
    var t, j := p + s, |p| + i;
    assert At(t, j) == At(s, i) && At(t, j + 1) == At(s, i + 1) && At(t, j + 2) == At(s, i + 2);
  }

  lemma {:induction false} NativeShifts(p: string, s: string, i: nat, previous: char)
    requires i <= |s|
    ensures Native(p + s, |p| + i, previous) == Native(s, i, previous)
    decreases |s| - i
  {
    hide *;
    var t, j := p + s, |p| + i;
    if i == |s| {
      NativeEnds(s, previous);
      NativeEnds(t, previous);
    } else {
      SameTreatment(p, s, i, previous);
      NativeStep(s, i, previous);
      NativeStep(t, j, previous);
      if SkipsDot(s, i, previous) {
        NativeShifts(p, s, i + 2, previous);
      } else if GoesUp(s, i, previous) {
        NativeShifts(p, s, i + 2, '^');
      } else if SkipsSlash(s, i, previous) {
        NativeShifts(p, s, i + 1, previous);
      } else {
        NativeShifts(p, s, i + 1, SwapChar(s[i]));
      }
    }
  }

  /** In front of a name, "./" and "/" vanish and "../" becomes "^.". */
  lemma SpecialPrefixes(s: string)
    ensures Native("./" + s) == Native(s)
    ensures Native("/" + s) == Native(s)
    ensures Native("../" + s) == "^." + Native(s)
  {
    hide Native;
    NativeShifts("./", s, 0, '.');
    NativeShifts("/", s, 0, '.');
    NativeShifts("../", s, 0, '.');
    NativeStep("./" + s, 0, '.');
    NativeStep("/" + s, 0, '.');
    NativeStep("../" + s, 0, '.');
    NativeStep("../" + s, 2, '^');
  }

  /** Directories in front that are nothing special are swapped character by
      character, and what follows is translated as if it stood alone. With the
      lemma above this fixes the translation of every relative name. */
  lemma NativeComposes(p: string, s: string)
    requires p != "" && p[|p| - 1] == '/' && Direct(p)
    ensures Native(p + s) == Swap(p) + Native(s)
  {
    ComposesFrom(p, s, 0, '.');
    assert Swap(p)[0..] == Swap(p);
  }

  lemma {:induction false} ComposesFrom(p: string, s: string, i: nat, previous: char)
    requires i <= |p| && p != "" && p[|p| - 1] == '/' && Direct(p) && (previous == '.' <==> ComponentStart(p, i))
    ensures Native(p + s, i, previous) == Swap(p)[i..] + Native(s)
    decreases |p| - i
  {
    hide Native, Direct;
    if i == |p| {
      NativeShifts(p, s, 0, '.');
      assert Swap(p)[i..] + Native(s) == Native(s);
    } else {
      PlainPlace(p, s, i, previous);
      NativeStep(p + s, i, previous);
      ComposesFrom(p, s, i + 1, SwapChar(p[i]));
      assert Swap(p)[i..] == [SwapChar(p[i])] + Swap(p)[i + 1..];
      Associates3([SwapChar(p[i])], Swap(p)[i + 1..], Native(s));
    }
  }

  lemma Associates3(a: string, b: string, c: string)
    ensures a + b + c == a + (b + c)
  {
  }

  lemma PlainPlace(p: string, s: string, i: nat, previous: char)
    requires i < |p| && p[|p| - 1] == '/' && Direct(p) && (previous == '.' <==> ComponentStart(p, i))
    ensures (p + s)[i] == p[i] && (SwapChar(p[i]) == '.' <==> ComponentStart(p, i + 1))
    ensures !SkipsDot(p + s, i, previous) && !GoesUp(p + s, i, previous) && !SkipsSlash(p + s, i, previous)
  {
    var t := p + s;
    assert At(t, i) == At(p, i);
    assert i + 1 < |p| ==> At(t, i + 1) == At(p, i + 1);
    assert i + 2 < |p| ==> At(t, i + 2) == At(p, i + 2);
    if ComponentStart(p, i) {
      assert !SkipsDot(p, i, '.') && !GoesUp(p, i, '.') && !SkipsSlash(p, i, '.');
    }
  }

  // --------------------------------------------------------- the extension list

  /** list[i..j] is an entry: it has no colon and lies between colons or ends of
      the list, and starts before the end. */
  predicate EntryAt(list: string, i: nat, j: nat) {
    && i <= j <= |list| && i < |list|
    && (i == 0 || list[i - 1] == ':') && (j == |list| || list[j] == ':')
    && Lacks(list[i..j], ':')
  }

  ghost predicate Stands(list: string, e: string) {
    exists i: nat, j: nat :: EntryAt(list, i, j) && list[i..j] == e
  }

  /** The entries of a list are what stands between its colons and ends. */
  lemma {:induction false} EntriesMeaning(list: string, e: string)
    ensures e in Entries(list) <==> Stands(list, e)
    decreases |list|
  {
    EntriesIs(list);
    hide Entries;
    if list != "" {
      var n := EntryLength(list);
      hide EntryLength;
      var rest := list[if n < |list| then n + 1 else n..];
      EntriesMeaning(rest, e);
      StandsIs(list, n, e);
    }
  }

  lemma EntriesIs(list: string)
    ensures list == "" ==> Entries(list) == []
    ensures list != "" ==>
      var n := EntryLength(list); Entries(list) == [list[..n]] + Entries(list[if n < |list| then n + 1 else n..])
  {
    hide EntryLength;
  }

  lemma EntryShifts(list: string, m: nat, i: nat, j: nat)
    requires 0 < m <= |list| && list[m - 1] == ':' && m <= i <= j <= |list|
    ensures list[i..j] == list[m..][i - m..j - m]
    ensures EntryAt(list, i, j) <==> EntryAt(list[m..], i - m, j - m)
  {
  }

  /** What stands in a list is its first entry or stands behind it. */
  lemma StandsIs(list: string, n: nat, e: string)
    requires list != "" && n <= |list| && (n < |list| ==> list[n] == ':') && (forall k :: 0 <= k < n ==> list[k] != ':')
    ensures Stands(list, e) <==> e == list[..n] || Stands(list[if n < |list| then n + 1 else n..], e)
  {
    var m := if n < |list| then n + 1 else n;
    var rest := list[m..];
    assert list[0..n] == list[..n] && EntryAt(list, 0, n);
    if Stands(rest, e) {
      var i: nat, j: nat :| EntryAt(rest, i, j) && rest[i..j] == e;
      assert i <= j <= |rest| && i < |rest|;
      hide EntryAt;
      EntryShifts(list, m, m + i, m + j);
    }
    if Stands(list, e) {
      var i: nat, j: nat :| EntryAt(list, i, j) && list[i..j] == e;
      if i == 0 {
        FirstEntry(list, n, j);
      } else {
        LaterEntry(list, n, i, j);
        hide EntryAt;
        EntryShifts(list, m, i, j);
      }
    }
  }

  lemma FirstEntry(list: string, n: nat, j: nat)
    requires n <= |list| && (n < |list| ==> list[n] == ':') && (forall k :: 0 <= k < n ==> list[k] != ':')
    requires EntryAt(list, 0, j)
    ensures j == n
  {
    assert forall k :: 0 <= k < j ==> list[0..j][k] == list[k];
  }

  lemma LaterEntry(list: string, n: nat, i: nat, j: nat)
    requires n <= |list| && (n < |list| ==> list[n] == ':') && (forall k :: 0 <= k < n ==> list[k] != ':')
    requires i > 0 && EntryAt(list, i, j)
    ensures n < |list| && n + 1 <= i <= j <= |list|
  {
  }

  lemma OneEntry()
    ensures Entries("c") == ["c"]
  {
    assert "c"[1..] == "" && "c"[..1] == "c";
    assert EntryLength("c") == 1;
  }

  lemma PlainPath()
    ensures Direct("c/main") && Swap("c/main") == "c.main" && Swap("c.main") == "c/main"
  {
    var s := "c/main";
    forall i | 0 <= i < |s| && ComponentStart(s, i)
      ensures !SkipsDot(s, i, '.') && !GoesUp(s, i, '.') && !SkipsSlash(s, i, '.')
    {
      assert i == 0 || i == 2;
    }
  }

  /** A directory whose name is a listed extension is taken for one. */
  lemma DirectoryExample()
    ensures ToRiscos("c/main", Some("c")) == "c.main" && ToUnix("c.main", Some("c")) == "main.c"
  {
    hide Native, Swap, Hoist, Lower, Entries, Direct;
    OneEntry();
    PlainPath();
    NativeLength("c/main");
    assert "c/main" == "" + "c" + "/" + "main" && "main.c" == "" + "main" + "." + "c";
    LowerParts("", "c", "main", ["c"]);
    PlainLeaf();
    NothingHoisted("c/main", ["c"]);
  }

  lemma PlainLeaf()
    ensures !HasListedExtension("c/main", ["c"])
  {
    LastIs("c/main", '/', 1);
    assert "c/main"[2..] == "main";
    LastIs("main", '.', -1);
  }
}
