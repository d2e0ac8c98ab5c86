/** Constants from 8-bit rotated immediates, as cmunge builds them
    (writefile.c, representable) and as section A5.1.3 of the ARM Architecture
    Reference Manual (ARM DDI 0100I) defines them. */
module ArmImmediate {

  function RotateUp(m: bv32): bv32 { (m << 2) | (m >> 30) }

  function RotateDown(m: bv32): bv32 { (m >> 2) | (m << 30) }

  /** imm8 rotated right by 2 * rot bits. */
  function RotatedRight(x: bv32, rot: nat): bv32
    decreases rot
  {
    if rot == 0 then x else RotatedRight(RotateDown(x), rot - 1)
  }

  /** A value that one data-processing instruction can hold as its operand. */
  ghost predicate IsImmediate(x: bv32) {
    exists imm8: bv32, rot: nat :: imm8 <= 255 && rot < 16 && x == RotatedRight(imm8, rot)
  }

  /** 255 rotated left by 2 * k bits. */
  function Mask(k: nat): bv32
    requires k < 16
  {
    match k
    case 0 => 0xff
    case 1 => 0x3fc
    case 2 => 0xff0
    case 3 => 0x3fc0
    case 4 => 0xff00
    case 5 => 0x3fc00
    case 6 => 0xff000
    case 7 => 0x3fc000
    case 8 => 0xff0000
    case 9 => 0x3fc0000
    case 10 => 0xff00000
    case 11 => 0x3fc00000
    case 12 => 0xff000000
    case 13 => 0xfc000003
    case 14 => 0xf000000f
    case _ => 0xc000003f
  }

  /** The 2 * k lowest bits. */
  function Low(k: nat): bv32
    requires k <= 16
  {
    match k
    case 0 => 0x0
    case 1 => 0x3
    case 2 => 0xf
    case 3 => 0x3f
    case 4 => 0xff
    case 5 => 0x3ff
    case 6 => 0xfff
    case 7 => 0x3fff
    case 8 => 0xffff
    case 9 => 0x3ffff
    case 10 => 0xfffff
    case 11 => 0x3fffff
    case 12 => 0xffffff
    case 13 => 0x3ffffff
    case 14 => 0xfffffff
    case 15 => 0x3fffffff
    case _ => 0xffffffff
  }

  lemma MaskRotates(k: nat)
    requires k < 15
    ensures RotateUp(Mask(k)) == Mask(k + 1)
  {
  }

  predicate Disjoint(a: bv32, b: bv32) { And(a, b) == 0 }

  function And(a: bv32, b: bv32): bv32 { a & b }

  function Or(a: bv32, b: bv32): bv32 { a | b }

  function Without(n: bv32, m: bv32): bv32 { n & !m }

  /** No bit among the 2 * k lowest. */
  predicate Clear(i: bv32, k: nat)
    requires k <= 16
  {
    Disjoint(i, Low(k))
  }

  /** No bit outside the eight-bit window at pair k. */
  predicate Under(x: bv32, k: nat)
    requires k < 16
  {
    Without(x, Mask(k)) == 0
  }

  function Window(i: bv32, k: nat): bv32
    requires k < 16
  {
    And(i, Mask(k))
  }

  /** The test of the loop: the lowest bit pair of the mask's window is empty. */
  predicate Empty(i: bv32, mask: bv32) {
    Without(And(i, mask), mask << 2) == 0
  }

  lemma ClearEnds(i: bv32)
    ensures Clear(i, 0)
    ensures Clear(i, 16) <==> i == 0
  {
  }

  lemma ClearNests(i: bv32, j: nat)
    requires 1 <= j <= 16 && Clear(i, j)
    ensures Clear(i, j - 1)
  {
    if j <= 8 {
      assert j == 1 || j == 2 || j == 3 || j == 4 || j == 5 || j == 6 || j == 7 || j == 8;
    } else {
      assert j == 9 || j == 10 || j == 11 || j == 12 || j == 13 || j == 14 || j == 15 || j == 16;
    }
  }

  /** The pair a mask adds below itself shifted, joined with all lower bits. */
  lemma WindowEdge(k: nat)
    requires k < 16
    ensures Edge(Mask(k), Low(k)) == Low(k + 1)
  {
  }

  function Edge(mask: bv32, low: bv32): bv32 { Or(Without(mask, mask << 2), low) }

  lemma EmptyEdge(i: bv32, mask: bv32, low: bv32)
    requires Disjoint(i, low)
    ensures Empty(i, mask) <==> Disjoint(i, Edge(mask, low))
  {
    hide Without, And, Or;
    var edge := Without(mask, mask << 2);
    AndWithout(i, mask, mask << 2);
    AndOr(i, edge, low);
    OrZero(And(i, edge));
  }

  lemma AndWithout(i: bv32, m: bv32, x: bv32)
    ensures Without(And(i, m), x) == And(i, Without(m, x))
  {
  }

  lemma AndOr(i: bv32, a: bv32, b: bv32)
    ensures And(i, Or(a, b)) == Or(And(i, a), And(i, b))
  {
  }

  /** Below the window there is nothing; so the test looks at pair k alone. */
  lemma WindowTest(i: bv32, k: nat)
    requires k < 16 && Clear(i, k)
    ensures Empty(i, Mask(k)) <==> Clear(i, k + 1)
  {
    hide Mask, Low, Empty, Edge, Disjoint;
    WindowEdge(k);
    EmptyEdge(i, Mask(k), Low(k));
  }

  /** The window and everything below it cover the next four pairs. */
  lemma WindowCovers(k: nat)
    requires k < 16
    ensures Without(Without(Low(if k + 4 <= 16 then k + 4 else 16), Mask(k)), Low(k)) == 0
  {
  }

  lemma TakenOut(i: bv32, mask: bv32, low: bv32, high: bv32)
    requires Disjoint(i, low) && Without(Without(high, mask), low) == 0
    ensures Disjoint(Without(i, And(i, mask)), high)
  {
  }

  /** Taking the window's bits out leaves nothing below the pair four above it. */
  lemma WindowRest(i: bv32, k: nat)
    requires k < 16 && Clear(i, k)
    ensures Clear(Without(i, Window(i, k)), if k + 4 <= 16 then k + 4 else 16)
  {
    hide Mask, Low, Without, And, Disjoint;
    WindowCovers(k);
    TakenOut(i, Mask(k), Low(k), Low(if k + 4 <= 16 then k + 4 else 16));
  }

  // -------------------------------------------------------- representable

  /** The lowest bit pair of i that is not empty, from pair k on. */
  function LowestPair(i: bv32, k: nat := 0): (r: nat)
    requires k < 16
    ensures k <= r < 16
    decreases 16 - k
  {
    if k == 15 || !Clear(i, k + 1) then k else LowestPair(i, k + 1)
  }

  lemma {:induction false} LowestPairIs(i: bv32, k: nat)
    requires k < 16 && i != 0 && Clear(i, k)
    ensures var r := LowestPair(i, k); Clear(i, r) && !Clear(i, r + 1)
    decreases 16 - k
  {
    ClearEnds(i);
    hide Clear;
    if k < 15 && Clear(i, k + 1) {
      LowestPairIs(i, k + 1);
    }
  }

  /** The bits of i in the eight-bit window that starts at its lowest bit pair. */
  function Chunk(i: bv32): bv32 {
    Window(i, LowestPair(i))
  }

  /** representable; on zero the original does not terminate. */
  method Representable(i: bv32) returns (r: bv32)
    requires i != 0
    ensures r == Chunk(i)
  {
    hide Clear, Mask, Low, RotateUp, Empty, And;
    var mask: bv32 := 255;
    ghost var k := 0;
    ClearEnds(i);
    FirstMask();
    while Empty(i, mask)
      invariant 0 <= k < 16 && mask == Mask(k)
      invariant Clear(i, k) && LowestPair(i) == LowestPair(i, k)
      decreases 16 - k
    {
      WindowTest(i, k);
      if k < 15 {
        MaskRotates(k);
      }
      mask := RotateUp(mask);
      k := k + 1;
    }
    WindowTest(i, k);
    r := And(i, mask);
  }

  /** The loop meets a mask that stops it if and only if the number is not zero. */
  lemma StopsExactly(i: bv32)
    ensures (exists k: nat :: k < 16 && !Empty(i, Mask(k))) <==> i != 0
  {
    ClearEnds(i);
    hide Mask, Low, Empty, Clear;
    if i != 0 {
      LowestPairIs(i, 0);
      WindowTest(i, LowestPair(i));
    } else {
      forall k: nat | k < 16 ensures Empty(i, Mask(k)) { EmptyZero(Mask(k)); }
    }
  }

  lemma EmptyZero(mask: bv32)
    ensures Empty(0, mask)
  {
    ZeroBits(mask, mask << 2);
    hide And, Without;
  }

  lemma ZeroBits(m: bv32, x: bv32)
    ensures And(0, m) == 0 && Without(0, x) == 0
  {
  }

  lemma FirstMask()
    ensures Mask(0) == 255
  {
  }

  // ------------------------------------------------- immediates and chunks

  lemma RotateBack(x: bv32, m: bv32)
    requires Without(x, RotateUp(m)) == 0
    ensures Without(RotateDown(x), m) == 0
  {
  }

  lemma UnderRotates(x: bv32, k: nat)
    requires 1 <= k < 16 && Under(x, k)
    ensures Under(RotateDown(x), k - 1)
  {
    hide Mask, RotateUp, RotateDown, Without;
    MaskRotates(k - 1);
    RotateBack(x, Mask(k - 1));
  }

  lemma UnderFirst(x: bv32)
    requires Under(x, 0)
    ensures x <= 255
  {
  }

  lemma {:induction false} WindowRotates(x: bv32, k: nat)
    requires k < 16 && Under(x, k)
    ensures RotatedRight(x, k) <= 255
    decreases k
  {
    if k == 0 {
      UnderFirst(x);
    } else {
      UnderRotates(x, k);
      hide RotateDown, Under;
      WindowRotates(RotateDown(x), k - 1);
    }
  }

  lemma {:induction false} RotationsAdd(x: bv32, a: nat, b: nat)
    ensures RotatedRight(RotatedRight(x, a), b) == RotatedRight(x, a + b)
    decreases a
  {
    hide RotateDown;
    if a > 0 {
      RotationsAdd(RotateDown(x), a - 1, b);
    }
  }

  function QuarterTurn(x: bv32): bv32 { (x >> 8) | (x << 24) }

  lemma QuarterTurnIs(x: bv32)
    ensures RotatedRight(x, 4) == QuarterTurn(x)
  {
    assert RotatedRight(x, 4) == RotateDown(RotateDown(RotateDown(RotateDown(x))));
  }

  lemma FourQuarters(x: bv32)
    ensures QuarterTurn(QuarterTurn(QuarterTurn(QuarterTurn(x)))) == x
  {
  }

  lemma FullTurn(x: bv32)
    ensures RotatedRight(x, 16) == x
  {
    FourQuarters(x);
    hide QuarterTurn, RotatedRight;
    var a := QuarterTurn(x);
    var b := QuarterTurn(a);
    var c := QuarterTurn(b);
    QuarterTurnIs(x);
    QuarterTurnIs(a);
    QuarterTurnIs(b);
    QuarterTurnIs(c);
    RotationsAdd(x, 4, 12);
    RotationsAdd(a, 4, 8);
    RotationsAdd(b, 4, 4);
  }

  /** What fits under a rotated eight-bit window is an immediate. */
  lemma WindowIsImmediate(x: bv32, k: nat)
    requires k < 16 && Under(x, k)
    ensures IsImmediate(x)
  {
    hide RotatedRight, Under;
    WindowRotates(x, k);
    if k == 0 {
      NoRotation(x);
      assert x <= 255 && x == RotatedRight(x, 0);
    } else {
      var imm8, rot: nat := RotatedRight(x, k), 16 - k;
      FullTurn(x);
      RotationsAdd(x, k, rot);
      assert imm8 <= 255 && rot < 16 && x == RotatedRight(imm8, rot);
    }
  }

  lemma NoRotation(x: bv32)
    ensures RotatedRight(x, 0) == x
  {
  }

  lemma ChunkParts(n: bv32)
    requires n != 0
    ensures var m := Chunk(n);
      && Under(m, LowestPair(n))
      && Without(m, n) == 0
      && Or(m, Without(n, m)) == n
  {
    hide Mask, LowestPair, Clear, And, Without, Or;
    MaskedParts(n, Mask(LowestPair(n)));
  }

  lemma MaskedParts(n: bv32, mask: bv32)
    ensures Without(And(n, mask), mask) == 0 && Without(And(n, mask), n) == 0
    ensures Or(And(n, mask), Without(n, And(n, mask))) == n
  {
  }

  /** Each extraction moves the lowest bit pair up by at least four. */
  lemma Climbs(n: bv32)
    requires n != 0 && Without(n, Chunk(n)) != 0
    ensures LowestPair(Without(n, Chunk(n))) >= LowestPair(n) + 4
  {
    hide Clear, Without, Window, LowestPair;
    var k := LowestPair(n);
    var rest := Without(n, Chunk(n));
    ClearEnds(n);
    LowestPairIs(n, 0);
    WindowRest(n, k);
    ClearEnds(rest);
    PairAbove(rest, 0, k + 4);
  }

  lemma {:induction false} PairAbove(i: bv32, k: nat, j: nat)
    requires k <= j < 16 && Clear(i, j)
    ensures LowestPair(i, k) >= j
    decreases j - k
  {
    hide Clear;
    if k < j {
      ClearContains(i, k + 1, j);
      PairAbove(i, k + 1, j);
    }
  }

  lemma {:induction false} ClearContains(i: bv32, k: nat, j: nat)
    requires k <= j <= 16 && Clear(i, j)
    ensures Clear(i, k)
    decreases j - k
  {
    if k < j {
      ClearNests(i, j);
      hide Clear;
      ClearContains(i, k, j - 1);
    }
  }

  /** The constants emitted for n: repeated extraction until nothing is left. */
  function Chunks(n: bv32): seq<bv32>
    requires n != 0
    decreases 16 - LowestPair(n)
  {
    if Without(n, Chunk(n)) == 0 then [Chunk(n)]
    else
      Climbs(n);
      [Chunk(n)] + Chunks(Without(n, Chunk(n)))
  }

  function OrAll(s: seq<bv32>): bv32 {
    if s == [] then 0 else Or(s[0], OrAll(s[1..]))
  }

  /** No bit outside n, and pairwise no common bit. */
  predicate Inside(s: seq<bv32>, n: bv32) {
    forall i :: 0 <= i < |s| ==> Without(s[i], n) == 0
  }

  predicate Apart(s: seq<bv32>) {
    forall i, j :: 0 <= i < j < |s| ==> Disjoint(s[i], s[j])
  }

  /** At most four immediates, no two of them with a common bit, together n. */
  lemma {:induction false} ChunksMeaning(n: bv32)
    requires n != 0
    ensures |Chunks(n)| <= (19 - LowestPair(n)) / 4 <= 4
    ensures OrAll(Chunks(n)) == n
    ensures forall i :: 0 <= i < |Chunks(n)| ==> IsImmediate(Chunks(n)[i])
    ensures Inside(Chunks(n), n) && Apart(Chunks(n))
    decreases 16 - LowestPair(n)
  {
    hide Without, Chunk, IsImmediate, LowestPair, Under, Inside, Apart, OrAll, Or;
    var m := Chunk(n);
    var rest := Without(n, m);
    ChunkParts(n);
    WindowIsImmediate(m, LowestPair(n));
    if rest == 0 {
      OrOne(m);
      NothingOut(n, m);
    } else {
      Climbs(n);
      ChunksMeaning(rest);
      var tail := Chunks(rest);
      OrMore(m, tail);
      PrependApart(m, tail, n);
    }
  }

  lemma OrOne(m: bv32)
    ensures OrAll([m]) == m
    ensures Inside([m], m) && Apart([m])
  {
    hide Or;
    assert OrAll([m]) == Or(m, OrAll([])) by { assert [m][1..] == []; }
    OrZero(m);
  }

  lemma OrZero(m: bv32)
    ensures Or(m, 0) == m && Without(m, m) == 0
  {
  }

  lemma NothingOut(n: bv32, m: bv32)
    requires Without(n, m) == 0 && Without(m, n) == 0
    ensures n == m
  {
  }

  lemma OrMore(m: bv32, tail: seq<bv32>)
    ensures OrAll([m] + tail) == Or(m, OrAll(tail))
  {
    hide Or;
    assert ([m] + tail)[1..] == tail;
  }

  lemma PrependApart(m: bv32, tail: seq<bv32>, n: bv32)
    requires Inside(tail, Without(n, m)) && Apart(tail) && Without(m, n) == 0
    ensures Inside([m] + tail, n) && Apart([m] + tail)
  {
    hide Without, Disjoint;
    var s := [m] + tail;
    forall i | 0 <= i < |tail| ensures Disjoint(m, tail[i]) && Without(tail[i], n) == 0 {
      PartOfRest(tail[i], n, m);
    }
    forall i, j | 0 <= i < j < |s| ensures Disjoint(s[i], s[j]) {
      assert s[j] == tail[j - 1];
      if i > 0 { assert s[i] == tail[i - 1]; }
    }
  }

  lemma PartOfRest(x: bv32, n: bv32, m: bv32)
    requires Without(x, Without(n, m)) == 0
    ensures Disjoint(m, x) && Without(x, n) == 0
  {
  }

  // ------------------------------------------------- one chunk is the number

  lemma WindowSlides(k: nat)
    requires k < 15
    ensures Without(Without(Mask(k), Low(k + 1)), Mask(k + 1)) == 0
  {
  }

  lemma Narrower(n: bv32, a: bv32, low: bv32, b: bv32)
    requires Without(n, a) == 0 && Disjoint(n, low) && Without(Without(a, low), b) == 0
    ensures Without(n, b) == 0
  {
  }

  /** A number under one window and empty below the next pair is under the next window. */
  lemma UnderSlides(n: bv32, k: nat)
    requires k < 15 && Under(n, k) && Clear(n, k + 1)
    ensures Under(n, k + 1)
  {
    hide Mask, Low, Without, Disjoint;
    WindowSlides(k);
    Narrower(n, Mask(k), Low(k + 1), Mask(k + 1));
  }

  lemma {:induction false} UnderLowest(n: bv32, k: nat)
    requires k < 16 && Under(n, k)
    ensures Under(n, LowestPair(n, k))
    decreases 16 - k
  {
    hide Under, Clear;
    if k < 15 && Clear(n, k + 1) {
      UnderSlides(n, k);
      UnderLowest(n, k + 1);
    }
  }

  lemma WindowAbove(k: nat)
    requires k <= 12
    ensures And(Mask(k), Low(k)) == 0
  {
  }

  lemma Avoids(n: bv32, mask: bv32, low: bv32)
    requires Without(n, mask) == 0 && And(mask, low) == 0
    ensures Disjoint(n, low)
  {
  }

  lemma {:induction false} SamePair(n: bv32, j: nat, k: nat)
    requires j <= k < 16 && Clear(n, k)
    ensures LowestPair(n, j) == LowestPair(n, k)
    decreases k - j
  {
    hide Clear;
    if j < k {
      ClearContains(n, j + 1, k);
      SamePair(n, j + 1, k);
    }
  }

  lemma MaskedIs(n: bv32, mask: bv32)
    ensures And(n, mask) == n <==> Without(n, mask) == 0
  {
  }

  lemma TopWindow(n: bv32)
    ensures Clear(n, 12) ==> Under(n, 12)
  {
  }

  /** One chunk holds the whole number exactly when its bits lie in eight
      neighbouring places that start at an even one. */
  lemma OneChunk(n: bv32)
    requires n != 0
    ensures Chunk(n) == n <==> exists k: nat :: k <= 12 && Under(n, k)
  {
    var p := LowestPair(n);
    ClearEnds(n);
    LowestPairIs(n, 0);
    MaskedIs(n, Mask(p));
    hide Mask, And, Without, Clear, LowestPair;
    if Chunk(n) == n {
      if p > 12 {
        ClearContains(n, 12, p);
        TopWindow(n);
      } else {
        assert Under(n, p);
      }
    }
    if k: nat :| k <= 12 && Under(n, k) {
      Starts(n, k);
      UnderLowest(n, k);
      SamePair(n, 0, k);
    }
  }

  lemma Starts(n: bv32, k: nat)
    requires k <= 12 && Under(n, k)
    ensures Clear(n, k)
  {
    hide Mask, Low, And, Without, Disjoint;
    WindowAbove(k);
    Avoids(n, Mask(k), Low(k));
  }
}
