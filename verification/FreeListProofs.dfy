/** Safety of the allocator over whole runs: free bytes, live bytes and lost
    bytes always partition the dynamic area. */
module FreeListProofs {
  import opened FreeListSpec

  function End(b: Block): int { b.addr + b.size }

  ghost predicate Holds(b: Block, x: int) { b.addr <= x < End(b) }

  ghost predicate IsFree(free: seq<Block>, x: int) {
    exists i :: 0 <= i < |free| && Holds(free[i], x)
  }

  /** Non-empty, ascending, disjoint blocks inside [lo, hi). */
  ghost predicate Ordered(free: seq<Block>, lo: int, hi: int) {
    && (forall i :: 0 <= i < |free| ==> lo <= free[i].addr && free[i].size > 0 && End(free[i]) <= hi)
    && (forall i, j :: 0 <= i < j < |free| ==> End(free[i]) <= free[j].addr)
  }

  ghost predicate Within(x: int, addr: int, len: int) { addr <= x < addr + len }

  ghost function Range(addr: int, len: int): set<int> {
    set x | addr <= x < addr + len && Within(x, addr, len)
  }

  /** The bytes handed out and not yet freed, and those in no list at all. */
  datatype State = State(area: Area, live: set<int>, lost: set<int>)

  ghost predicate Inside(a: Area, x: int) { !a.removed && a.base <= x < a.base + a.size }

  ghost predicate Partition(s: State) {
    && s.live !! s.lost
    && (forall x :: Inside(s.area, x) <==> IsFree(s.area.free, x) || x in s.live || x in s.lost)
    && (forall x :: IsFree(s.area.free, x) ==> x !in s.live && x !in s.lost)
  }

  ghost predicate Inv(s: State) {
    && (s.area.ready ==> 0 < s.area.base && s.area.size <= MAX_DA_SIZE && s.area.base + MAX_DA_SIZE < WORDS)
    && (!s.area.ready ==> s.area == Unused)
    && (s.area.removed ==> s.area.ready && s.area.free == [])
    && Ordered(s.area.free, s.area.base, s.area.base + s.area.size)
    && Partition(s)
  }

  const Start := State(Unused, {}, {})

  /** The least multiple of a page at or above n. */
  function RoundUp(n: int): (r: int)
    ensures n <= r < n + 0x1000 && r % 0x1000 == 0
  {
    (n + 0xfff) / 0x1000 * 0x1000
  }

  /** Where the rounding to pages does not wrap. */
  lemma PageUpRounds(n: word)
    ensures n <= 0xffff_f000 ==> PageUp(n) == RoundUp(n)
    ensures n > 0xffff_f000 ==> PageUp(n) == 0 && RoundUp(n) == WORDS
  {
  }

  // ------------------------------------------------------- list surgery

  lemma RemovedAt(free: seq<Block>, i: nat, k: nat)
    requires i < |free| && k + 1 < |free|
    ensures (free[..i] + free[i + 1..])[k] == if k < i then free[k] else free[k + 1]
  {
  }

  lemma RemoveKeepsOrder(free: seq<Block>, i: nat, lo: int, hi: int)
    requires Ordered(free, lo, hi) && i < |free|
    ensures Ordered(free[..i] + free[i + 1..], lo, hi)
  {
    var f := free[..i] + free[i + 1..];
    forall j, k | 0 <= j < k < |f| ensures End(f[j]) <= f[k].addr {
      RemovedAt(free, i, j);
      RemovedAt(free, i, k);
    }
    forall k | 0 <= k < |f| ensures lo <= f[k].addr && f[k].size > 0 && End(f[k]) <= hi {
      RemovedAt(free, i, k);
    }
  }

  lemma Disjoint(free: seq<Block>, i: nat, k: nat, x: int, lo: int, hi: int)
    requires Ordered(free, lo, hi) && i < |free| && k < |free| && i != k && Holds(free[k], x)
    ensures !Holds(free[i], x)
  {
    assert if k < i then End(free[k]) <= free[i].addr else End(free[i]) <= free[k].addr;
  }

  lemma RemoveFrees(free: seq<Block>, i: nat, x: int, lo: int, hi: int)
    requires Ordered(free, lo, hi) && i < |free|
    ensures IsFree(free[..i] + free[i + 1..], x) <==> IsFree(free, x) && !Holds(free[i], x)
  {
    hide Ordered, Holds;
    var f := free[..i] + free[i + 1..];
    if IsFree(f, x) {
      var k :| 0 <= k < |f| && Holds(f[k], x);
      RemovedAt(free, i, k);
      Disjoint(free, i, if k < i then k else k + 1, x, lo, hi);
    }
    if IsFree(free, x) && !Holds(free[i], x) {
      var k :| 0 <= k < |free| && Holds(free[k], x);
      RemovedAt(free, i, if k < i then k else k - 1);
    }
  }

  /** A block that fits between the neighbours of position i. */
  ghost predicate Fits(free: seq<Block>, i: nat, next: nat, b: Block, lo: int, hi: int) {
    && b.size > 0 && lo <= b.addr && End(b) <= hi
    && (0 < i <= |free| ==> End(free[i - 1]) <= b.addr)
    && (next < |free| ==> End(b) <= free[next].addr)
  }

  lemma ReplaceKeepsOrder(free: seq<Block>, i: nat, b: Block, lo: int, hi: int, hi': int)
    requires Ordered(free, lo, hi) && i < |free| && hi <= hi'
    requires Fits(free, i, i + 1, b, lo, hi')
    ensures Ordered(free[i := b], lo, hi')
  {
    var f := free[i := b];
    forall j, k | 0 <= j < k < |f| ensures End(f[j]) <= f[k].addr {
      if k == i {
        assert End(free[j]) <= free[i - 1].addr || j == i - 1;
        assert End(free[i - 1]) <= b.addr;
      } else if j == i {
        assert End(b) <= free[i + 1].addr;
        assert k == i + 1 || End(free[i + 1]) <= free[k].addr;
      }
    }
  }

  lemma ReplaceFrees(free: seq<Block>, i: nat, b: Block, x: int, lo: int, hi: int)
    requires Ordered(free, lo, hi) && i < |free|
    ensures IsFree(free[i := b], x) <==> Holds(b, x) || (IsFree(free, x) && !Holds(free[i], x))
  {
    var f := free[i := b];
    if Holds(b, x) {
      assert Holds(f[i], x);
    } else if IsFree(f, x) {
      var k :| 0 <= k < |f| && Holds(f[k], x);
      assert k != i && Holds(free[k], x);
      assert if k < i then End(free[k]) <= free[i].addr else End(free[i]) <= free[k].addr;
    }
    if IsFree(free, x) && !Holds(free[i], x) {
      var k :| 0 <= k < |free| && Holds(free[k], x);
      assert Holds(f[k], x);
    }
  }

  lemma InsertKeepsOrder(free: seq<Block>, i: nat, b: Block, lo: int, hi: int, hi': int)
    requires Ordered(free, lo, hi) && i <= |free| && hi <= hi'
    requires Fits(free, i, i, b, lo, hi')
    ensures Ordered(free[..i] + [b] + free[i..], lo, hi')
  {
    var f := free[..i] + [b] + free[i..];
    forall j, k | 0 <= j < k < |f| ensures End(f[j]) <= f[k].addr {
      InsertedAt(free, i, b, j);
      InsertedAt(free, i, b, k);
      if k == i {
        assert j == i - 1 || End(free[j]) <= free[i - 1].addr;
      } else if j == i {
        assert k == i + 1 || End(free[i]) <= free[k - 1].addr;
      }
    }
    forall k | 0 <= k < |f| ensures lo <= f[k].addr && f[k].size > 0 && End(f[k]) <= hi' {
      InsertedAt(free, i, b, k);
    }
  }

  lemma InsertedAt(free: seq<Block>, i: nat, b: Block, k: nat)
    requires i <= |free| && k <= |free|
    ensures (free[..i] + [b] + free[i..])[k] == if k < i then free[k] else if k == i then b else free[k - 1]
  {
  }

  lemma InsertFrees(free: seq<Block>, i: nat, b: Block, x: int)
    requires i <= |free|
    ensures IsFree(free[..i] + [b] + free[i..], x) <==> Holds(b, x) || IsFree(free, x)
  {
    var f := free[..i] + [b] + free[i..];
    assert f[i] == b;
    if IsFree(f, x) {
      var k :| 0 <= k < |f| && Holds(f[k], x);
      if k != i {
        assert f[k] == free[if k < i then k else k - 1];
      }
    }
    if Holds(b, x) {
      assert Holds(f[i], x);
    }
    if IsFree(free, x) {
      var k :| 0 <= k < |free| && Holds(free[k], x);
      assert f[if k < i then k else k + 1] == free[k];
    }
  }

  // ------------------------------------------------------------ allocation

  /** The bytes an extension of the area has added. */
  ghost function NewBytes(a: Area, a': Area): set<int> {
    Range(a.base + a.size, a'.size - a.size)
  }

  /** Taking [addr, addr + len) out of the free bytes makes it live. */
  lemma TakeFree(s: State, a': Area, addr: int, len: int)
    requires Inv(s) && s.area.ready && !s.area.removed && a' == s.area.(free := a'.free)
    requires Ordered(a'.free, a'.base, a'.base + a'.size)
    requires forall x :: Within(x, addr, len) ==> IsFree(s.area.free, x)
    requires forall x :: IsFree(a'.free, x) <==> IsFree(s.area.free, x) && !Within(x, addr, len)
    ensures Inv(State(a', s.live + Range(addr, len), s.lost))
    ensures s.live !! Range(addr, len)
  {
    var s' := State(a', s.live + Range(addr, len), s.lost);
    forall x ensures Inside(s'.area, x) <==> IsFree(s'.area.free, x) || x in s'.live || x in s'.lost {
      assert Inside(s'.area, x) <==> Inside(s.area, x);
    }
  }

  lemma ExactSafe(s: State, size: word, e: nat)
    requires Inv(s) && s.area.ready
    requires e < |s.area.free| && s.area.free[e].size == size
    ensures var b := s.area.free[e];
      && Inv(State(s.area.(free := s.area.free[..e] + s.area.free[e + 1..]), s.live + Range(b.addr, size), s.lost))
      && s.live !! Range(b.addr, size)
  {
    var b := s.area.free[e];
    var a := s.area;
    var f := a.free[..e] + a.free[e + 1..];
    RemoveKeepsOrder(a.free, e, a.base, a.base + a.size);
    forall x ensures IsFree(f, x) <==> IsFree(a.free, x) && !Within(x, b.addr, size) {
      RemoveFrees(a.free, e, x, a.base, a.base + a.size);
      assert Holds(b, x) == Within(x, b.addr, size);
    }
    forall x | Within(x, b.addr, size) ensures IsFree(a.free, x) {
      assert Holds(a.free[e], x);
    }
    TakeFree(s, a.(free := f), b.addr, size);
  }

  lemma FitSafe(s: State, size: word, f: nat)
    requires Inv(s) && s.area.ready
    requires f < |s.area.free| && s.area.free[f].size > size
    ensures var b := s.area.free[f];
      && Inv(State(s.area.(free := s.area.free[f := Block(Add(b.addr, size), Sub(b.size, size))]), s.live + Range(b.addr, size), s.lost))
      && s.live !! Range(b.addr, size)
  {
    var a := s.area;
    var b := a.free[f];
    var b' := Block(Add(b.addr, size), Sub(b.size, size));
    Bounds(s);
    AddIs(b.addr, size);
    SubIs(b.size, size);
    hide Add, Sub;
    assert b'.addr == b.addr + size && End(b') == End(b) && !a.removed;
    assert Ordered(a.free, a.base, a.base + a.size);
    assert Fits(a.free, f, f + 1, b', a.base, a.base + a.size);
    hide Inv, Ordered;
    ReplaceKeepsOrder(a.free, f, b', a.base, a.base + a.size, a.base + a.size);
    forall x ensures IsFree(a.free[f := b'], x) <==> IsFree(a.free, x) && !Within(x, b.addr, size)
             ensures Within(x, b.addr, size) ==> IsFree(a.free, x)
    {
      assert Holds(b, x) <==> Holds(b', x) || Within(x, b.addr, size);
      assert Holds(b', x) ==> !Within(x, b.addr, size);
      assert Holds(b, x) ==> IsFree(a.free, x);
      hide Holds, Within, IsFree;
      ReplaceFrees(a.free, f, b', x, a.base, a.base + a.size);
    }
    TakeFree(s, a.(free := a.free[f := b']), b.addr, size);
  }

  /** An extension first makes the last free block longer ... */
  lemma TailGrows(s: State, inc: word)
    requires Inv(s) && s.area.ready && FreeAtEnd(s.area) && s.area.size + inc <= MAX_DA_SIZE
    ensures var a := s.area; var i := |a.free| - 1; var last := a.free[i];
      last.size + inc < WORDS && Inv(s.(area := a.(size := a.size + inc, free := a.free[i := Block(last.addr, last.size + inc)])))
  {
    hide *;
    TailEnds(s);
    var a := s.area;
    var i := |a.free| - 1;
    var last := a.free[i];
    var hi := a.base + a.size;
    assert last.size + inc < WORDS && a.size + inc < WORDS;
    var b := Block(last.addr, last.size + inc);
    var free := a.free[i := b];
    LongerTail(a.free, a.base, hi, inc);
    assert a.base + (a.size + inc) == hi + inc;
    Extended(s, a.(size := a.size + inc, free := free), inc);
  }

  lemma LongerTail(free: seq<Block>, lo: int, hi: int, inc: word)
    requires Ordered(free, lo, hi) && free != [] && free[|free| - 1].size + inc < WORDS
    requires End(free[|free| - 1]) == hi
    ensures var i := |free| - 1; var f := free[i := Block(free[i].addr, free[i].size + inc)];
      && Ordered(f, lo, hi + inc)
      && forall x :: IsFree(f, x) <==> IsFree(free, x) || Within(x, hi, inc)
  {
    hide Ordered, IsFree, Holds, Within, Fits, End;
    var i := |free| - 1;
    var b := Block(free[i].addr, free[i].size + inc);
    LastFits(free, lo, hi, inc);
    ReplaceKeepsOrder(free, i, b, lo, hi, hi + inc);
    forall x ensures IsFree(free[i := b], x) <==> IsFree(free, x) || Within(x, hi, inc) {
      LastFrees(free, x, lo, hi, inc);
    }
  }

  /** What a free tail means without the 32-bit arithmetic. */
  lemma TailEnds(s: State)
    requires Inv(s) && s.area.ready && FreeAtEnd(s.area)
    ensures var a := s.area;
      && a.free != [] && End(a.free[|a.free| - 1]) == a.base + a.size
      && a.base + a.free[|a.free| - 1].size <= a.base + a.size <= a.base + MAX_DA_SIZE
      && Ordered(a.free, a.base, a.base + a.size) && !a.removed && a.base + MAX_DA_SIZE < WORDS && 0 < a.base
  {
    var a := s.area;
    Bounds(s);
    AddIs(a.base, a.size);
    AddIs(a.free[|a.free| - 1].addr, a.free[|a.free| - 1].size);
    hide Add, Ordered, Partition;
  }

  lemma LastFrees(free: seq<Block>, x: int, lo: int, hi: int, inc: word)
    requires Ordered(free, lo, hi) && free != [] && free[|free| - 1].size + inc < WORDS
    requires End(free[|free| - 1]) == hi
    ensures var i := |free| - 1; var last := free[i];
      IsFree(free[i := Block(last.addr, last.size + inc)], x) <==> IsFree(free, x) || Within(x, hi, inc)
  {
    var i := |free| - 1;
    var last := free[i];
    assert Holds(Block(last.addr, last.size + inc), x) <==> Holds(last, x) || Within(x, hi, inc);
    assert Holds(last, x) ==> IsFree(free, x);
    hide Ordered, IsFree, Holds, Within;
    ReplaceFrees(free, i, Block(last.addr, last.size + inc), x, lo, hi);
  }

  lemma LastFits(free: seq<Block>, lo: int, hi: int, inc: word)
    requires Ordered(free, lo, hi) && free != [] && free[|free| - 1].size + inc < WORDS
    requires End(free[|free| - 1]) == hi
    ensures var last := free[|free| - 1];
      Fits(free, |free| - 1, |free|, Block(last.addr, last.size + inc), lo, hi + inc)
  {
  }

  /** ... or adds a free block behind the old end of the area. */
  lemma BlockAppears(s: State, inc: word)
    requires Inv(s) && s.area.ready && !s.area.removed && inc > 0 && s.area.size + inc <= MAX_DA_SIZE
    ensures var a := s.area;
      Inv(s.(area := a.(size := a.size + inc, free := a.free + [Block(a.base + a.size, inc)])))
  {
    hide *;
    Facts(s);
    var a := s.area;
    var hi := a.base + a.size;
    LongerList(a.free, a.base, hi, inc);
    assert a.base + (a.size + inc) == hi + inc;
    Extended(s, a.(size := a.size + inc, free := a.free + [Block(hi, inc)]), inc);
  }

  lemma Facts(s: State)
    requires Inv(s) && s.area.ready
    ensures 0 < s.area.base && s.area.size <= MAX_DA_SIZE && s.area.base + MAX_DA_SIZE < WORDS
    ensures Ordered(s.area.free, s.area.base, s.area.base + s.area.size)
  {
  }

  lemma LongerList(free: seq<Block>, lo: int, hi: word, inc: word)
    requires Ordered(free, lo, hi) && lo <= hi && inc > 0
    ensures var f := free + [Block(hi, inc)];
      && Ordered(f, lo, hi + inc)
      && forall x :: IsFree(f, x) <==> IsFree(free, x) || Within(x, hi, inc)
  {
    var n, b := |free|, Block(hi, inc);
    assert Fits(free, n, n, b, lo, hi + inc);
    assert free + [b] == free[..n] + [b] + free[n..];
    assert forall x :: Holds(b, x) <==> Within(x, hi, inc);
    hide Ordered, IsFree, Holds, Within, Fits;
    InsertKeepsOrder(free, n, b, lo, hi, hi + inc);
    forall x ensures IsFree(free + [b], x) <==> IsFree(free, x) || Within(x, hi, inc) {
      InsertFrees(free, n, b, x);
    }
  }

  lemma Extended(s: State, a': Area, inc: word)
    requires Inv(s) && s.area.ready && !s.area.removed && s.area.size + inc <= MAX_DA_SIZE
    requires a' == s.area.(size := s.area.size + inc, free := a'.free)
    requires Ordered(a'.free, a'.base, a'.base + a'.size)
    requires forall x :: IsFree(a'.free, x) <==> IsFree(s.area.free, x) || Within(x, s.area.base + s.area.size, inc)
    ensures Inv(s.(area := a'))
  {
    var s' := s.(area := a');
    forall x ensures Inside(a', x) <==> IsFree(a'.free, x) || x in s.live || x in s.lost {
      assert Inside(a', x) <==> Inside(s.area, x) || Within(x, s.area.base + s.area.size, inc);
    }
    forall x | IsFree(a'.free, x) ensures x !in s.live && x !in s.lost {
      assert !Inside(s.area, x) ==> x !in s.live && x !in s.lost;
      assert Within(x, s.area.base + s.area.size, inc) ==> !Inside(s.area, x);
    }
  }

  /** Without a list node for the remainder, the added pages are in no list. */
  lemma PagesLost(s: State, inc: word)
    requires Inv(s) && s.area.ready && !s.area.removed && s.area.size + inc <= MAX_DA_SIZE
    ensures var a' := s.area.(size := s.area.size + inc);
      Inv(State(a', s.live, s.lost + NewBytes(s.area, a')))
  {
    var a, a' := s.area, s.area.(size := s.area.size + inc);
    var s' := State(a', s.live, s.lost + NewBytes(a, a'));
    forall x ensures Inside(a', x) <==> IsFree(a'.free, x) || x in s'.live || x in s'.lost {
      assert Inside(a', x) <==> Inside(a, x) || Within(x, a.base + a.size, inc);
    }
    forall x | Within(x, a.base + a.size, inc) ensures !Inside(a, x) {}
    assert s'.live !! s'.lost by {
      forall x | x in s'.live ensures x !in NewBytes(a, a') {
        assert Inside(a, x);
      }
    }
    assert Ordered(a'.free, a'.base, a'.base + a'.size);
  }

  /** The free bytes at the end of the area that a growing request can use. */
  function Tail(a: Area): int {
    if FreeAtEnd(a) then a.free[|a.free| - 1].size else 0
  }

  /** The size that the area has to grow to is a 32-bit number. */
  predicate Representable(a: Area, size: word) {
    RoundUp(size - Tail(a)) + a.size < WORDS
  }

  /** What decides a request's fate, before the call: it is representable, there
      is no area that could change, or the rounding wraps to nothing where a
      list node is needed and cannot be had. */
  predicate Harmless(a: Area, size: word, env: Env) {
    || Representable(a, size)
    || !a.ready || a.removed || !env.granted
    || (size > 0xffff_f000 && !FreeAtEnd(a) && !env.room)
  }

  /** A representable change is a growth. */
  lemma ChangeIsGrowth(a: Area, amount: word, env: Env)
    requires a.size + amount < WORDS && Obeys(env, a.removed, a.size, amount)
    ensures a.size + amount <= MAX_DA_SIZE && Add(a.size, amount) == a.size + amount && !a.removed
  {
  }

  /** The state a call leaves: the block is live, or the added bytes are lost. */
  ghost function Outcome(s: State, a': Area, ptr: word, size: word): State {
    if ptr == 0 then State(a', s.live, s.lost + NewBytes(s.area, a'))
    else State(a', s.live + Range(ptr, size), s.lost)
  }

  ghost function AfterGrow(s: State, size: word, env: Env): State {
    var (a', ptr) := Grow(s.area, size, env);
    Outcome(s, a', ptr, size)
  }

  lemma NothingDone(s: State)
    requires s.area.ready
    ensures State(s.area, s.live, s.lost + NewBytes(s.area, s.area)) == s
  {
  }

  lemma EmptyRange(s: State, addr: int)
    ensures State(s.area, s.live + Range(addr, 0), s.lost) == s && s.live !! Range(addr, 0)
  {
  }

  /** The arithmetic facts that the invariant gives about a ready area. */
  lemma Bounds(s: State)
    requires Inv(s) && s.area.ready
    ensures 0 < s.area.base && s.area.size <= MAX_DA_SIZE && s.area.base + MAX_DA_SIZE < WORDS
    ensures forall k :: 0 <= k < |s.area.free| ==>
      s.area.base <= s.area.free[k].addr && s.area.free[k].size > 0 && End(s.area.free[k]) <= s.area.base + s.area.size
  {
  }

  lemma AtEnd(a: Area)
    requires FreeAtEnd(a)
    ensures |a.free| > 0 && Tail(a) == a.free[|a.free| - 1].size
  {
  }

  lemma TailArithmetic(have: word, inc: word, size: word)
    requires have < size <= have + inc < WORDS
    ensures Sub(Add(have, inc), size) == Add(have, Sub(inc, size)) == Sub(have + inc, size) == have + inc - size
  {
  }

  lemma AddIs(a: word, b: word)
    requires a + b < WORDS
    ensures Add(a, b) == a + b
  {
  }

  lemma SubIs(a: word, b: word)
    requires b <= a
    ensures Sub(a, b) == a - b
  {
  }

  lemma GrowTailSafe(s: State, size: word, env: Env)
    requires Inv(s) && s.area.ready && FreeAtEnd(s.area)
    requires forall k :: 0 <= k < |s.area.free| ==> s.area.free[k].size < size
    requires Representable(s.area, size)
    ensures Inv(AfterGrow(s, size, env))
    ensures Grow(s.area, size, env).1 != 0 ==> s.live !! Range(Grow(s.area, size, env).1, size)
  {
    hide Inv, Add, Sub, PageUp, FreeAtEnd;
    Bounds(s);
    AtEnd(s.area);
    var a := s.area;
    var i := |a.free| - 1;
    var last := a.free[i];
    SubIs(size, last.size);
    var inc := PageUp(Sub(size, last.size));
    PageUpRounds(Sub(size, last.size));
    if Obeys(env, a.removed, a.size, inc) {
      ChangeIsGrowth(a, inc, env);
      TailGrows(s, inc);
      TailArithmetic(last.size, inc, size);
      var b := Block(last.addr, last.size + inc);
      var s1 := s.(area := a.(size := a.size + inc, free := a.free[i := b]));
      if last.size + inc == size {
        ExactSafe(s1, size, i);
        assert s1.area.free[..i] + s1.area.free[i + 1..] == a.free[..i];
      } else {
        FitSafe(s1, size, i);
        assert a.free[i := b][i := Block(Add(b.addr, size), Sub(b.size, size))]
            == a.free[i := Block(Add(b.addr, size), Sub(b.size, size))];
      }
    } else {
      NothingDone(s);
    }
  }

  lemma GrowNewSafe(s: State, size: word, env: Env)
    requires Inv(s) && s.area.ready && !FreeAtEnd(s.area)
    requires Representable(s.area, size)
    ensures Inv(AfterGrow(s, size, env))
    ensures Grow(s.area, size, env).1 != 0 ==> s.live !! Range(Grow(s.area, size, env).1, size)
  {
    hide Inv, Add, Sub, PageUp, FreeAtEnd;
    Bounds(s);
    var a := s.area;
    var n := |a.free|;
    var inc := PageUp(size);
    PageUpRounds(size);
    SubIs(inc, size);
    AddIs(a.base, a.size);
    if Obeys(env, a.removed, a.size, inc) {
      ChangeIsGrowth(a, inc, env);
    }
    if !Obeys(env, a.removed, a.size, inc) {
      NothingDone(s);
    } else if inc == 0 {
      NothingDone(s);
      EmptyRange(s, Add(a.base, a.size));
    } else if Sub(inc, size) != 0 && !env.room {
      PagesLost(s, inc);
    } else {
      BlockAppears(s, inc);
      var b := Block(a.base + a.size, inc);
      var s1 := s.(area := a.(size := a.size + inc, free := a.free + [b]));
      if inc == size {
        ExactSafe(s1, size, n);
        assert s1.area.free[..n] + s1.area.free[n + 1..] == a.free;
      } else {
        FitSafe(s1, size, n);
        assert (a.free + [b])[n := Block(Add(b.addr, size), Sub(b.size, size))]
            == a.free + [Block(Add(b.addr, size), Sub(b.size, size))];
      }
    }
  }

  /** The area a request works on: created first if this is the first call. */
  function Prepared(a: Area, env: Env): Area {
    if a.ready then a else Init(a, env).0
  }

  ghost function AfterInit(s: State, env: Env): State {
    if s.area.ready then s else s.(area := Init(s.area, env).0)
  }

  ghost function AfterAlloc(s: State, size: word, env: Env): State {
    var s1 := AfterInit(s, env);
    var (a', ptr) := Alloc(s.area, size, env);
    if s.area.ready || Init(s.area, env).1 then Outcome(s1, a', ptr, size) else s1
  }

  lemma InitSafe(s: State, env: Env)
    requires Inv(s) && Sane(env)
    ensures Inv(AfterInit(s, env)) && AfterInit(s, env).area == Prepared(s.area, env)
    ensures AfterInit(s, env).lost == s.lost && AfterInit(s, env).live == s.live
  {
    if !s.area.ready && env.created.Some? {
      var a := Init(s.area, env).0;
      assert forall x :: !IsFree(s.area.free, x);
      forall x ensures x !in s.live && x !in s.lost { assert !Inside(s.area, x); }
      forall x ensures IsFree(a.free, x) <==> Inside(a, x) {
        if env.room {
          assert a.free == [Block(a.base, INIT_DA_SIZE)];
          assert Holds(a.free[0], x) <==> Inside(a, x);
        }
      }
    }
  }

  /** A granted request that is not representable does not make the area larger. */
  lemma NotLarger(a: Area, size: word, env: Env)
    requires a.size <= MAX_DA_SIZE && !Representable(a, size) && 0 <= Tail(a) <= a.size
    ensures size > 0x8000_0000
    ensures var inc := PageUp(size - Tail(a));
      && (env.granted && !a.removed ==> Obeys(env, a.removed, a.size, inc))
      && Add(a.size, inc) <= a.size
      && (inc == 0 <==> size - Tail(a) > 0xffff_f000) && (inc == 0 ==> Add(a.size, inc) == a.size)
      && (inc != 0 ==> Add(a.size, inc) < a.size)
  {
    PageUpRounds(size - Tail(a));
    hide PageUp;
  }

  /** With a free tail, a block that runs past the end of the area is handed out. */
  lemma WrappedTail(s: State, size: word, env: Env)
    requires Inv(s) && s.area.ready && FreeAtEnd(s.area) && !Representable(s.area, size)
    ensures env.granted ==> !Inv(AfterGrow(s, size, env))
    ensures !env.granted ==> Inv(AfterGrow(s, size, env))
  {
    var a := s.area;
    var hi := a.base + a.size;
    Bounds(s);
    AtEnd(a);
    NothingDone(s);
    NotLarger(a, size, env);
    SubIs(size, Tail(a));
    hide PageUp, Representable, Ordered, Add, FreeAtEnd, RoundUp, Sub;
    if env.granted {
      var (a', ptr) := Grow(a, size, env);
      assert a'.base + a'.size <= hi && ptr == a.free[|a.free| - 1].addr;
      OutOfBounds(AfterGrow(s, size, env), ptr, size, hi);
    }
  }

  lemma OutOfBounds(s: State, ptr: int, size: int, x: int)
    requires Range(ptr, size) <= s.live && ptr <= x < ptr + size && s.area.base + s.area.size <= x
    ensures !Inv(s)
  {
    assert Within(x, ptr, size) && !Inside(s.area, x);
    assert x in Range(ptr, size);
  }

  /** Without one, the same; or, for want of a list node, nothing is handed out
      and the area may have lost pages that are in use. */
  lemma WrappedNew(s: State, size: word, env: Env)
    requires Inv(s) && s.area.ready && !FreeAtEnd(s.area) && !s.area.removed && !Representable(s.area, size)
    ensures Inv(AfterGrow(s, size, env)) <==> !env.granted || (size > 0xffff_f000 && !env.room)
  {
    var a := s.area;
    var hi := a.base + a.size;
    var inc := PageUp(size);
    Bounds(s);
    NothingDone(s);
    NotLarger(a, size, env);
    AddIs(a.base, a.size);
    assert inc == 0 ==> Sub(inc, size) != 0;
    if env.granted {
      if a.size > 0 {
        LastByteUsed(s);
      }
      hide PageUp, Representable, Ordered, Add, FreeAtEnd, RoundUp, Sub, Inv;
      var (a', ptr) := Grow(a, size, env);
      var s' := AfterGrow(s, size, env);
      assert a'.size == Add(a.size, inc) <= a.size && a'.base == a.base;
      if ptr != 0 {
        OutOfBounds(s', ptr, size, hi);
      } else if inc != 0 {
        Truncated(s', hi - 1);
      }
    }
  }

  lemma Truncated(s: State, x: int)
    requires x in s.live || x in s.lost
    requires s.area.base + s.area.size <= x
    ensures !Inv(s)
  {
    assert !Inside(s.area, x);
  }

  /** Without a free tail the last byte of the area is in use. */
  lemma LastByteUsed(s: State)
    requires Inv(s) && s.area.ready && !s.area.removed && !FreeAtEnd(s.area) && s.area.size > 0
    ensures var x := s.area.base + s.area.size - 1; x in s.live || x in s.lost
  {
    var x := s.area.base + s.area.size - 1;
    assert Inside(s.area, x);
    LastFreeIsTail(s);
  }

  lemma OrderedEnds(free: seq<Block>, lo: int, hi: int, k: nat)
    requires Ordered(free, lo, hi) && k < |free|
    ensures End(free[|free| - 1]) <= hi && (k == |free| - 1 || End(free[k]) < End(free[|free| - 1]))
  {
  }

  lemma LastFreeIsTail(s: State)
    requires Inv(s) && s.area.ready
    ensures IsFree(s.area.free, s.area.base + s.area.size - 1) ==> FreeAtEnd(s.area)
  {
    var a := s.area;
    var x := a.base + a.size - 1;
    if IsFree(a.free, x) {
      var k :| 0 <= k < |a.free| && Holds(a.free[k], x);
      OrderedEnds(a.free, a.base, a.base + a.size, k);
      AddIs(a.base, a.size);
      AddIs(a.free[k].addr, a.free[k].size);
    }
  }

  /** A request that fits a free block is representable. */
  lemma ListedIsRepresentable(s: State, size: word, k: nat)
    requires Inv(s) && s.area.ready && k < |s.area.free| && size <= s.area.free[k].size
    ensures Representable(s.area, size)
  {
    Bounds(s);
    assert Tail(s.area) >= 0;
  }

  lemma RemovedRefuses(s: State, size: word, env: Env)
    requires Inv(s) && s.area.removed
    ensures Alloc(s.area, size, env) == (s.area, 0)
  {
    assert s.area.free == [];
  }

  lemma AllocIs(a: Area, size: word, env: Env)
    requires a.ready
    ensures var e, f := FindExact(a.free, size), FindFit(a.free, size);
      Alloc(a, size, env)
      == if e < |a.free| then (a.(free := a.free[..e] + a.free[e + 1..]), a.free[e].addr)
         else if f < |a.free| then
           (a.(free := a.free[f := Block(Add(a.free[f].addr, size), Sub(a.free[f].size, size))]), a.free[f].addr)
         else Grow(a, size, env)
  {
    hide FindExact, FindFit, Grow, Add, Sub;
  }

  /** A request that the list can serve. */
  lemma ListedSafe(s: State, size: word, env: Env)
    requires Inv(s) && s.area.ready && FindFit(s.area.free, size) < |s.area.free|
    ensures var (a', ptr) := Alloc(s.area, size, env);
      && Inv(Outcome(s, a', ptr, size)) && s.live !! Range(ptr, size) && Representable(s.area, size)
  {
    hide *;
    Bounds(s);
    var a := s.area;
    var e, f := FindExact(a.free, size), FindFit(a.free, size);
    Found(a.free, size);
    AllocIs(a, size, env);
    ListedIsRepresentable(s, size, f);
    if e < |a.free| {
      ExactSafe(s, size, e);
      OutcomeIs(s, a.(free := a.free[..e] + a.free[e + 1..]), a.free[e].addr, size);
    } else {
      FitSafe(s, size, f);
      OutcomeIs(s, a.(free := a.free[f := Block(Add(a.free[f].addr, size), Sub(a.free[f].size, size))]), a.free[f].addr, size);
    }
  }

  lemma Found(free: seq<Block>, size: word)
    ensures var e, f := FindExact(free, size), FindFit(free, size);
      && (e < |free| ==> free[e].size == size)
      && (f < |free| ==> free[f].size >= size && (e == |free| ==> free[f].size > size))
      && e <= |free| && f <= |free|
  {
  }

  lemma OutcomeIs(s: State, a': Area, ptr: word, size: word)
    requires ptr != 0
    ensures Outcome(s, a', ptr, size) == State(a', s.live + Range(ptr, size), s.lost)
  {
  }

  lemma AllocReadySafe(s: State, size: word, env: Env)
    requires Inv(s) && s.area.ready
    ensures var (a', ptr) := Alloc(s.area, size, env);
      && (Inv(Outcome(s, a', ptr, size)) <==> Harmless(s.area, size, env))
      && (ptr != 0 && Harmless(s.area, size, env) ==> s.live !! Range(ptr, size))
  {
    hide Inv, Alloc, Representable, FindExact, FindFit, Grow, FreeAtEnd, Outcome, Range;
    var a := s.area;
    if FindFit(a.free, size) < |a.free| {
      ListedSafe(s, size, env);
    } else if a.removed {
      RemovedRefuses(s, size, env);
      Unchanged(s, size);
    } else {
      AllocIs(a, size, env);
      GrowSafe(s, size, env);
    }
  }

  lemma Unchanged(s: State, size: word)
    requires s.area.ready
    ensures Outcome(s, s.area, 0, size) == s
  {
    NothingDone(s);
  }

  lemma GrowSafe(s: State, size: word, env: Env)
    requires Inv(s) && s.area.ready && !s.area.removed
    requires forall k :: 0 <= k < |s.area.free| ==> s.area.free[k].size < size
    ensures Inv(AfterGrow(s, size, env)) <==> Harmless(s.area, size, env)
    ensures var ptr := Grow(s.area, size, env).1; ptr != 0 && Harmless(s.area, size, env) ==> s.live !! Range(ptr, size)
  {
    hide Inv, Grow, Representable, FreeAtEnd, AfterGrow;
    if !Representable(s.area, size) {
      RefusedOrWrapped(s, size, env);
    }
    if Representable(s.area, size) {
      if FreeAtEnd(s.area) { GrowTailSafe(s, size, env); } else { GrowNewSafe(s, size, env); }
    } else if FreeAtEnd(s.area) {
      WrappedTail(s, size, env);
    } else {
      WrappedNew(s, size, env);
    }
  }

  lemma RefusedOrWrapped(s: State, size: word, env: Env)
    requires Inv(s) && s.area.ready && !Representable(s.area, size)
    ensures Harmless(s.area, size, env) ==> Grow(s.area, size, env).1 == 0
  {
    Bounds(s);
    NotLarger(s.area, size, env);
    if FreeAtEnd(s.area) {
      SubIs(size, Tail(s.area));
    }
    AddIs(s.area.base, s.area.size);
    hide PageUp, Representable, Inv, Add, Sub;
  }

  /** One allocation, exactly: the partition survives if and only if the request
      was harmless, and then the block handed out overlaps no live byte. */
  lemma AllocSafe(s: State, size: word, env: Env)
    requires Inv(s) && Sane(env)
    ensures Inv(AfterAlloc(s, size, env)) <==> Harmless(Prepared(s.area, env), size, env)
    ensures var ptr := Alloc(s.area, size, env).1;
      ptr != 0 && Harmless(Prepared(s.area, env), size, env) ==> s.live !! Range(ptr, size)
  {
    hide Inv, Grow, FindExact, FindFit, Representable, FreeAtEnd;
    InitSafe(s, env);
    var s1 := AfterInit(s, env);
    if s.area.ready || Init(s.area, env).1 {
      assert s1.area.ready;
      assert Alloc(s.area, size, env) == Alloc(s1.area, size, env);
      AllocReadySafe(s1, size, env);
    }
  }

  /** The requests that lose pages: nothing on the list fits, fresh pages are
      granted, something of them is left over, and no list node can be had. */
  predicate Loses(a: Area, size: word, env: Env) {
    && a.ready && FindFit(a.free, size) == |a.free| && !FreeAtEnd(a)
    && 0 < PageUp(size) < 0x8000_0000 && Obeys(env, a.removed, a.size, PageUp(size))
    && !env.room && size % 0x1000 != 0
  }

  /** Exactly when bytes are lost, and which. */
  lemma Losses(s: State, size: word, env: Env)
    requires Inv(s) && Sane(env)
    ensures var a := Prepared(s.area, env);
      && AfterAlloc(s, size, env).lost == (if Loses(a, size, env) then s.lost + Range(a.base + a.size, PageUp(size)) else s.lost)
      && (Loses(a, size, env) ==> Alloc(s.area, size, env).1 == 0)
      && (Loses(a, size, env) <==> AfterAlloc(s, size, env).lost != s.lost)
  {
    InitSafe(s, env);
    var s1 := AfterInit(s, env);
    var a := s1.area;
    hide Inv, Grow, FindExact, FindFit, Obeys;
    if s.area.ready || Init(s.area, env).1 {
      assert Alloc(s.area, size, env) == Alloc(a, size, env);
      LossesReady(s1, size, env);
    } else {
      RemovedLosesNothing(a, size, env);
    }
    if Loses(a, size, env) {
      NewBytesAreNew(s1, PageUp(size));
    }
  }

  lemma RemovedLosesNothing(a: Area, size: word, env: Env)
    requires !a.ready || a.removed
    ensures !Loses(a, size, env)
  {
  }

  lemma NewBytesAreNew(s: State, inc: word)
    requires Inv(s) && inc > 0
    ensures var x := s.area.base + s.area.size; x in Range(x, inc) && x !in s.lost
  {
    var x := s.area.base + s.area.size;
    assert Within(x, x, inc) && !Inside(s.area, x);
  }

  lemma LossesReady(s: State, size: word, env: Env)
    requires Inv(s) && s.area.ready
    ensures var (a', ptr) := Alloc(s.area, size, env);
      && Outcome(s, a', ptr, size).lost
         == (if Loses(s.area, size, env) then s.lost + Range(s.area.base + s.area.size, PageUp(size)) else s.lost)
      && (Loses(s.area, size, env) ==> ptr == 0)
  {
    Bounds(s);
    var a := s.area;
    var e, f := FindExact(a.free, size), FindFit(a.free, size);
    NothingDone(s);
    if e < |a.free| {
      assert f <= e;
    }
    hide Inv, FindExact, FindFit;
    if f == |a.free| {
      assert Alloc(a, size, env) == Grow(a, size, env);
      GrowLosses(s, size, env);
    }
  }

  lemma GrowLosses(s: State, size: word, env: Env)
    requires Inv(s) && s.area.ready && FindFit(s.area.free, size) == |s.area.free|
    ensures var (a', ptr) := Grow(s.area, size, env);
      && Outcome(s, a', ptr, size).lost
         == (if Loses(s.area, size, env) then s.lost + Range(s.area.base + s.area.size, PageUp(size)) else s.lost)
      && (Loses(s.area, size, env) ==> ptr == 0)
  {
    Bounds(s);
    var a := s.area;
    NothingDone(s);
    AddIs(a.base, a.size);
    Remainder(size);
    hide Inv, FindFit, PageUp, FreeAtEnd, Sub;
    if !FreeAtEnd(a) && !env.room && Obeys(env, a.removed, a.size, PageUp(size)) {
      var inc := PageUp(size);
      if inc < 0x8000_0000 {
        AddIs(a.size, inc);
      } else {
        assert Add(a.size, inc) < a.size;
      }
    }
  }

  lemma Remainder(size: word)
    ensures PageUp(size) > 0 ==> (Sub(PageUp(size), size) == 0 <==> size % 0x1000 == 0)
    ensures PageUp(size) == 0 && size != 0 ==> Sub(PageUp(size), size) != 0
  {
    PageUpRounds(size);
  }

  /** NULL means that nothing on the list was large enough, and with a node at
      hand no byte is lost by it. */
  lemma NullMeansFull(s: State, size: word, env: Env)
    requires Inv(s) && s.area.ready && Alloc(s.area, size, env).1 == 0
    ensures forall k :: 0 <= k < |s.area.free| ==> s.area.free[k].size < size
    ensures env.room ==> AfterAlloc(s, size, env).lost == s.lost
  {
    Bounds(s);
    LossesReady(s, size, env);
    hide Inv, Grow, Outcome;
    var e, f := FindExact(s.area.free, size), FindFit(s.area.free, size);
  }

  /** A removed area never comes back: every later request gets NULL. */
  lemma {:induction false} RemovedForever(s: State, calls: seq<Call>)
    requires Inv(s) && s.area.removed && AllowedRun(s, calls)
    ensures RunFrom(s, calls) == s
    ensures forall k :: 0 <= k < |calls| && calls[k].op.AllocOp? ==> Alloc(s.area, calls[k].op.size, calls[k].env).1 == 0
    decreases |calls|
  {
    if calls != [] {
      var c := calls[0];
      NothingLive(s);
      if c.op.AllocOp? {
        RemovedRefuses(s, c.op.size, c.env);
        NothingDone(s);
      }
      assert After(s, c) == s;
      hide After;
      RemovedForever(s, calls[1..]);
      forall k | 0 <= k < |calls| && calls[k].op.AllocOp? ensures Alloc(s.area, calls[k].op.size, calls[k].env).1 == 0 {
        RemovedRefuses(s, calls[k].op.size, calls[k].env);
      }
    }
  }

  lemma NothingLive(s: State)
    requires Inv(s) && s.area.removed
    ensures forall addr: word, len: word :: !Refused(s.area, addr, len) ==> !(Range(addr, len) <= s.live)
  {
    forall addr: word, len: word | !Refused(s.area, addr, len) ensures !(Range(addr, len) <= s.live) {
      assert Within(addr, addr, len) && !Inside(s.area, addr);
      assert addr in Range(addr, len);
    }
  }

  /** Exactly when a request that no listed block can serve succeeds, what it gets
      and how far the area grows for it. */
  lemma GrowthSucceeds(s: State, size: word, env: Env)
    requires Inv(s) && s.area.ready && Representable(s.area, size)
    requires forall k :: 0 <= k < |s.area.free| ==> s.area.free[k].size < size
    ensures
      var a := s.area;
      var (a', ptr) := Alloc(a, size, env);
      var inc := RoundUp(size - Tail(a));
      && (ptr != 0 <==>
           && env.granted && !a.removed && a.size + inc <= MAX_DA_SIZE
           && (FreeAtEnd(a) || env.room || size % 0x1000 == 0))
      && (ptr != 0 ==> ptr == a.base + a.size - Tail(a) && a'.base == a.base && a'.size == a.size + inc)
  {
    Bounds(s);
    var a := s.area;
    var e, f := FindExact(a.free, size), FindFit(a.free, size);
    assert e == |a.free| && f == |a.free|;
    AllocIs(a, size, env);
    hide Alloc, FindExact, FindFit, Representable, Inv, Grow;
    if FreeAtEnd(a) {
      TailSucceeds(s, size, env);
    } else {
      PagesSucceed(s, size, env);
    }
  }

  lemma TailSucceeds(s: State, size: word, env: Env)
    requires Inv(s) && s.area.ready && FreeAtEnd(s.area) && Representable(s.area, size)
    requires forall k :: 0 <= k < |s.area.free| ==> s.area.free[k].size < size
    ensures
      var a := s.area;
      var (a', ptr) := Grow(a, size, env);
      var inc := RoundUp(size - Tail(a));
      && (ptr != 0 <==> env.granted && !a.removed && a.size + inc <= MAX_DA_SIZE)
      && (ptr != 0 ==> ptr == a.base + a.size - Tail(a) && a'.base == a.base && a'.size == a.size + inc)
  {
    TailEnds(s);
    AtEnd(s.area);
    var a := s.area;
    var last := a.free[|a.free| - 1];
    Bounds(s);
    SubIs(size, last.size);
    PageUpRounds(size - last.size);
    var inc := PageUp(size - last.size);
    assert a.size + inc < WORDS && inc == RoundUp(size - last.size);
    hide PageUp, RoundUp, Sub, Inv, Representable, FreeAtEnd, Add;
    if Obeys(env, a.removed, a.size, inc) {
      ChangeIsGrowth(a, inc, env);
    }
  }

  lemma PagesSucceed(s: State, size: word, env: Env)
    requires Inv(s) && s.area.ready && !FreeAtEnd(s.area) && Representable(s.area, size)
    ensures
      var a := s.area;
      var (a', ptr) := Grow(a, size, env);
      var inc := RoundUp(size);
      && (ptr != 0 <==> env.granted && !a.removed && a.size + inc <= MAX_DA_SIZE && (env.room || size % 0x1000 == 0))
      && (ptr != 0 ==> ptr == a.base + a.size && a'.base == a.base && a'.size == a.size + inc)
  {
    Bounds(s);
    var a := s.area;
    PageUpRounds(size);
    Remainder(size);
    AddIs(a.base, a.size);
    var inc := PageUp(size);
    assert a.size + inc < WORDS && inc == RoundUp(size);
    assert inc == 0 ==> size == 0 && Sub(inc, size) == 0;
    hide PageUp, RoundUp, Sub, Inv, Representable, FreeAtEnd, Add;
    if Obeys(env, a.removed, a.size, inc) {
      ChangeIsGrowth(a, inc, env);
    }
  }

  /** The first request of a process: it needs a new area and a list node, and
      then works on 4096 free bytes. */
  lemma FirstUse(size: word, env: Env)
    requires Sane(env)
    ensures
      var (a', ptr) := Alloc(Unused, size, env);
      && (env.created.None? ==> a' == Unused && ptr == 0)
      && (env.created.Some? && !env.room ==> a'.ready && a'.removed && ptr == 0)
      && (env.created.Some? && env.room ==>
            var made := Area(true, false, env.created.value, 4096, [Block(env.created.value, 4096)]);
            Alloc(Unused, size, env) == Alloc(made, size, env) && (size <= 4096 ==> ptr == env.created.value))
  {
    hide Grow;
    if env.created.Some? && env.room {
      var made := Area(true, false, env.created.value, 4096, [Block(env.created.value, 4096)]);
      assert Unused.free + made.free == made.free;
      assert Init(Unused, env) == (made, true);
      AllocIs(made, size, env);
      if size <= 4096 {
        assert FindFit(made.free, size) == 0;
      }
    }
  }

  /** Which block a request gets: the first of exactly its size, which then
      leaves the list; else the front of the first that is large enough. */
  lemma AllocPolicy(a: Area, size: word, env: Env)
    requires a.ready
    ensures
      var (a', ptr) := Alloc(a, size, env);
      && (forall k :: 0 <= k < |a.free| && a.free[k].size == size && (forall j :: 0 <= j < k ==> a.free[j].size != size) ==>
            ptr == a.free[k].addr && a' == a.(free := a.free[..k] + a.free[k + 1..]))
      && (forall k ::
            (0 <= k < |a.free| && (forall j :: 0 <= j < |a.free| ==> a.free[j].size != size)
             && a.free[k].size > size && (forall j :: 0 <= j < k ==> a.free[j].size < size)) ==>
            ptr == a.free[k].addr
            && a' == a.(free := a.free[k := Block(Add(a.free[k].addr, size), a.free[k].size - size)]))
  {
    hide Grow, FindExact, FindFit, Alloc, Add, Sub;
    AllocIs(a, size, env);
    var e, f := FindExact(a.free, size), FindFit(a.free, size);
    forall k | 0 <= k < |a.free| && a.free[k].size == size && (forall j :: 0 <= j < k ==> a.free[j].size != size)
      ensures e == k
    {
    }
    if e == |a.free| && f < |a.free| {
      SubIs(a.free[f].size, size);
    }
    forall k | 0 <= k < |a.free| && a.free[k].size > size && (forall j :: 0 <= j < k ==> a.free[j].size < size)
      ensures f == k
    {
    }
  }

  /** An area all of whose bytes are live. */
  ghost function FullArea(size: word): State {
    State(Area(true, false, 0x20000, size, []), Range(0x20000, size), {})
  }

  lemma FullAreaHolds(size: word)
    requires size <= MAX_DA_SIZE
    ensures Inv(FullArea(size))
  {
    var s := FullArea(size);
    forall x ensures Inside(s.area, x) <==> x in s.live {
      assert Inside(s.area, x) <==> Within(x, 0x20000, size);
    }
  }

  const Willing := Env(None, true, true)

  /** A request of 2^32 - 1 bytes: the rounding wraps to nothing, and a pointer
      to the end of the area is handed out for it. */
  lemma WrappedExample()
    ensures var s := FullArea(4096);
      && Inv(s) && Sane(Willing)
      && Alloc(s.area, 0xffff_ffff, Willing).1 == 0x21000
      && !Inv(AfterAlloc(s, 0xffff_ffff, Willing))
  {
    FullAreaHolds(4096);
    AllocSafe(FullArea(4096), 0xffff_ffff, Willing);
  }

  /** A request of 2^32 - 4096 bytes: the amount reads as -4096, the area loses
      its only page, which is in use, and a pointer behind it is handed out. */
  lemma ShrunkExample()
    ensures var s := FullArea(4096); var (a', ptr) := Alloc(s.area, 0xffff_f000, Willing);
      && Inv(s) && a'.size == 0 && ptr == 0x21000
      && !Inv(AfterAlloc(s, 0xffff_f000, Willing))
  {
    FullAreaHolds(4096);
    AllocSafe(FullArea(4096), 0xffff_f000, Willing);
  }

  /** The sizes that no state and no answer of the system make dangerous. */
  lemma SafeSizes(size: word)
    ensures (forall s, env :: Inv(s) && Sane(env) ==> Inv(AfterAlloc(s, size, env))) <==> size <= 0xf37f_f000
  {
    hide AfterAlloc, Alloc, Inv;
    if size <= 0xf37f_f000 {
      forall s, env | Inv(s) && Sane(env) ensures Inv(AfterAlloc(s, size, env)) {
        AllocSafe(s, size, env);
        InitSafe(s, env);
        SmallIsHarmless(AfterInit(s, env), size, env);
      }
    } else {
      FullAreaHolds(MAX_DA_SIZE);
      AllocSafe(FullArea(MAX_DA_SIZE), size, Willing);
      assert !Harmless(FullArea(MAX_DA_SIZE).area, size, Willing);
    }
  }

  lemma SmallIsHarmless(s: State, size: word, env: Env)
    requires Inv(s) && size <= 0xf37f_f000
    ensures Harmless(s.area, size, env)
  {
    if s.area.ready {
      Bounds(s);
      assert Tail(s.area) >= 0;
      Monotone(size - Tail(s.area), 0xf37f_f000);
    }
  }

  lemma Monotone(m: int, n: int)
    requires m <= n && n % 0x1000 == 0
    ensures RoundUp(m) <= n
  {
  }

  /** A full area of one page and a request of one byte, when no list node can
      be had: a page is added and lost. */
  lemma LossExample()
    ensures var s := FullArea(4096); var env := Env(None, true, false);
      && Inv(s) && Sane(env) && Alloc(s.area, 1, env).1 == 0
      && AfterAlloc(s, 1, env).lost == Range(0x21000, 4096) != {}
  {
    var s, env := FullArea(4096), Env(None, true, false);
    FullAreaHolds(4096);
    assert PageUp(1) == 4096;
    assert Loses(s.area, 1, env);
    Losses(s, 1, env);
    assert {} + Range(0x21000, 4096) == Range(0x21000, 4096);
  }

  /** Freeing directly behind the last free block leaves two adjacent blocks. */
  lemma UnmergedExample()
    ensures
      var s := State(Area(true, false, 0x20000, 4096, [Block(0x20000, 16)]), Range(0x20010, 4080), {});
      && Inv(s) && Coalesced(s.area.free) && Range(0x20010, 16) <= s.live
      && AfterFree(s, 0x20010, 16, Willing).area.free == [Block(0x20000, 16), Block(0x20010, 16)]
      && !Coalesced(AfterFree(s, 0x20010, 16, Willing).area.free)
  {
    var s := State(Area(true, false, 0x20000, 4096, [Block(0x20000, 16)]), Range(0x20010, 4080), {});
    forall x ensures IsFree(s.area.free, x) <==> Within(x, 0x20000, 16) {
      assert Holds(s.area.free[0], x) <==> Within(x, 0x20000, 16);
    }
    forall x ensures Inside(s.area, x) <==> IsFree(s.area.free, x) || x in s.live {
      assert Inside(s.area, x) <==> Within(x, 0x20000, 16) || Within(x, 0x20010, 4080);
    }
    var free := AfterFree(s, 0x20010, 16, Willing).area.free;
    assert free == [Block(0x20000, 16), Block(0x20010, 16)];
    assert End(free[1 - 1]) == free[1].addr;
  }

  // --------------------------------------------------------------- freeing

  lemma PutBackAtEnd(free: seq<Block>, addr: word, len: word)
    ensures FindAbove(free, addr) == |free| ==> PutBack(free, addr, len) == free + [Block(addr, len)]
  {
  }

  /** The cases of PutBack below the last free block. */
  lemma PutBackIs(free: seq<Block>, addr: word, len: word)
    requires FindAbove(free, addr) < |free|
    ensures
      var i := FindAbove(free, addr);
      var next := Add(addr, len) == free[i].addr;
      var prev := i > 0 && Add(free[i - 1].addr, free[i - 1].size) == addr;
      var r := PutBack(free, addr, len);
      && (NeedsNode(free, addr, len) <==> !next && !prev)
      && (next && prev ==> r == free[..i - 1] + [Block(free[i - 1].addr, Add(Add(free[i - 1].size, len), free[i].size))] + free[i + 1..])
      && (next && !prev ==> r == free[i := Block(addr, Add(free[i].size, len))])
      && (!next && prev ==> r == free[i - 1 := Block(free[i - 1].addr, Add(free[i - 1].size, len))])
      && (!next && !prev ==> r == free[..i] + [Block(addr, len)] + free[i..])
  {
    hide Add, FindAbove;
  }

  /** The three facts that place a live range among the free blocks. */
  lemma Placed(s: State, addr: word, len: word)
    requires Inv(s) && !Refused(s.area, addr, len) && Range(addr, len) <= s.live
    ensures var free := s.area.free; var i := FindAbove(free, addr);
      && s.area.ready && !s.area.removed
      && addr + len <= s.area.base + s.area.size < WORDS
      && (i > 0 ==> End(free[i - 1]) <= addr)
      && (i < |free| ==> addr + len <= free[i].addr)
  {
    var free := s.area.free;
    var i := FindAbove(free, addr);
    assert Within(addr, addr, len) && Within(addr + len - 1, addr, len);
    assert addr in s.live && addr + len - 1 in s.live;
    assert Inside(s.area, addr + len - 1);
    if i > 0 {
      assert !Holds(free[i - 1], addr);
    }
    if i < |free| && free[i].addr < addr + len {
      assert Within(free[i].addr, addr, len);
      assert Holds(free[i], free[i].addr);
      assert IsFree(free, free[i].addr);
    }
  }

  ghost function AfterFree(s: State, addr: word, len: word, env: Env): State {
    var (a', ok) := Free(s.area, addr, len, env);
    if ok then State(a', s.live - Range(addr, len), s.lost) else s
  }

  /** Making a live range free. */
  lemma GiveFree(s: State, f: seq<Block>, addr: word, len: word)
    requires Inv(s) && s.area.ready && !s.area.removed && Range(addr, len) <= s.live
    requires Ordered(f, s.area.base, s.area.base + s.area.size)
    requires forall x :: IsFree(f, x) <==> IsFree(s.area.free, x) || Within(x, addr, len)
    ensures Inv(State(s.area.(free := f), s.live - Range(addr, len), s.lost))
  {
    var s' := State(s.area.(free := f), s.live - Range(addr, len), s.lost);
    forall x ensures Inside(s'.area, x) <==> IsFree(f, x) || x in s'.live || x in s'.lost {
      assert Inside(s'.area, x) <==> Inside(s.area, x);
      assert Within(x, addr, len) <==> x in Range(addr, len);
    }
    forall x | IsFree(f, x) ensures x !in s'.live && x !in s'.lost {
      assert Within(x, addr, len) <==> x in Range(addr, len);
    }
  }

  lemma MergeNext(free: seq<Block>, i: nat, addr: word, len: word, lo: int, hi: int)
    requires Ordered(free, lo, hi) && i < |free| && len > 0 && lo <= addr && hi < WORDS
    requires addr + len == free[i].addr && (i > 0 ==> End(free[i - 1]) <= addr)
    ensures var f := free[i := Block(addr, Add(free[i].size, len))];
      && Ordered(f, lo, hi)
      && forall x :: IsFree(f, x) <==> IsFree(free, x) || Within(x, addr, len)
  {
    var b := Block(addr, Add(free[i].size, len));
    assert End(b) == End(free[i]);
    ReplaceKeepsOrder(free, i, b, lo, hi, hi);
    forall x ensures IsFree(free[i := b], x) <==> IsFree(free, x) || Within(x, addr, len) {
      ReplaceFrees(free, i, b, x, lo, hi);
      if Holds(free[i], x) { assert IsFree(free, x); }
    }
  }

  lemma MergePrev(free: seq<Block>, i: nat, addr: word, len: word, lo: int, hi: int)
    requires Ordered(free, lo, hi) && i < |free| && len > 0 && addr + len <= hi < WORDS
    requires End(free[i]) == addr && (i + 1 < |free| ==> addr + len <= free[i + 1].addr)
    ensures var f := free[i := Block(free[i].addr, Add(free[i].size, len))];
      && Ordered(f, lo, hi)
      && forall x :: IsFree(f, x) <==> IsFree(free, x) || Within(x, addr, len)
  {
    var b := Block(free[i].addr, Add(free[i].size, len));
    assert End(b) == addr + len;
    ReplaceKeepsOrder(free, i, b, lo, hi, hi);
    forall x ensures IsFree(free[i := b], x) <==> IsFree(free, x) || Within(x, addr, len) {
      ReplaceFrees(free, i, b, x, lo, hi);
      if Holds(free[i], x) { assert IsFree(free, x); }
    }
  }

  /** The two-sided merge: the block before swallows the range and the block after. */
  lemma MergeBoth(free: seq<Block>, i: nat, addr: word, len: word, lo: int, hi: int)
    requires Ordered(free, lo, hi) && 0 < i < |free| && len > 0 && lo <= addr && hi < WORDS
    requires End(free[i - 1]) == addr && addr + len == free[i].addr
    ensures var f := free[..i - 1] + [Block(free[i - 1].addr, Add(Add(free[i - 1].size, len), free[i].size))] + free[i + 1..];
      && Ordered(f, lo, hi)
      && forall x :: IsFree(f, x) <==> IsFree(free, x) || Within(x, addr, len)
  {
    var b := Block(free[i - 1].addr, Add(Add(free[i - 1].size, len), free[i].size));
    assert End(b) == End(free[i]) <= hi;
    var g := free[..i] + free[i + 1..];
    var f := free[..i - 1] + [b] + free[i + 1..];
    assert f == g[i - 1 := b];
    RemoveKeepsOrder(free, i, lo, hi);
    FitsBetween(free, i, b, lo, hi);
    assert g[i - 1] == free[i - 1];
    hide Ordered;
    ReplaceKeepsOrder(g, i - 1, b, lo, hi, hi);
    forall x ensures IsFree(f, x) <==> IsFree(free, x) || Within(x, addr, len) {
      assert Holds(free[i], x) || Holds(free[i - 1], x) ==> IsFree(free, x);
      assert Holds(b, x) <==> Holds(free[i - 1], x) || Within(x, addr, len) || Holds(free[i], x);
      hide IsFree, Holds, Within;
      RemoveFrees(free, i, x, lo, hi);
      ReplaceFrees(g, i - 1, b, x, lo, hi);
    }
  }

  lemma FitsBetween(free: seq<Block>, i: nat, b: Block, lo: int, hi: int)
    requires Ordered(free, lo, hi) && 0 < i < |free| && b.size > 0
    requires b.addr == free[i - 1].addr && End(b) == End(free[i])
    ensures Fits(free[..i] + free[i + 1..], i - 1, i, b, lo, hi)
  {
    var g := free[..i] + free[i + 1..];
    if i < |g| {
      RemovedAt(free, i, i);
    }
    if i > 1 {
      RemovedAt(free, i, i - 2);
    }
  }

  lemma Separate(free: seq<Block>, i: nat, addr: word, len: word, lo: int, hi: int)
    requires Ordered(free, lo, hi) && i <= |free| && len > 0 && lo <= addr && addr + len <= hi
    requires (i > 0 ==> End(free[i - 1]) <= addr) && (i < |free| ==> addr + len <= free[i].addr)
    ensures var f := free[..i] + [Block(addr, len)] + free[i..];
      && Ordered(f, lo, hi)
      && forall x :: IsFree(f, x) <==> IsFree(free, x) || Within(x, addr, len)
  {
    var b := Block(addr, len);
    InsertKeepsOrder(free, i, b, lo, hi, hi);
    forall x ensures IsFree(free[..i] + [b] + free[i..], x) <==> IsFree(free, x) || Within(x, addr, len) {
      InsertFrees(free, i, b, x);
    }
  }

  /** Freeing any part of the live bytes keeps the partition. */
  lemma FreeSafe(s: State, addr: word, len: word, env: Env)
    requires Inv(s)
    requires Refused(s.area, addr, len) || Range(addr, len) <= s.live
    ensures Inv(AfterFree(s, addr, len, env))
    ensures !Refused(s.area, addr, len) && env.room ==> Free(s.area, addr, len, env).1
  {
    if !Refused(s.area, addr, len) {
      Placed(s, addr, len);
      PutBackSafe(s, addr, len);
    }
  }

  /** A free fails exactly for the arguments that the original checks, and for
      want of a node when no neighbour takes the range in; it then changes nothing. */
  lemma FreeAnswers(s: State, addr: word, len: word, env: Env)
    requires Inv(s) && (Range(addr, len) <= s.live || addr < s.area.base || s.area.base + s.area.size <= addr)
    ensures
      var a := s.area;
      var (a', ok) := Free(a, addr, len, env);
      && (ok <==>
           && addr != 0 && len != 0 && a.base <= addr < a.base + a.size
           && (env.room || HasTaker(a.free, addr, len)))
      && (!ok ==> a' == a)
  {
    AreaEnds(s);
    if !Refused(s.area, addr, len) {
      Placed(s, addr, len);
      TakerIs(s.area.free, addr, len, s.area.base, s.area.base + s.area.size);
    }
    hide Inv, PutBack, Add, HasTaker;
  }

  lemma AreaEnds(s: State)
    requires Inv(s)
    ensures Add(s.area.base, s.area.size) == s.area.base + s.area.size
  {
  }

  /** A free block starts where the range ends, or one that is not the last ends
      where it starts. */
  ghost predicate HasTaker(free: seq<Block>, addr: word, len: word) {
    || (exists k :: 0 <= k < |free| && free[k].addr == addr + len)
    || (exists k :: 0 <= k < |free| - 1 && End(free[k]) == addr)
  }

  lemma TakerPlace(free: seq<Block>, addr: word, len: word, i: nat, lo: int, hi: int)
    requires Ordered(free, lo, hi) && len > 0 && i <= |free|
    requires i > 0 ==> End(free[i - 1]) <= addr
    requires i < |free| ==> addr + len <= free[i].addr
    ensures HasTaker(free, addr, len) <==>
      i < |free| && (free[i].addr == addr + len || (i > 0 && End(free[i - 1]) == addr))
  {
    forall k | 0 <= k < |free| && k != i ensures free[k].addr != addr + len {
      if k < i {
        assert k == i - 1 || End(free[k]) <= free[i - 1].addr;
      } else {
        assert End(free[i]) <= free[k].addr;
      }
    }
    forall k | 0 <= k < |free| && k != i - 1 ensures End(free[k]) != addr {
      if k < i {
        assert End(free[k]) <= free[i - 1].addr;
      } else {
        assert k == i || End(free[i]) <= free[k].addr;
      }
    }
  }

  lemma TakerIs(free: seq<Block>, addr: word, len: word, lo: int, hi: int)
    requires Ordered(free, lo, hi) && len > 0 && 0 <= lo <= addr && addr + len <= hi < WORDS
    requires var i := FindAbove(free, addr);
      (i > 0 ==> End(free[i - 1]) <= addr) && (i < |free| ==> addr + len <= free[i].addr)
    ensures NeedsNode(free, addr, len) <==> !HasTaker(free, addr, len)
  {
    var i := FindAbove(free, addr);
    TakerPlace(free, addr, len, i, lo, hi);
    AddIs(addr, len);
    if 0 < i < |free| {
      AddIs(free[i - 1].addr, free[i - 1].size);
    }
    hide Ordered, PutBack, Add, FindAbove, HasTaker;
    if i < |free| {
      PutBackIs(free, addr, len);
    } else {
      PutBackAtEnd(free, addr, len);
    }
  }

  lemma PutBackSafe(s: State, addr: word, len: word)
    requires Inv(s) && s.area.ready && Range(addr, len) <= s.live && !Refused(s.area, addr, len)
    ensures Inv(State(s.area.(free := PutBack(s.area.free, addr, len)), s.live - Range(addr, len), s.lost))
  {
    Placed(s, addr, len);
    Bounds(s);
    var free, lo, hi := s.area.free, s.area.base, s.area.base + s.area.size;
    var i := FindAbove(free, addr);
    var f := PutBack(free, addr, len);
    hide Inv, Ordered, PutBack;
    PutBackCases(free, addr, len, lo, hi);
    GiveFree(s, f, addr, len);
  }

  lemma PutBackCases(free: seq<Block>, addr: word, len: word, lo: int, hi: int)
    requires Ordered(free, lo, hi) && len > 0 && 0 <= lo <= addr && addr + len <= hi < WORDS
    requires var i := FindAbove(free, addr);
      (i > 0 ==> End(free[i - 1]) <= addr) && (i < |free| ==> addr + len <= free[i].addr)
    ensures Ordered(PutBack(free, addr, len), lo, hi)
    ensures forall x :: IsFree(PutBack(free, addr, len), x) <==> IsFree(free, x) || Within(x, addr, len)
  {
    var i := FindAbove(free, addr);
    AddIs(addr, len);
    if i > 0 {
      AddIs(free[i - 1].addr, free[i - 1].size);
    }
    hide Ordered, IsFree, Add, FindAbove;
    if i == |free| {
      Separate(free, i, addr, len, lo, hi);
      assert free[..i] + [Block(addr, len)] + free[i..] == free + [Block(addr, len)];
    } else {
      var next := addr + len == free[i].addr;
      var prev := i > 0 && End(free[i - 1]) == addr;
      if next && prev {
        MergeBoth(free, i, addr, len, lo, hi);
      } else if next {
        MergeNext(free, i, addr, len, lo, hi);
      } else if prev {
        MergePrev(free, i - 1, addr, len, lo, hi);
      } else {
        Separate(free, i, addr, len, lo, hi);
      }
    }
  }

  // ----------------------------------------------------------- coalescing

  /** No free block touches the next one. */
  ghost predicate Coalesced(free: seq<Block>) {
    forall i :: 0 < i < |free| ==> End(free[i - 1]) < free[i].addr
  }

  /** The range lies directly behind the last free block. */
  predicate BehindLast(free: seq<Block>, addr: word) {
    |free| > 0 && End(free[|free| - 1]) == addr
  }

  lemma PutBackMerges(free: seq<Block>, addr: word, len: word, lo: int, hi: int)
    requires Ordered(free, lo, hi) && Coalesced(free) && len > 0 && 0 <= lo <= addr && addr + len <= hi < WORDS
    requires var i := FindAbove(free, addr);
      (i > 0 ==> End(free[i - 1]) <= addr) && (i < |free| ==> addr + len <= free[i].addr)
    ensures Coalesced(PutBack(free, addr, len)) <==> !BehindLast(free, addr)
  {
    var i := FindAbove(free, addr);
    if i == |free| {
      PutBackAtEnd(free, addr, len);
      AppendTouches(free, addr, len);
    } else {
      assert End(free[|free| - 1]) > addr by {
        assert i == |free| - 1 || End(free[i]) <= free[|free| - 1].addr;
      }
      assert End(free[i]) <= hi;
      hide Ordered, PutBack, FindAbove, Add;
      BelowLastMerges(free, addr, len);
    }
  }

  lemma BelowLastMerges(free: seq<Block>, addr: word, len: word)
    requires Coalesced(free) && len > 0
    requires var i := FindAbove(free, addr);
      && i < |free| && End(free[i]) < WORDS
      && addr + len <= free[i].addr && (i > 0 ==> End(free[i - 1]) <= addr)
    ensures Coalesced(PutBack(free, addr, len))
  {
    var i := FindAbove(free, addr);
    PutBackIs(free, addr, len);
    hide PutBack, FindAbove;
    AddIs(addr, len);
    AddIs(free[i].size, len);
    var next := addr + len == free[i].addr;
    if i > 0 && End(free[i - 1]) == addr {
      AddIs(free[i - 1].addr, free[i - 1].size);
      AddIs(free[i - 1].size, len);
      hide Add;
      if next {
        TwoAdds(free[i - 1].size, len, free[i].size);
        MergeBothSeparates(free, i, Block(free[i - 1].addr, Add(Add(free[i - 1].size, len), free[i].size)));
      } else {
        ReplaceSeparates(free, i - 1, Block(free[i - 1].addr, Add(free[i - 1].size, len)));
      }
    } else {
      if i > 0 {
        AddIs(free[i - 1].addr, free[i - 1].size);
      }
      hide Add;
      if next {
        ReplaceSeparates(free, i, Block(addr, Add(free[i].size, len)));
      } else {
        InsertSeparates(free, i, Block(addr, len));
      }
    }
  }

  lemma TwoAdds(a: word, b: word, c: word)
    requires a + b + c < WORDS
    ensures Add(Add(a, b), c) == a + b + c
  {
  }

  lemma AppendTouches(free: seq<Block>, addr: word, len: word)
    requires Coalesced(free) && (|free| > 0 ==> End(free[|free| - 1]) <= addr)
    ensures Coalesced(free + [Block(addr, len)]) <==> !BehindLast(free, addr)
  {
    var f := free + [Block(addr, len)];
    var n := |free|;
    assert n > 0 ==> f[n - 1] == free[n - 1] && f[n].addr == addr;
  }

  lemma ReplaceSeparates(free: seq<Block>, i: nat, b: Block)
    requires Coalesced(free) && i < |free|
    requires i > 0 ==> End(free[i - 1]) < b.addr
    requires i + 1 < |free| ==> End(b) < free[i + 1].addr
    ensures Coalesced(free[i := b])
  {
  }

  lemma InsertSeparates(free: seq<Block>, i: nat, b: Block)
    requires Coalesced(free) && i < |free|
    requires i > 0 ==> End(free[i - 1]) < b.addr
    requires End(b) < free[i].addr
    ensures Coalesced(free[..i] + [b] + free[i..])
  {
    var f := free[..i] + [b] + free[i..];
    forall k | 0 < k < |f| ensures End(f[k - 1]) < f[k].addr {
      InsertedAt(free, i, b, k);
      InsertedAt(free, i, b, k - 1);
    }
  }

  lemma MergeBothSeparates(free: seq<Block>, i: nat, b: Block)
    requires Coalesced(free) && 0 < i < |free|
    requires b.addr == free[i - 1].addr && End(b) == End(free[i])
    ensures Coalesced(free[..i - 1] + [b] + free[i + 1..])
  {
    var f := free[..i - 1] + [b] + free[i + 1..];
    forall k | 0 < k < |f| ensures End(f[k - 1]) < f[k].addr {
      MergedAt(free, i, b, k);
      MergedAt(free, i, b, k - 1);
    }
  }

  lemma MergedAt(free: seq<Block>, i: nat, b: Block, k: nat)
    requires 0 < i < |free| && k + 1 < |free|
    ensures (free[..i - 1] + [b] + free[i + 1..])[k] == if k < i - 1 then free[k] else if k == i - 1 then b else free[k + 1]
  {
  }

  /** A successful free keeps a coalesced list coalesced exactly when the freed
      range does not lie directly behind the last free block: the end of the
      list is the one place where the original does not merge. */
  lemma FreeCoalesces(s: State, addr: word, len: word, env: Env)
    requires Inv(s) && Coalesced(s.area.free) && Range(addr, len) <= s.live
    requires Free(s.area, addr, len, env).1
    ensures Coalesced(AfterFree(s, addr, len, env).area.free) <==> !BehindLast(s.area.free, addr)
  {
    Placed(s, addr, len);
    PutBackMerges(s.area.free, addr, len, s.area.base, s.area.base + s.area.size);
  }

  lemma RemoveSeparates(free: seq<Block>, e: nat, lo: int, hi: int)
    requires Ordered(free, lo, hi) && Coalesced(free) && e < |free|
    ensures Coalesced(free[..e] + free[e + 1..])
  {
    var f := free[..e] + free[e + 1..];
    forall i | 0 < i < |f| ensures End(f[i - 1]) < f[i].addr {
      RemovedAt(free, e, i - 1);
      RemovedAt(free, e, i);
      assert i == e ==> End(free[e - 1]) < free[e].addr < free[e + 1].addr;
    }
  }

  lemma ListedCoalesces(s: State, size: word, env: Env)
    requires Inv(s) && s.area.ready && Coalesced(s.area.free) && FindFit(s.area.free, size) < |s.area.free|
    ensures Coalesced(Alloc(s.area, size, env).0.free)
  {
    Bounds(s);
    var a := s.area;
    var e, f := FindExact(a.free, size), FindFit(a.free, size);
    AllocIs(a, size, env);
    if e < |a.free| {
      RemoveSeparates(a.free, e, a.base, a.base + a.size);
    } else {
      var b := a.free[f];
      AddIs(b.addr, size);
      SubIs(b.size, size);
      ReplaceSeparates(a.free, f, Block(Add(b.addr, size), Sub(b.size, size)));
    }
  }

  lemma GrowthCoalesces(s: State, size: word, env: Env)
    requires Inv(s) && s.area.ready && Coalesced(s.area.free) && Harmless(s.area, size, env)
    requires forall k :: 0 <= k < |s.area.free| ==> s.area.free[k].size < size
    ensures Coalesced(Grow(s.area, size, env).0.free)
  {
    Bounds(s);
    var a := s.area;
    if Representable(a, size) {
      if FreeAtEnd(a) { TailCoalesces(s, size, env); } else { PagesCoalesce(s, size, env); }
    } else {
      RefusedUnchanged(s, size, env);
    }
  }

  lemma RefusedUnchanged(s: State, size: word, env: Env)
    requires Inv(s) && s.area.ready && !Representable(s.area, size) && Harmless(s.area, size, env)
    ensures Grow(s.area, size, env).0.free == s.area.free
  {
    Bounds(s);
    NotLarger(s.area, size, env);
    hide PageUp, Representable, Inv, Add;
  }

  lemma TailCoalesces(s: State, size: word, env: Env)
    requires Inv(s) && s.area.ready && Coalesced(s.area.free) && FreeAtEnd(s.area) && Representable(s.area, size)
    requires forall k :: 0 <= k < |s.area.free| ==> s.area.free[k].size < size
    ensures Coalesced(Grow(s.area, size, env).0.free)
  {
    Bounds(s);
    AtEnd(s.area);
    var a := s.area;
    var i := |a.free| - 1;
    var last := a.free[i];
    SubIs(size, last.size);
    var inc := PageUp(Sub(size, last.size));
    PageUpRounds(Sub(size, last.size));
    hide PageUp, Sub, FreeAtEnd, Representable, Inv;
    if Obeys(env, a.removed, a.size, inc) {
      AddIs(last.addr, size);
      ReplaceSeparates(a.free, i, Block(Add(last.addr, size), Add(last.size, Sub(inc, size))));
    }
  }

  lemma PagesCoalesce(s: State, size: word, env: Env)
    requires Inv(s) && s.area.ready && Coalesced(s.area.free) && !FreeAtEnd(s.area) && Representable(s.area, size)
    ensures Coalesced(Grow(s.area, size, env).0.free)
  {
    Bounds(s);
    var a := s.area;
    var inc := PageUp(size);
    PageUpRounds(size);
    AddIs(a.base, a.size);
    SubIs(inc, size);
    hide PageUp, Sub, FreeAtEnd, Representable, Inv, Add;
    if Obeys(env, a.removed, a.size, inc) && inc != size && env.room {
      ChangeIsGrowth(a, inc, env);
      AddIs(Add(a.base, a.size), size);
      AppendSeparates(a.free, Block(a.base + a.size + size, inc - size), a.base + a.size);
    }
  }

  lemma AppendSeparates(free: seq<Block>, b: Block, hi: int)
    requires Coalesced(free) && (forall k :: 0 <= k < |free| ==> End(free[k]) <= hi) && hi < b.addr
    ensures Coalesced(free + [b])
  {
  }

  /** Every harmless allocation keeps a coalesced list coalesced. */
  lemma AllocCoalesces(s: State, size: word, env: Env)
    requires Inv(s) && Sane(env) && Coalesced(s.area.free) && Harmless(Prepared(s.area, env), size, env)
    ensures Coalesced(AfterAlloc(s, size, env).area.free)
  {
    assert !s.area.ready ==> s.area.free == [];
    hide Inv, Grow, FindExact, FindFit, Harmless;
    InitSafe(s, env);
    var s1 := AfterInit(s, env);
    assert Coalesced(s1.area.free);
    if s.area.ready || Init(s.area, env).1 {
      assert Alloc(s.area, size, env) == Alloc(s1.area, size, env);
      if FindFit(s1.area.free, size) < |s1.area.free| {
        ListedCoalesces(s1, size, env);
      } else {
        AllocIs(s1.area, size, env);
        GrowthCoalesces(s1, size, env);
      }
    }
  }

  // ------------------------------------------------------------ whole runs

  datatype Op = AllocOp(size: word) | FreeOp(addr: word, len: word)

  datatype Call = Call(op: Op, env: Env)

  ghost function After(s: State, c: Call): State {
    match c.op
    case AllocOp(size) => AfterAlloc(s, size, c.env)
    case FreeOp(addr, len) => AfterFree(s, addr, len, c.env)
  }

  /** What a caller must respect: harmless requests, frees of live bytes. */
  ghost predicate Allowed(s: State, c: Call) {
    && Sane(c.env)
    && match c.op
       case AllocOp(size) => Harmless(Prepared(s.area, c.env), size, c.env)
       case FreeOp(addr, len) => Refused(s.area, addr, len) || Range(addr, len) <= s.live
  }

  ghost predicate AllowedRun(s: State, calls: seq<Call>)
    decreases |calls|
  {
    calls == [] || (Allowed(s, calls[0]) && AllowedRun(After(s, calls[0]), calls[1..]))
  }

  ghost function RunFrom(s: State, calls: seq<Call>): State
    decreases |calls|
  {
    if calls == [] then s else RunFrom(After(s, calls[0]), calls[1..])
  }

  predicate LosesAt(a: Area, c: Call) {
    c.op.AllocOp? && Loses(Prepared(a, c.env), c.op.size, c.env)
  }

  /** No call of the run loses pages. */
  ghost predicate Lossless(s: State, calls: seq<Call>)
    decreases |calls|
  {
    calls == [] || (!LosesAt(s.area, calls[0]) && Lossless(After(s, calls[0]), calls[1..]))
  }

  /** The block a call hands out. */
  ghost function Handed(s: State, c: Call): set<int> {
    match c.op
    case AllocOp(size) =>
      var ptr := Alloc(s.area, size, c.env).1;
      if ptr == 0 then {} else Range(ptr, size)
    case FreeOp(_, _) => {}
  }

  lemma StepSafe(s: State, c: Call)
    requires Inv(s) && Allowed(s, c)
    ensures Inv(After(s, c))
    ensures s.lost <= After(s, c).lost && (After(s, c).lost == s.lost <==> !LosesAt(s.area, c))
    ensures s.live !! Handed(s, c) && Handed(s, c) <= After(s, c).live
  {
    match c.op
    case AllocOp(size) =>
      hide Inv, Alloc, Harmless, Loses, Init;
      AllocSafe(s, size, c.env);
      Losses(s, size, c.env);
      HandedIsLive(s, size, c.env);
    case FreeOp(addr, len) =>
      hide Inv, Alloc, Free;
      FreeSafe(s, addr, len, c.env);
  }

  lemma HandedIsLive(s: State, size: word, env: Env)
    ensures var ptr := Alloc(s.area, size, env).1; ptr != 0 ==> Range(ptr, size) <= AfterAlloc(s, size, env).live
  {
    hide Grow, FindExact, FindFit;
  }

  lemma {:induction false} RunSafe(s: State, calls: seq<Call>)
    requires Inv(s) && AllowedRun(s, calls)
    ensures Inv(RunFrom(s, calls)) && s.lost <= RunFrom(s, calls).lost
    ensures RunFrom(s, calls).lost == s.lost <==> Lossless(s, calls)
    decreases |calls|
  {
    hide Inv, After, LosesAt, Allowed;
    if calls != [] {
      StepSafe(s, calls[0]);
      RunSafe(After(s, calls[0]), calls[1..]);
    }
  }

  lemma {:induction false} RoomIsLossless(s: State, calls: seq<Call>)
    requires forall k :: 0 <= k < |calls| ==> calls[k].env.room
    ensures Lossless(s, calls)
    decreases |calls|
  {
    hide After;
    if calls != [] {
      RoomIsLossless(After(s, calls[0]), calls[1..]);
    }
  }

  /** The state before call k of an allowed run, and that call. */
  lemma {:induction false} RunSplits(s: State, calls: seq<Call>, k: nat)
    requires AllowedRun(s, calls) && k < |calls|
    ensures AllowedRun(s, calls[..k]) && Allowed(RunFrom(s, calls[..k]), calls[k])
    decreases |calls|
  {
    hide After, Allowed;
    if k > 0 {
      RunSplits(After(s, calls[0]), calls[1..], k - 1);
      assert calls[..k][1..] == calls[1..][..k - 1];
      assert calls[..k][0] == calls[0];
    }
  }

  lemma {:induction false} RunExtends(s: State, calls: seq<Call>, c: Call)
    ensures RunFrom(s, calls + [c]) == After(RunFrom(s, calls), c)
    decreases |calls|
  {
    hide After;
    if calls == [] {
      assert calls + [c] == [c];
      assert [c][1..] == [];
    } else {
      assert (calls + [c])[1..] == calls[1..] + [c];
      RunExtends(After(s, calls[0]), calls[1..], c);
    }
  }

  /** From a fresh process on, every allowed run keeps the free list ordered and
      the area partitioned. Every byte of the area is free or live exactly as
      long as no call has lost pages, and so whenever every list node could be
      allocated. */
  lemma EveryRunPartitions(calls: seq<Call>)
    requires AllowedRun(Start, calls)
    ensures var s := RunFrom(Start, calls);
      && Ordered(s.area.free, s.area.base, s.area.base + s.area.size)
      && Partition(s)
      && ((forall x :: Inside(s.area, x) <==> (IsFree(s.area.free, x) <==> x !in s.live)) <==> Lossless(Start, calls))
      && ((forall k :: 0 <= k < |calls| ==> calls[k].env.room) ==> Lossless(Start, calls))
  {
    RunSafe(Start, calls);
    if forall k :: 0 <= k < |calls| ==> calls[k].env.room {
      RoomIsLossless(Start, calls);
    }
    WholeArea(RunFrom(Start, calls));
    hide RunFrom, Lossless, Partition;
    assert Start.lost == {};
  }

  lemma WholeArea(s: State)
    requires Inv(s)
    ensures (forall x :: Inside(s.area, x) <==> (IsFree(s.area.free, x) <==> x !in s.live)) <==> s.lost == {}
  {
    hide IsFree, Ordered;
    if s.lost != {} {
      var x := SomeByte(s.lost);
      assert Inside(s.area, x) && !IsFree(s.area.free, x) && x !in s.live;
    }
  }

  lemma SomeByte(t: set<int>) returns (x: int)
    requires t != {}
    ensures x in t
  {
    assert t == set y | y in t && Within(y, y, 1);
    x :| x in t;
  }

  /** Every block handed out during a run is clear of all that was live then. */
  lemma EveryBlockIsClear(calls: seq<Call>, k: nat)
    requires AllowedRun(Start, calls) && k < |calls|
    ensures var s := RunFrom(Start, calls[..k]);
      s.live !! Handed(s, calls[k]) && Handed(s, calls[k]) <= RunFrom(Start, calls[..k + 1]).live
  {
    RunSplits(Start, calls, k);
    RunSafe(Start, calls[..k]);
    RunExtends(Start, calls[..k], calls[k]);
    assert calls[..k + 1] == calls[..k] + [calls[k]];
    hide RunFrom;
    StepSafe(RunFrom(Start, calls[..k]), calls[k]);
  }

  /** A free of a range directly behind the last free block. */
  ghost predicate FreesBehindLast(a: Area, c: Call) {
    c.op.FreeOp? && Free(a, c.op.addr, c.op.len, c.env).1 && BehindLast(a.free, c.op.addr)
  }

  ghost predicate NeverBehindLast(s: State, calls: seq<Call>)
    decreases |calls|
  {
    calls == [] || (!FreesBehindLast(s.area, calls[0]) && NeverBehindLast(After(s, calls[0]), calls[1..]))
  }

  lemma StepCoalesces(s: State, c: Call)
    requires Inv(s) && Allowed(s, c) && Coalesced(s.area.free)
    ensures Coalesced(After(s, c).area.free) <==> !FreesBehindLast(s.area, c)
  {
    match c.op
    case AllocOp(size) =>
      hide Inv, AfterAlloc;
      AllocCoalesces(s, size, c.env);
    case FreeOp(addr, len) =>
      hide Inv, PutBack, Coalesced;
      if Free(s.area, addr, len, c.env).1 {
        FreeCoalesces(s, addr, len, c.env);
      }
  }

  /** A run without such a free, from a coalesced list, ends with one. */
  lemma {:induction false} RunCoalesces(s: State, calls: seq<Call>)
    requires Inv(s) && AllowedRun(s, calls) && Coalesced(s.area.free) && NeverBehindLast(s, calls)
    ensures Coalesced(RunFrom(s, calls).area.free)
    decreases |calls|
  {
    hide Inv, After, Allowed, Coalesced, FreesBehindLast;
    if calls != [] {
      StepSafe(s, calls[0]);
      StepCoalesces(s, calls[0]);
      RunCoalesces(After(s, calls[0]), calls[1..]);
    }
  }

  /** What a call answers: the pointer, or whether the free succeeded. */
  function Answer(a: Area, c: Call): word {
    match c.op
    case AllocOp(size) => Alloc(a, size, c.env).1
    case FreeOp(addr, len) => if Free(a, addr, len, c.env).1 then 1 else 0
  }

  /** The area after a call does not depend on which bytes are live. */
  lemma AreaAfter(s: State, c: Call)
    ensures c.op.AllocOp? ==> After(s, c).area == Alloc(s.area, c.op.size, c.env).0
    ensures c.op.FreeOp? ==> After(s, c).area == Free(s.area, c.op.addr, c.op.len, c.env).0
  {
    hide Grow, FindExact, FindFit, PutBack;
  }
}
