/** The dynamic-area allocator of riscos-memory.c on values: what one call does
    to the area and to its address-ordered list of free blocks. Sizes and
    addresses are 32-bit words and wrap as they do in the original. */
module FreeListSpec {

  const WORDS: int := 0x1_0000_0000
  const INIT_DA_SIZE: int := 4 * 1024
  const MAX_DA_SIZE: int := 200 * 1024 * 1024

  type word = x: int | 0 <= x < WORDS

  function Add(a: word, b: word): word { (a + b) % WORDS }

  function Sub(a: word, b: word): word { (a - b) % WORDS }

  datatype Block = Block(addr: word, size: word)

  /** The dynamic area and its free list. `ready` is "the area handle is set",
      `removed` is the operating system's side: the area no longer exists. */
  datatype Area = Area(ready: bool, removed: bool, base: word, size: word, free: seq<Block>)

  const Unused := Area(false, false, 0, 0, [])

  datatype Option<+T> = None | Some(value: T)

  /** What the operating system and malloc answer during one call: where a new
      dynamic area lies (if one can be made), whether a change of size that keeps
      the area within its bounds is granted, and whether a list node can be
      allocated. */
  datatype Env = Env(created: Option<word>, granted: bool, room: bool)

  predicate Sane(env: Env) {
    env.created.Some? ==> 0 < env.created.value && env.created.value + MAX_DA_SIZE < WORDS
  }

  /** Rounds up to whole pages of 4096 bytes, in 32-bit arithmetic. */
  function PageUp(n: word): word {
    Add(n, 0xfff) / 0x1000 * 0x1000
  }

  /** Index of the first free block of exactly this size, or the list's length. */
  function FindExact(free: seq<Block>, size: word, from: nat := 0): (i: nat)
    requires from <= |free|
    ensures from <= i <= |free|
    ensures i < |free| ==> free[i].size == size
    ensures forall k :: from <= k < i ==> free[k].size != size
    decreases |free| - from
  {
    if from == |free| || free[from].size == size then from else FindExact(free, size, from + 1)
  }

  /** Index of the first free block that is large enough, or the list's length. */
  function FindFit(free: seq<Block>, size: word, from: nat := 0): (i: nat)
    requires from <= |free|
    ensures from <= i <= |free|
    ensures i < |free| ==> free[i].size >= size
    ensures forall k :: from <= k < i ==> free[k].size < size
    decreases |free| - from
  {
    if from == |free| || free[from].size >= size then from else FindFit(free, size, from + 1)
  }

  /** Index of the first free block above an address, or the list's length. */
  function FindAbove(free: seq<Block>, addr: word, from: nat := 0): (i: nat)
    requires from <= |free|
    ensures from <= i <= |free|
    ensures i < |free| ==> addr < free[i].addr
    ensures forall k :: from <= k < i ==> free[k].addr <= addr
    decreases |free| - from
  {
    if from == |free| || addr < free[from].addr then from else FindAbove(free, addr, from + 1)
  }

  predicate FreeAtEnd(a: Area) {
    |a.free| > 0 && Add(a.free[|a.free| - 1].addr, a.free[|a.free| - 1].size) == Add(a.base, a.size)
  }

  /** Creating the area on first use; when no list node can be allocated the
      area is removed again, but its handle stays set. */
  function Init(a: Area, env: Env): (Area, bool) {
    if env.created.None? then (a, false)
    else
      var made := a.(ready := true, base := env.created.value, size := INIT_DA_SIZE);
      if env.room then (made.(free := a.free + [Block(made.base, INIT_DA_SIZE)]), true)
      else (made.(removed := true), false)
  }

  /** Whether OS_ChangeDynamicArea succeeds. Its amount is signed: from 2^31 on
      the area shrinks, by at most all it has. */
  predicate Obeys(env: Env, removed: bool, size: word, amount: word) {
    && env.granted && !removed
    && if amount < 0x8000_0000 then size + amount <= MAX_DA_SIZE else WORDS - amount <= size
  }

  /** Extending the area when no free block is large enough. */
  function Grow(a: Area, size: word, env: Env): (Area, word) {
    if FreeAtEnd(a) then
      var i := |a.free| - 1;
      var last := a.free[i];
      var inc := PageUp(Sub(size, last.size));
      if !Obeys(env, a.removed, a.size, inc) then (a, 0)
      else
        var a' := a.(size := Add(a.size, inc));
        if Sub(Add(last.size, inc), size) == 0 then (a'.(free := a.free[..i]), last.addr)
        else (a'.(free := a.free[i := Block(Add(last.addr, size), Add(last.size, Sub(inc, size)))]), last.addr)
    else
      var inc := PageUp(size);
      if !Obeys(env, a.removed, a.size, inc) then (a, 0)
      else
        var a' := a.(size := Add(a.size, inc));
        var ptr := Add(a.base, a.size);
        if Sub(inc, size) == 0 then (a', ptr)
        else if !env.room then (a', 0)
        else (a'.(free := a.free + [Block(Add(ptr, size), Sub(inc, size))]), ptr)
  }

  /** mono_riscos_memory_alloc: exact fit, then first fit, then growth. 0 is NULL. */
  function Alloc(a0: Area, size: word, env: Env): (Area, word) {
    var (a, ok) := if a0.ready then (a0, true) else Init(a0, env);
    if !ok then (a, 0)
    else
      var e := FindExact(a.free, size);
      if e < |a.free| then (a.(free := a.free[..e] + a.free[e + 1..]), a.free[e].addr)
      else
        var f := FindFit(a.free, size);
        if f < |a.free| then
          var b := a.free[f];
          (a.(free := a.free[f := Block(Add(b.addr, size), Sub(b.size, size))]), b.addr)
        else Grow(a, size, env)
  }

  predicate Refused(a: Area, addr: word, len: word) {
    addr == 0 || len == 0 || addr < a.base || addr >= Add(a.base, a.size)
  }

  /** The free list with [addr, addr + len) put back: merged with the block
      after it, the block before it, both, or inserted on its own. */
  function PutBack(free: seq<Block>, addr: word, len: word): seq<Block> {
    var i := FindAbove(free, addr);
    if i == |free| then free + [Block(addr, len)]
    else
      var next := Add(addr, len) == free[i].addr;
      var prev := i > 0 && Add(free[i - 1].addr, free[i - 1].size) == addr;
      if next && prev then
        free[..i - 1] + [Block(free[i - 1].addr, Add(Add(free[i - 1].size, len), free[i].size))] + free[i + 1..]
      else if next then free[i := Block(addr, Add(free[i].size, len))]
      else if prev then free[i - 1 := Block(free[i - 1].addr, Add(free[i - 1].size, len))]
      else free[..i] + [Block(addr, len)] + free[i..]
  }

  /** Whether putting a block back takes a new list node. */
  predicate NeedsNode(free: seq<Block>, addr: word, len: word) {
    |PutBack(free, addr, len)| == |free| + 1
  }

  /** mono_riscos_memory_free; true is the original's 0. */
  function Free(a: Area, addr: word, len: word, env: Env): (Area, bool) {
    if Refused(a, addr, len) then (a, false)
    else if NeedsNode(a.free, addr, len) && !env.room then (a, false)
    else (a.(free := PutBack(a.free, addr, len)), true)
  }
}
