/** riscos-memory.c as it runs: the doubly linked list of free blocks, relinked
    and resized in place, tied call by call to FreeListSpec. */
module FreeList {
  import opened FreeListSpec
  import opened FreeListProofs

  class Node {
    var prev: Node?
    var next: Node?
    var addr: word
    var size: word

    constructor (addr: word, size: word)
      ensures this.addr == addr && this.size == size
    {
      this.prev, this.next := null, null;
      this.addr, this.size := addr, size;
    }
  }

  class Allocator {
    // free_list
    var first: Node?
    var last: Node?
    var count: int
    // mono_da
    var handle: int
    var base: word
    var size: word
    // the operating system's side: the dynamic area has been removed
    var removed: bool
    // the nodes from first to last
    ghost var nodes: seq<Node>

    static ghost predicate Distinct(s: seq<Node>) {
      forall i, j :: 0 <= i < j < |s| ==> s[i] != s[j]
    }

    static lemma Differ(s: seq<Node>, i: nat, j: nat)
      requires Distinct(s) && i < |s| && j < |s|
      ensures s[i] == s[j] <==> i == j
    {
    }

    ghost function Before(i: int): Node?
      reads this
    {
      if 0 < i <= |nodes| then nodes[i - 1] else null
    }

    ghost function After(i: int): Node?
      reads this
    {
      if -1 <= i < |nodes| - 1 then nodes[i + 1] else null
    }

    /** first, last, count and the links of every node agree with `nodes`. */
    ghost predicate Linked()
      reads this, nodes
    {
      && count == |nodes|
      && Distinct(nodes)
      && first == After(-1) && last == Before(|nodes|)
      && (forall i {:trigger nodes[i].prev} :: 0 <= i < |nodes| ==> nodes[i].prev == Before(i))
      && (forall i {:trigger nodes[i].next} :: 0 <= i < |nodes| ==> nodes[i].next == After(i))
    }

    ghost function Blocks(): (r: seq<Block>)
      reads this, nodes
      ensures |r| == |nodes|
    {
      seq(|nodes|, i requires 0 <= i < |nodes| reads this, nodes => Block(nodes[i].addr, nodes[i].size))
    }

    ghost function Value(): Area
      reads this, nodes
    {
      Area(handle >= 0, removed, base, size, Blocks())
    }

    constructor ()
      ensures Linked() && Value() == Unused && nodes == []
    {
      first, last, count := null, null, 0;
      handle, base, size := -1, 0, 0;
      removed := false;
      nodes := [];
    }

    // --------------------------------------------------- list operations

    method AddToEnd(link: Node)
      requires Linked() && link !in nodes
      modifies `first, `last, `count, `nodes, link`prev, link`next, nodes`next
      ensures Linked() && nodes == old(nodes) + [link]
    {
      var oldlast := last;
      link.next := null;
      link.prev := oldlast;
      if oldlast == null {
        first := link;
      } else {
        oldlast.next := link;
      }
      last := link;
      count := count + 1;
      nodes := nodes + [link];
    }

    method AddToFront(link: Node)
      requires Linked() && link !in nodes
      modifies `first, `last, `count, `nodes, link`prev, link`next, nodes`prev
      ensures Linked() && nodes == [link] + old(nodes)
    {
      var oldfirst := first;
      link.next := oldfirst;
      link.prev := null;
      if oldfirst == null {
        last := link;
      } else {
        oldfirst.prev := link;
      }
      first := link;
      count := count + 1;
      nodes := [link] + nodes;
    }
  
    method AddBefore(at: Node, link: Node, ghost k: nat)
      requires Linked() && link !in nodes && k < |nodes| && at == nodes[k]
      modifies `first, `last, `count, `nodes, link`prev, link`next, nodes`prev, nodes`next
      ensures Linked() && nodes == old(nodes)[..k] + [link] + old(nodes)[k..]
    {
      var oldprev := at.prev;
      if oldprev == null {
        AddToFront(link);
        assert nodes == old(nodes)[..k] + [link] + old(nodes)[k..];
      } else {
        oldprev.next := link;
        link.prev := oldprev;
        at.prev := link;
        link.next := at;
        count := count + 1;
        ghost var was := nodes;
        nodes := nodes[..k] + [link] + nodes[k..];
        InsertKeepsDistinct(was, k, link);
        hide Distinct;
        forall i | 0 <= i < |nodes| ensures nodes[i].prev == Before(i) && nodes[i].next == After(i) {
          if i != k {
            var i' := if i < k then i else i - 1;
            assert nodes[i] == was[i'];
            Differ(was, i', k);
            Differ(was, i', k - 1);
          }
        }
      }
    }

    static lemma InsertKeepsDistinct(was: seq<Node>, k: nat, link: Node)
      requires Distinct(was) && link !in was && k <= |was|
      ensures Distinct(was[..k] + [link] + was[k..])
    {
      var s := was[..k] + [link] + was[k..];
      forall i | 0 <= i < |s| ensures s[i] == if i < k then was[i] else if i == k then link else was[i - 1] {}
    }

    method Remove(link: Node, ghost k: nat)
      requires Linked() && k < |nodes| && link == nodes[k]
      modifies `first, `last, `count, `nodes, nodes`prev, nodes`next
      ensures Linked() && nodes == old(nodes)[..k] + old(nodes)[k + 1..]
    {
      ghost var was := nodes;
      LinksAre();
      Apart(k);
      hide Distinct, Linked;
      var next := link.next;
      var prev := link.prev;
      if next == null {
        last := prev;
      } else {
        next.prev := prev;
      }
      if prev == null {
        first := next;
      } else {
        prev.next := next;
      }
      link.next, link.prev := null, null;
      count := count - 1;
      nodes := nodes[..k] + nodes[k + 1..];
      Unlinked(was, k);
    }

    /** Every node's links, by position. */
    lemma LinksAre()
      requires Linked()
      ensures forall i {:trigger nodes[i].prev} :: 0 <= i < |nodes| ==> nodes[i].prev == NodeAt(nodes, i - 1)
      ensures forall i {:trigger nodes[i].next} :: 0 <= i < |nodes| ==> nodes[i].next == NodeAt(nodes, i + 1)
      ensures first == NodeAt(nodes, 0) && last == NodeAt(nodes, |nodes| - 1)
      ensures count == |nodes| && Distinct(nodes)
    {
    }

    /** Node k and its neighbours occur nowhere else. */
    lemma Apart(k: nat)
      requires Distinct(nodes) && k < |nodes|
      ensures forall i :: 0 <= i < |nodes| ==> (nodes[i] == nodes[k] <==> i == k)
      ensures k + 1 < |nodes| ==> forall i :: 0 <= i < |nodes| ==> (nodes[i] == nodes[k + 1] <==> i == k + 1)
      ensures k > 0 ==> forall i :: 0 <= i < |nodes| ==> (nodes[i] == nodes[k - 1] <==> i == k - 1)
    {
    }

    /** All links are those of the list `was`, except that node k is bypassed. */
    ghost predicate Bypassed(was: seq<Node>, k: nat)
      reads was
    {
      && k < |was|
      && (forall i {:trigger was[i].prev} :: 0 <= i < |was| && i != k ==>
            was[i].prev == NodeAt(was, if i == k + 1 then k - 1 else i - 1))
      && (forall i {:trigger was[i].next} :: 0 <= i < |was| && i != k ==>
            was[i].next == NodeAt(was, if i == k - 1 then k + 1 else i + 1))
    }

    static ghost function NodeAt(was: seq<Node>, i: int): Node? {
      if 0 <= i < |was| then was[i] else null
    }

    static lemma Shifted(was: seq<Node>, k: nat, i: int)
      requires k < |was|
      ensures NodeAt(was[..k] + was[k + 1..], i) == NodeAt(was, if i < k then i else i + 1)
    {
    }

    lemma UnlinkedAt(was: seq<Node>, k: nat, i: nat)
      requires Bypassed(was, k) && nodes == was[..k] + was[k + 1..] && i < |nodes|
      ensures nodes[i].prev == Before(i) && nodes[i].next == After(i)
    {
      Shifted(was, k, i - 1);
      Shifted(was, k, i);
      Shifted(was, k, i + 1);
      var n := was[if i < k then i else i + 1];
      assert n == nodes[i];
      assert Before(i) == NodeAt(nodes, i - 1) && After(i) == NodeAt(nodes, i + 1);
    }

    lemma Unlinked(was: seq<Node>, k: nat)
      requires Bypassed(was, k) && nodes == was[..k] + was[k + 1..]
      requires Distinct(was)
      requires first == NodeAt(was, if k > 0 then 0 else 1)
      requires last == NodeAt(was, if k + 1 < |was| then |was| - 1 else k - 1)
      requires count == |nodes|
      ensures Linked()
    {
      EndsWithout(was, k);
      assert After(-1) == NodeAt(nodes, 0) && Before(|nodes|) == NodeAt(nodes, |nodes| - 1);
      hide NodeAt, Before, After, Bypassed, Distinct;
      forall i | 0 <= i < |nodes| ensures nodes[i].prev == Before(i) && nodes[i].next == After(i) {
        UnlinkedAt(was, k, i);
      }
      DistinctWithout(was, k);
    }

    static lemma EndsWithout(was: seq<Node>, k: nat)
      requires k < |was|
      ensures var s := was[..k] + was[k + 1..];
        && NodeAt(s, 0) == NodeAt(was, if k > 0 then 0 else 1)
        && NodeAt(s, |s| - 1) == NodeAt(was, if k + 1 < |was| then |was| - 1 else k - 1)
    {
    }

    static lemma DistinctWithout(was: seq<Node>, k: nat)
      requires k < |was|
      requires Distinct(was)
      ensures Distinct(was[..k] + was[k + 1..])
    {
      var s := was[..k] + was[k + 1..];
      forall i, j | 0 <= i < j < |s| ensures s[i] != s[j] {
        Shifted(was, k, i);
        Shifted(was, k, j);
      }
    }

    // -------------------------------------------------------- the searches

    method SearchExact(wanted: word) returns (mn: Node?, ghost i: nat)
      requires Linked()
      ensures i == FreeListSpec.FindExact(Blocks(), wanted) <= |nodes|
      ensures mn == var k := FreeListSpec.FindExact(Blocks(), wanted); if k == |nodes| then null else nodes[k]
    {
      mn, i := first, 0;
      while mn != null && wanted != mn.size
        invariant 0 <= i <= |nodes| && mn == (if i == |nodes| then null else nodes[i])
        invariant FreeListSpec.FindExact(Blocks(), wanted) == FreeListSpec.FindExact(Blocks(), wanted, i)
        decreases |nodes| - i
      {
        mn := mn.next;
        i := i + 1;
      }
    }

    method SearchFit(wanted: word) returns (mn: Node?, ghost i: nat)
      requires Linked()
      ensures i == FindFit(Blocks(), wanted) <= |nodes|
      ensures mn == var k := FindFit(Blocks(), wanted); if k == |nodes| then null else nodes[k]
    {
      mn, i := first, 0;
      while mn != null && wanted > mn.size
        invariant 0 <= i <= |nodes| && mn == (if i == |nodes| then null else nodes[i])
        invariant FindFit(Blocks(), wanted) == FindFit(Blocks(), wanted, i)
        decreases |nodes| - i
      {
        mn := mn.next;
        i := i + 1;
      }
    }

    method SearchAbove(addr: word) returns (mn: Node?, ghost i: nat)
      requires Linked()
      ensures i == FindAbove(Blocks(), addr) <= |nodes|
      ensures mn == var k := FindAbove(Blocks(), addr); if k == |nodes| then null else nodes[k]
    {
      mn, i := first, 0;
      while mn != null && addr >= mn.addr
        invariant 0 <= i <= |nodes| && mn == (if i == |nodes| then null else nodes[i])
        invariant FindAbove(Blocks(), addr) == FindAbove(Blocks(), addr, i)
        decreases |nodes| - i
      {
        mn := mn.next;
        i := i + 1;
      }
    }
  
    // ---------------------------------------------------------- allocation

    /** Taking node k out of the list takes block k out of its value. */
    method TakeOut(link: Node, ghost k: nat)
      requires Linked() && k < |nodes| && link == nodes[k]
      modifies `first, `last, `count, `nodes, nodes`prev, nodes`next
      ensures Linked()
      ensures nodes == old(nodes)[..k] + old(nodes)[k + 1..]
      ensures Blocks() == old(Blocks())[..k] + old(Blocks())[k + 1..]
    {
      Remove(link, k);
      forall i | 0 <= i < |nodes| ensures nodes[i] == old(nodes)[if i < k then i else i + 1] {}
    }

    /** Resizing node k in place. */
    method Resize(link: Node, addr: word, len: word, ghost k: nat)
      requires Linked() && k < |nodes| && link == nodes[k]
      modifies link`addr, link`size
      ensures Linked()
      ensures Blocks() == old(Blocks())[k := Block(addr, len)]
    {
      link.addr, link.size := addr, len;
    }

    /** A new node at the end of the list. */
    method Append(addr: word, len: word)
      requires Linked()
      modifies `first, `last, `count, `nodes, nodes`prev, nodes`next
      ensures Linked() && fresh(set n | n in nodes && n !in old(nodes))
      ensures Blocks() == old(Blocks()) + [Block(addr, len)]
    {
      var mn := new Node(addr, len);
      AddToEnd(mn);
    }

    /** mono_riscos_memory_allocator_init. */
    method InitArea(env: Env) returns (ok: bool)
      requires Linked() && handle < 0
      modifies this, nodes
      ensures Linked() && fresh(set n | n in nodes && n !in old(nodes))
      ensures (Value(), ok) == Init(old(Value()), env)
      ensures ok ==> handle >= 0
    {
      if env.created.None? {
        return false;
      }
      handle := 0;
      base := env.created.value;
      size := INIT_DA_SIZE;
      assert Blocks() == old(Blocks());
      if env.room {
        Append(base, INIT_DA_SIZE);
        return true;
      }
      removed := true;
      assert Blocks() == old(Blocks());
      return false;
    }

    /** The extension of the area when the list has no block for the request. */
    method GrowFor(wanted: word, env: Env) returns (ptr: word)
      requires Linked()
      modifies this, nodes
      ensures Linked() && fresh(set n | n in nodes && n !in old(nodes))
      ensures (Value(), ptr) == Grow(old(Value()), wanted, env)
    {
      LastBlock();
      hide Add, Sub, PageUp, Linked, Grow, Blocks;
      if last != null && Add(last.addr, last.size) == Add(base, size) {
        ptr := ExtendTail(wanted, env);
      } else {
        ptr := ExtendArea(wanted, env);
      }
    }

    lemma LastBlock()
      requires Linked()
      ensures last == null <==> nodes == []
      ensures last != null ==> last == nodes[|nodes| - 1] && Blocks()[|nodes| - 1] == Block(last.addr, last.size)
    {
    }

    /** The last free block lies at the end of the area and grows with it. */
    method ExtendTail(wanted: word, env: Env) returns (ptr: word)
      requires Linked() && last != null && FreeAtEnd(Value())
      modifies this, nodes
      ensures Linked() && fresh(set n | n in nodes && n !in old(nodes))
      ensures (Value(), ptr) == Grow(old(Value()), wanted, env)
    {
      LastBlock();
      ghost var was := Value();
      ghost var k := |nodes| - 1;
      hide Add, Sub, PageUp, FreeAtEnd;
      var inc := PageUp(Sub(wanted, last.size));
      if !Obeys(env, removed, size, inc) {
        return 0;
      }
      size := Add(size, inc);
      assert Blocks() == was.free;
      ptr := last.addr;
      if Sub(Add(last.size, inc), wanted) == 0 {
        TakeOut(last, k);
        assert was.free[..k] + was.free[k + 1..] == was.free[..k];
      } else {
        Resize(last, Add(last.addr, wanted), Add(last.size, Sub(inc, wanted)), k);
      }
    }

    /** The request gets fresh pages, and a new free block gets what is left of them. */
    method ExtendArea(wanted: word, env: Env) returns (ptr: word)
      requires Linked() && !FreeAtEnd(Value())
      modifies this, nodes
      ensures Linked() && fresh(set n | n in nodes && n !in old(nodes))
      ensures (Value(), ptr) == Grow(old(Value()), wanted, env)
    {
      ghost var was := Value();
      hide Add, Sub, PageUp, FreeAtEnd;
      var oldSize := size;
      var inc := PageUp(wanted);
      if !Obeys(env, removed, size, inc) {
        return 0;
      }
      size := Add(size, inc);
      assert Blocks() == was.free;
      ptr := Add(base, oldSize);
      if Sub(inc, wanted) > 0 {
        if !env.room {
          return 0;
        }
        Append(Add(ptr, wanted), Sub(inc, wanted));
      }
    }

    /** mono_riscos_memory_alloc. */
    method Allocate(wanted: word, env: Env) returns (ptr: word)
      requires Linked()
      modifies this, nodes
      ensures Linked() && fresh(set n | n in nodes && n !in old(nodes))
      ensures (Value(), ptr) == Alloc(old(Value()), wanted, env)
    {
      hide Add, Sub, Grow, Init;
      if handle < 0 {
        var ok := InitArea(env);
        if !ok {
          return 0;
        }
      }
      ptr := AllocateReady(wanted, env);
    }

    method AllocateReady(wanted: word, env: Env) returns (ptr: word)
      requires Linked() && handle >= 0
      modifies this, nodes
      ensures Linked() && fresh(set n | n in nodes && n !in old(nodes))
      ensures (Value(), ptr) == Alloc(old(Value()), wanted, env)
    {
      hide Add, Sub, Grow, FindExact, FindFit, Linked;
      var mn, e := SearchExact(wanted);
      if mn != null {
        ptr := mn.addr;
        TakeOut(mn, e);
      } else {
        ghost var f;
        mn, f := SearchFit(wanted);
        if mn != null {
          ptr := mn.addr;
          Resize(mn, Add(mn.addr, wanted), Sub(mn.size, wanted), f);
        } else {
          ptr := GrowFor(wanted, env);
        }
      }
    }

    // -------------------------------------------------------------- freeing

    /** mono_riscos_memory_free. */
    method Release(addr: word, len: word, env: Env) returns (ok: bool)
      requires Linked()
      modifies this, nodes
      ensures Linked() && fresh(set n | n in nodes && n !in old(nodes))
      ensures (Value(), ok) == Free(old(Value()), addr, len, env)
    {
      if addr == 0 || len == 0 || addr < base || addr >= Add(base, size) {
        return false;
      }
      hide Add, PutBack;
      var search, i := SearchAbove(addr);
      PutBackAtEnd(Blocks(), addr, len);
      if search == null {
        if !env.room {
          return false;
        }
        Append(addr, len);
        return true;
      }
      ok := PutBackBefore(search, addr, len, env, i);
    }

    /** The part of a release that finds a block above the freed range. */
    method PutBackBefore(search: Node, addr: word, len: word, env: Env, ghost i: nat) returns (ok: bool)
      requires Linked() && i < |nodes| && search == nodes[i] && i == FindAbove(Blocks(), addr)
      modifies this`first, this`last, this`count, this`nodes, nodes
      ensures Linked() && fresh(set n | n in nodes && n !in old(nodes))
      ensures ok == (env.room || !NeedsNode(old(Blocks()), addr, len))
      ensures Blocks() == if ok then PutBack(old(Blocks()), addr, len) else old(Blocks())
    {
      hide Add, Sub, FindAbove, Linked, Blocks, PutBack, NeedsNode;
      ghost var was := Blocks();
      Neighbours(i);
      var prev := search.prev;
      var merges := 0;
      if Add(addr, len) == search.addr {
        Resize(search, addr, Add(search.size, len), i);
        merges := merges + 1;
      }
      Neighbours(i);
      if prev != null && Add(prev.addr, prev.size) == addr {
        Resize(prev, prev.addr, Add(prev.size, len), i - 1);
        merges := merges + 1;
      }
      PutBackIs(was, addr, len);
      if merges == 0 {
        if !env.room {
          return false;
        }
        Insert(search, addr, len, i);
      } else if merges == 2 {
        AddThenSub(was[i].size, len);
        Neighbours(i);
        Resize(prev, prev.addr, Add(prev.size, Sub(search.size, len)), i - 1);
        TakeOut(search, i);
        BothMerged(was, i, Block(addr, Add(was[i].size, len)), Block(was[i - 1].addr, Add(was[i - 1].size, len)),
          Block(was[i - 1].addr, Add(Add(was[i - 1].size, len), was[i].size)));
      }
      return true;
    }

    /** What the links and the value say about node i and the one before it. */
    lemma Neighbours(i: nat)
      requires Linked() && i < |nodes|
      ensures nodes[i].prev == (if i > 0 then nodes[i - 1] else null)
      ensures Blocks()[i] == Block(nodes[i].addr, nodes[i].size)
      ensures i > 0 ==> nodes[i - 1] != nodes[i] && Blocks()[i - 1] == Block(nodes[i - 1].addr, nodes[i - 1].size)
    {
    }

    /** A new node in front of node k. */
    method Insert(at: Node, addr: word, len: word, ghost k: nat)
      requires Linked() && k < |nodes| && at == nodes[k]
      modifies `first, `last, `count, `nodes, nodes`prev, nodes`next
      ensures Linked() && fresh(set n | n in nodes && n !in old(nodes))
      ensures Blocks() == old(Blocks())[..k] + [Block(addr, len)] + old(Blocks())[k..]
    {
      hide Linked;
      ghost var was, before := nodes, Blocks();
      var mn := new Node(addr, len);
      AddBefore(at, mn, k);
      forall i | 0 <= i < |nodes|
        ensures Blocks()[i] == (before[..k] + [Block(addr, len)] + before[k..])[i]
      {
        if i < k {
          assert nodes[i] == was[i];
        } else if i > k {
          assert nodes[i] == was[i - 1];
        }
      }
    }
  }

  /** A whole run of calls on the linked list: it stays well formed, ends with
      the list that the run on values ends with and gives the same answers; in
      an allowed run every block handed out is clear of all that was live. */
  method Serve(calls: seq<Call>) returns (al: Allocator, answers: seq<word>)
    ensures al.Linked() && al.Value() == RunFrom(Start, calls).area
    ensures |answers| == |calls|
    ensures forall k :: 0 <= k < |calls| ==> answers[k] == Answer(RunFrom(Start, calls[..k]).area, calls[k])
    ensures AllowedRun(Start, calls) ==>
      forall k :: 0 <= k < |calls| && calls[k].op.AllocOp? && answers[k] != 0 ==>
        RunFrom(Start, calls[..k]).live !! Range(answers[k], calls[k].op.size)
  {
    hide *;
    al := new Allocator();
    answers := [];
    NoCalls(calls);
    for i := 0 to |calls|
      invariant fresh(al) && fresh(set n | n in al.nodes)
      invariant al.Linked() && al.Value() == RunFrom(Start, calls[..i]).area
      invariant |answers| == i
      invariant forall k :: 0 <= k < i ==> answers[k] == Answer(RunFrom(Start, calls[..k]).area, calls[k])
    {
      ghost var s := RunFrom(Start, calls[..i]);
      var answer := Perform(al, calls[i]);
      answers := answers + [answer];
      RunExtends(Start, calls[..i], calls[i]);
      AreaAfter(s, calls[i]);
      assert calls[..i + 1] == calls[..i] + [calls[i]];
    }
    assert calls[..|calls|] == calls;
    if AllowedRun(Start, calls) {
      forall k | 0 <= k < |calls| && calls[k].op.AllocOp? && answers[k] != 0
        ensures RunFrom(Start, calls[..k]).live !! Range(answers[k], calls[k].op.size)
      {
        EveryBlockIsClear(calls, k);
        HandedIs(RunFrom(Start, calls[..k]), calls[k]);
      }
    }
  }

  /** One call. */
  method Perform(al: Allocator, c: Call) returns (answer: word)
    requires al.Linked()
    modifies al, al.nodes
    ensures al.Linked() && fresh(set n | n in al.nodes && n !in old(al.nodes))
    ensures answer == Answer(old(al.Value()), c)
    ensures c.op.AllocOp? ==> al.Value() == Alloc(old(al.Value()), c.op.size, c.env).0
    ensures c.op.FreeOp? ==> al.Value() == Free(old(al.Value()), c.op.addr, c.op.len, c.env).0
  {
    hide Alloc, Free;
    match c.op
    case AllocOp(size) =>
      answer := al.Allocate(size, c.env);
    case FreeOp(addr, len) =>
      var ok := al.Release(addr, len, c.env);
      answer := if ok then 1 else 0;
  }

  lemma NoCalls(calls: seq<Call>)
    ensures RunFrom(Start, calls[..0]) == Start && Start.area == Unused
  {
  }

  lemma HandedIs(s: State, c: Call)
    requires c.op.AllocOp? && Answer(s.area, c) != 0
    ensures Handed(s, c) == Range(Answer(s.area, c), c.op.size)
  {
    hide Alloc;
  }

  lemma AddThenSub(a: word, b: word)
    ensures Sub(Add(a, b), b) == a
  {
  }

  lemma BothMerged(was: seq<Block>, i: nat, b: Block, c: Block, d: Block)
    requires 0 < i < |was|
    ensures var f := was[i := b][i - 1 := c][i - 1 := d];
      f[..i] + f[i + 1..] == was[..i - 1] + [d] + was[i + 1..]
  {
  }
}
