/** Growth and alignment of an area's image in the assembler (area.c), whatever
    the memory allocator answers. */
module AreaImage {

  type byte = x: int | 0 <= x < 256

  const DOUBLE_UP_TO: nat := 128 * 1024
  const GROWSIZE: nat := 16 * 1024
  const WORDS: nat := 0x1_0000_0000

  ghost predicate IsPowerOfTwo(a: nat) {
    a == 1 || (a > 1 && a % 2 == 0 && IsPowerOfTwo(a / 2))
  }

  /** Bitwise and. */
  function BitAnd(a: nat, b: nat): (r: nat)
    ensures r <= a
  {
    if a == 0 then 0 else (if b % 2 == 0 then 0 else a % 2) + 2 * BitAnd(a / 2, b / 2)
  }

  function Wrapped(n: nat): (r: nat)
    ensures r < WORDS
  {
    n % WORDS
  }

  lemma WrappedIs(n: nat)
    requires n < 2 * WORDS
    ensures Wrapped(n) == if n < WORDS then n else n - WORDS
  {
  }

  /** (offset + align - 1) & -align in 32 bits. */
  function AlignUp(offset: nat, align: nat): nat
    requires 0 < align <= WORDS
  {
    BitAnd(Wrapped(offset + align - 1), WORDS - align)
  }

  function Power(w: nat): nat {
    if w == 0 then 1 else 2 * Power(w - 1)
  }

  lemma PowerIsWords()
    ensures Power(32) == WORDS
  {
    assert Power(8) == 256;
    assert Power(16) == 0x1_0000;
    assert Power(24) == 0x100_0000;
  }

  function Rest(n: nat, d: nat): nat
    requires d > 0
  {
    n % d
  }

  /** The mask of a power of two takes the remainder away. */
  lemma {:induction false} MaskClears(n: nat, align: nat, w: nat)
    requires IsPowerOfTwo(align) && align <= Power(w) && n < Power(w)
    ensures BitAnd(n, Power(w) - align) == n - Rest(n, align)
    decreases w
  {
    hide Rest, BitAnd;
    if w == 0 {
      BitAndSteps(0, 0);
      RestSmall(n, align);
    } else if align == 1 {
      BitAndSteps(n, Power(w - 1) - 1);
      MaskClears(n / 2, 1, w - 1);
      RestOne(n);
      RestOne(n / 2);
    } else {
      BitAndSteps(n, Power(w - 1) - align / 2);
      MaskClears(n / 2, align / 2, w - 1);
      RestHalves(n, align / 2);
    }
  }

  /** One bit of the bitwise and. */
  lemma BitAndSteps(n: nat, m: nat)
    ensures BitAnd(n, 2 * m) == 2 * BitAnd(n / 2, m)
    ensures BitAnd(n, 2 * m + 1) == n % 2 + 2 * BitAnd(n / 2, m)
    ensures BitAnd(0, m) == 0
  {
    hide BitAnd;
    BitAndUnfolds(n, 2 * m, m, 0);
    BitAndUnfolds(n, 2 * m + 1, m, 1);
    BitAndUnfolds(0, m, m / 2, m % 2);
  }

  lemma {:induction false} BitAndUnfolds(n: nat, b: nat, m: nat, bit: nat)
    requires b == 2 * m + bit && bit < 2
    ensures BitAnd(n, b) == (if bit == 0 then 0 else n % 2) + 2 * BitAnd(n / 2, m)
    ensures n == 0 ==> BitAnd(n, b) == 0
  {
    assert b / 2 == m && b % 2 == bit;
    if n == 0 {
      assert n / 2 == 0;
    }
  }

  lemma RestSmall(n: nat, d: nat)
    requires n < d
    ensures Rest(n, d) == n
  {
  }

  lemma RestOne(n: nat)
    ensures Rest(n, 1) == 0
  {
  }

  lemma RestHalves(n: nat, a: nat)
    requires a > 0
    ensures Rest(n, 2 * a) == 2 * Rest(n / 2, a) + n % 2
  {
    var k := Quotient(n / 2, a);
    hide Rest;
    var m := Rest(n / 2, a);
    assert 2 * (k * a) == k * (2 * a);
    RestIs(n, 2 * a, k, 2 * m + n % 2);
  }

  lemma Quotient(n: nat, d: nat) returns (k: nat)
    requires d > 0
    ensures n == k * d + Rest(n, d) && Rest(n, d) < d
  {
    k := n / d;
  }

  lemma RestIs(n: nat, d: nat, k: nat, r: nat)
    requires r < d && n == k * d + r
    ensures Rest(n, d) == r
  {
    var q := Quotient(n, d);
    hide Rest;
    if q < k {
      Monotone(q + 1, k, d);
    } else if q > k {
      Monotone(k + 1, q, d);
    }
  }

  lemma AlignUpIs(offset: nat, align: nat)
    requires align <= WORDS && IsPowerOfTwo(align)
    ensures var n := Wrapped(offset + align - 1); AlignUp(offset, align) == n - Rest(n, align)
  {
    hide Rest, BitAnd, Wrapped, Power;
    PowerIsWords();
    MaskClears(Wrapped(offset + align - 1), align, 32);
  }

  ghost predicate IsMultiple(x: nat, align: nat)
    requires align > 0
  {
    exists k: nat :: x == k * align
  }

  ghost predicate IsLeastMultiple(x: nat, offset: nat, align: nat)
    requires align > 0
  {
    && IsMultiple(x, align) && x >= offset
    && forall y: nat :: IsMultiple(y, align) && y >= offset ==> x <= y
  }

  lemma NoMultipleBetween(j: nat, k: nat, align: nat, offset: nat)
    requires align > 0 && k * align < offset + align && j * align >= offset
    ensures k * align <= j * align
  {
    if j < k {
      Monotone(j + 1, k, align);
    } else {
      Monotone(k, j, align);
    }
  }

  lemma Monotone(a: nat, b: nat, align: nat)
    requires a <= b
    ensures a * align <= b * align
    ensures a >= 1 ==> a * align == (a - 1) * align + align
  {
    assert b * align == a * align + (b - a) * align;
  }

  /** The result is the least multiple at or above the offset exactly when the
      sum does not leave 32 bits; beyond that it is 0. */
  lemma AlignUpMeaning(offset: nat, align: nat)
    requires align < WORDS && IsPowerOfTwo(align) && offset < WORDS
    ensures IsLeastMultiple(AlignUp(offset, align), offset, align) <==> offset + align - 1 < WORDS
    ensures offset + align - 1 >= WORDS ==> AlignUp(offset, align) == 0
  {
    hide AlignUp, IsPowerOfTwo, IsLeastMultiple;
    if offset + align - 1 < WORDS {
      AlignsBelow(offset, align);
    } else {
      AlignsToZero(offset, align);
      NotAbove(offset, align);
    }
  }

  lemma AlignsBelow(offset: nat, align: nat)
    requires IsPowerOfTwo(align) && align <= WORDS && offset + align - 1 < WORDS
    ensures IsLeastMultiple(AlignUp(offset, align), offset, align)
  {
    AlignUpIs(offset, align);
    hide AlignUp, IsPowerOfTwo, Rest, IsLeastMultiple, Wrapped;
    var n := offset + align - 1;
    WrappedIs(n);
    var k := Quotient(n, align);
    LeastAbove(offset, align, k);
  }

  lemma AlignsToZero(offset: nat, align: nat)
    requires IsPowerOfTwo(align) && align < WORDS && offset < WORDS <= offset + align - 1
    ensures AlignUp(offset, align) == 0
  {
    AlignUpIs(offset, align);
    hide AlignUp, IsPowerOfTwo, Rest, Wrapped;
    WrappedIs(offset + align - 1);
    RestSmall(Wrapped(offset + align - 1), align);
  }

  lemma NotAbove(offset: nat, align: nat)
    requires align > 0 && offset > 0
    ensures !IsLeastMultiple(0, offset, align)
  {
  }

  lemma LeastAbove(offset: nat, align: nat, k: nat)
    requires align > 0 && offset <= k * align < offset + align
    ensures IsLeastMultiple(k * align, offset, align)
  {
    var x := k * align;
    assert IsMultiple(x, align);
    forall y: nat | IsMultiple(y, align) && y >= offset ensures x <= y {
      var j: nat :| y == j * align;
      NoMultipleBetween(j, k, align, offset);
    }
  }

  lemma WrappedExample()
    ensures AlignUp(0xffff_fffd, 4) == 0
  {
    assert IsPowerOfTwo(2) && IsPowerOfTwo(4);
    AlignUpMeaning(0xffff_fffd, 4);
  }

  /** What the original tries first: to double small images, else a fixed
      amount; never less than what is needed. */
  function FirstIncrement(imagesize: nat, mingrow: nat): (r: nat)
    ensures r >= mingrow
    ensures 0 < imagesize < 128 * 1024 ==> r == imagesize || (r == mingrow && mingrow > imagesize)
    ensures imagesize == 0 || imagesize >= 128 * 1024 ==> r == 16 * 1024 || (r == mingrow && mingrow > 16 * 1024)
  {
    var r := if imagesize != 0 && imagesize < DOUBLE_UP_TO then imagesize else GROWSIZE;
    if r < mingrow then mingrow else r
  }

  /** n halved k times. */
  function Halved(n: nat, k: nat): nat {
    if k == 0 then n else Halved(n, k - 1) / 2
  }

  lemma {:induction false} HalvedFalls(n: nat, k: nat, j: nat)
    ensures k <= j ==> Halved(n, j) <= Halved(n, k)
    decreases j
  {
    if k < j {
      HalvedFalls(n, k, j - 1);
    }
  }

  /** The first k increments are too large for the allocator. */
  ghost predicate RefusedBefore(size: nat, first: nat, mingrow: nat, grants: nat -> bool, k: nat) {
    forall j :: 0 <= j < k ==> Halved(first, j) > mingrow && !grants(size + Halved(first, j))
  }

  /** Neither the least sufficient size is granted nor any larger one of the sequence. */
  ghost predicate AllRefused(size: nat, first: nat, mingrow: nat, grants: nat -> bool) {
    && !grants(size + mingrow)
    && forall k: nat :: Halved(first, k) > mingrow ==> !grants(size + Halved(first, k))
  }

  /** The new size is the first of the sequence that is granted. */
  ghost predicate FirstGranted(size: nat, first: nat, mingrow: nat, grants: nat -> bool, newsize: nat) {
    && grants(newsize)
    && exists k: nat ::
         && RefusedBefore(size, first, mingrow, grants, k)
         && newsize == size + (if Halved(first, k) > mingrow then Halved(first, k) else mingrow)
  }

  lemma AtFirst(size: nat, first: nat, mingrow: nat, grants: nat -> bool)
    ensures Halved(first, 0) == first && RefusedBefore(size, first, mingrow, grants, 0)
  {
  }

  lemma OneMore(size: nat, first: nat, mingrow: nat, grants: nat -> bool, k: nat)
    requires RefusedBefore(size, first, mingrow, grants, k)
    requires Halved(first, k) > mingrow && !grants(size + Halved(first, k))
    ensures RefusedBefore(size, first, mingrow, grants, k + 1) && Halved(first, k + 1) == Halved(first, k) / 2
  {
  }

  /** The answer at the end of the sequence decides. */
  lemma Decided(size: nat, first: nat, mingrow: nat, grants: nat -> bool, k: nat)
    requires RefusedBefore(size, first, mingrow, grants, k)
    ensures
      var newsize := size + (if Halved(first, k) > mingrow then Halved(first, k) else mingrow);
      && (grants(newsize) ==> FirstGranted(size, first, mingrow, grants, newsize) && !AllRefused(size, first, mingrow, grants))
      && (!grants(newsize) && Halved(first, k) <= mingrow ==> AllRefused(size, first, mingrow, grants))
  {
    if Halved(first, k) <= mingrow && !grants(size + mingrow) {
      forall j: nat | Halved(first, j) > mingrow ensures !grants(size + Halved(first, j)) {
        HalvedFalls(first, k, j);
      }
    }
  }

  class Area {
    const udata: bool
    var image: array<byte>
    var imagesize: nat
    var curIdx: nat

    /** An initialised area has its bytes; an uninitialised one has none. */
    ghost predicate Valid()
      reads this
    {
      && image.Length == imagesize
      && (!udata ==> curIdx <= imagesize)
    }

    /** Area_Create. */
    constructor (udata: bool)
      ensures Valid() && this.udata == udata && imagesize == 0 && curIdx == 0 && fresh(image)
    {
      this.udata := udata;
      image := new byte[0];
      imagesize, curIdx := 0, 0;
    }

    /** Area_Resize with the two assertions of the original as preconditions.
        `grants` is realloc's answer by size; the bytes it adds are arbitrary. */
    method Resize(newsize: nat, grants: nat -> bool) returns (ok: bool)
      requires Valid() && !udata && newsize > imagesize
      modifies `image, `imagesize
      ensures Valid() && ok == grants(newsize)
      ensures ok ==> imagesize == newsize && fresh(image) && image[..old(imagesize)] == old(image[..])
      ensures !ok ==> image == old(image) && imagesize == old(imagesize)
    {
      ok := grants(newsize);
      if !ok {
        return;
      }
      var fill: byte := *;
      var bigger := new byte[newsize](_ => fill);
      forall i | 0 <= i < imagesize {
        bigger[i] := image[i];
      }
      image, imagesize := bigger, newsize;
    }

    /** Area_EnsureExtraSize: room for `mingrow` more bytes, or out of memory. An
        area without room grows by the first granted increment of a halving
        sequence, or at last by `mingrow`; only if all are refused memory is out. */
    method EnsureExtraSize(mingrow: nat, grants: nat -> bool) returns (oom: bool)
      requires Valid()
      modifies `image, `imagesize
      ensures Valid() && imagesize >= old(imagesize)
      ensures image == old(image) || fresh(image)
      ensures image[..old(imagesize)] == old(image[..])
      ensures udata || curIdx + mingrow <= old(imagesize) ==> !oom && imagesize == old(imagesize)
      ensures !udata && curIdx + mingrow > old(imagesize) ==>
        var inc := FirstIncrement(old(imagesize), mingrow);
        && (oom <==> AllRefused(old(imagesize), inc, mingrow, grants))
        && (if oom then imagesize == old(imagesize) else FirstGranted(old(imagesize), inc, mingrow, grants, imagesize))
      ensures !oom && !udata ==> curIdx + mingrow <= imagesize
    {
      if udata || curIdx + mingrow <= imagesize {
        return false;
      }
      var inc := if imagesize != 0 && imagesize < DOUBLE_UP_TO then imagesize else GROWSIZE;
      if inc < mingrow {
        inc := mingrow;
      }
      assert inc == FirstIncrement(imagesize, mingrow);
      oom := Grow(inc, mingrow, grants);
    }

    /** The loop of Area_EnsureExtraSize and the last request behind it. */
    method Grow(first: nat, mingrow: nat, grants: nat -> bool) returns (oom: bool)
      requires Valid() && !udata && first >= mingrow && curIdx + mingrow > imagesize
      modifies `image, `imagesize
      ensures Valid() && imagesize >= old(imagesize)
      ensures image == old(image) || fresh(image)
      ensures image[..old(imagesize)] == old(image[..])
      ensures oom <==> AllRefused(old(imagesize), first, mingrow, grants)
      ensures if oom then imagesize == old(imagesize) else FirstGranted(old(imagesize), first, mingrow, grants, imagesize)
      ensures !oom ==> curIdx + mingrow <= imagesize
    {
      hide AllRefused, FirstGranted, RefusedBefore, Halved;
      ghost var size, k := imagesize, 0;
      var inc, done := first, false;
      AtFirst(size, first, mingrow, grants);
      while inc > mingrow && !done
        invariant inc == Halved(first, k) && RefusedBefore(size, first, mingrow, grants, k)
        invariant Valid() && (!done ==> image == old(image) && imagesize == size)
        invariant done ==> inc > mingrow && fresh(image) && imagesize == size + inc && image[..size] == old(image[..])
        invariant done ==> grants(imagesize)
        decreases !done, inc
      {
        done := Resize(imagesize + inc, grants);
        if !done {
          OneMore(size, first, mingrow, grants, k);
          inc := inc / 2;
          k := k + 1;
        }
      }
      oom := false;
      if inc <= mingrow {
        var ok := Resize(imagesize + mingrow, grants);
        oom := !ok;
      }
      Decided(size, first, mingrow, grants, k);
    }

    /** Area_AlignOffset. */
    method AlignOffset(offset: nat, align: nat, grants: nat -> bool) returns (newOffset: nat, oom: bool)
      requires Valid() && offset < WORDS && align < WORDS && IsPowerOfTwo(align)
      modifies this, image
      ensures Valid() && newOffset == AlignUp(offset, align)
      ensures !oom ==> curIdx == if old(curIdx) < newOffset then newOffset else old(curIdx)
      ensures oom ==> curIdx == old(curIdx) && imagesize == old(imagesize)
      ensures oom <==>
        && !udata && old(imagesize) < newOffset
        && var need := newOffset - old(curIdx);
           AllRefused(old(imagesize), FirstIncrement(old(imagesize), need), need, grants)
      ensures imagesize >= old(imagesize)
      ensures !udata ==> image[..old(curIdx)] == old(image[..curIdx])
      ensures !udata && !oom ==> forall k :: old(curIdx) <= k < newOffset ==> image[k] == 0
    {
      oom := false;
      newOffset := AlignUp(offset, align);
      if curIdx < newOffset {
        if !udata {
          ghost var was := image[..curIdx];
          oom := EnsureExtraSize(newOffset - curIdx, grants);
          assert image[..curIdx] == image[..old(imagesize)][..curIdx] == was;
          if oom {
            return;
          }
          var k := curIdx;
          while k < newOffset
            invariant curIdx <= k <= newOffset <= imagesize == image.Length
            invariant image == old(image) || fresh(image)
            invariant image[..curIdx] == was
            invariant forall j :: curIdx <= j < k ==> image[j] == 0
            modifies image
          {
            image[k] := 0;
            k := k + 1;
          }
        }
        curIdx := newOffset;
      }
    }
  }
}
