/** filename.c as it runs: character loops into two static buffers, and the
    in-place moves of the last components. A name occupies buffer[..length],
    followed by the terminator. */
module Filename {
  import opened FilenameSpec
  import opened FilenameProofs

  const BUFFER_SIZE: nat := 1024

  class Translator {
    const filenamebuffer: array<char>
    const unixbuffer: array<char>

    ghost predicate Valid()
      reads this
    {
      filenamebuffer.Length == BUFFER_SIZE && unixbuffer.Length == BUFFER_SIZE && filenamebuffer != unixbuffer
    }

    constructor ()
      ensures Valid() && fresh(filenamebuffer) && fresh(unixbuffer)
    {
      filenamebuffer := new char[BUFFER_SIZE](_ => '\0');
      unixbuffer := new char[BUFFER_SIZE](_ => '\0');
    }

    /** unix_to_riscos. */
    method UnixToRiscos(src: string) returns (length: nat)
      requires Valid() && |Native(src)| < BUFFER_SIZE
      modifies filenamebuffer
      ensures length < BUFFER_SIZE && filenamebuffer[..length] == Native(src) && filenamebuffer[length] == '\0'
    {
      var previous := '.';
      var i := 0;
      length := 0;
      while i < |src|
        invariant 0 <= i <= |src| && length + |Native(src, i, previous)| == |Native(src)|
        invariant filenamebuffer[..length] + Native(src, i, previous) == Native(src)
        decreases |src| - i
      {
        hide Native;
        ghost var done := filenamebuffer[..length];
        NativeStep(src, i, previous);
        var c := src[i];
        i := i + 1;
        if c == '.' {
          if previous == '.' && At(src, i) == '/' {
            i := i + 1;
            continue;
          }
          if previous == '.' && At(src, i) == '.' && At(src, i + 1) == '/' {
            i := i + 1;
            c := '^';
          } else {
            c := '/';
          }
        } else if c == '/' {
          if previous == '.' {
            continue;
          }
          c := '.';
        }
        previous := c;
        filenamebuffer[length] := c;
        length := length + 1;
        assert filenamebuffer[..length] == done + [c];
        Regroup(done, [c], Native(src, i, previous));
      }
      filenamebuffer[length] := '\0';
    }

    /** riscos_to_unix. */
    method RiscosToUnix(src: string) returns (length: nat)
      requires Valid() && |src| < BUFFER_SIZE
      modifies unixbuffer
      ensures length == |src| && unixbuffer[..length] == Swap(src) && unixbuffer[length] == '\0'
    {
      length := 0;
      while length < |src|
        invariant 0 <= length <= |src|
        invariant unixbuffer[..length] == Swap(src)[..length]
      {
        var c := src[length];
        if c == '.' {
          c := '/';
        } else if c == '/' {
          c := '.';
        }
        unixbuffer[length] := c;
        length := length + 1;
      }
      unixbuffer[length] := '\0';
    }

    /** filename_unixtoriscos. */
    method UnixToRiscosName(src: string, extlist: Option<string>) returns (length: nat)
      requires Valid() && |Native(src)| < BUFFER_SIZE
      modifies filenamebuffer
      ensures length < BUFFER_SIZE && filenamebuffer[..length] == ToRiscos(src, extlist) && filenamebuffer[length] == '\0'
    {
      hide LastIndex, Entries, Native, Hoist, HoistAt;
      length := UnixToRiscos(src);
      if extlist.Some? {
        ghost var b := filenamebuffer[..length];
        assert filenamebuffer[0..length] == b;
        var dot := FindLast(filenamebuffer, 0, length, '.');
        var lastcomp := dot + 1;
        assert filenamebuffer[lastcomp..length] == b[lastcomp..];
        var trail := FindLast(filenamebuffer, lastcomp, length, '/');
        HoistUnfolds(b, lastcomp, trail - lastcomp, Entries(extlist.value));
        ghost var end := filenamebuffer[length..];
        HoistIn(lastcomp, trail, length, extlist.value);
        assert filenamebuffer[length] == end[0];
      }
    }

    method HoistIn(lastcomp: nat, trail: int, length: nat, list: string)
      requires Valid() && lastcomp <= length < BUFFER_SIZE && lastcomp - 1 <= trail < length
      modifies filenamebuffer
      ensures filenamebuffer[length..] == old(filenamebuffer[length..])
      ensures filenamebuffer[..length] == HoistAt(old(filenamebuffer[..length]), lastcomp, trail - lastcomp, Entries(list))
    {
      hide Entries;
      ghost var b := filenamebuffer[..length];
      if trail > lastcomp {
        var ext := filenamebuffer[trail + 1..length];
        assert ext == b[lastcomp..][trail - lastcomp + 1..];
        var listed := IsListed(ext, list);
        if listed {
          HoistInPlace(lastcomp, trail, length);
          assert old(filenamebuffer[..lastcomp]) == b[..lastcomp];
          assert old(filenamebuffer[lastcomp..trail]) == b[lastcomp..][..trail - lastcomp];
        }
      }
    }

    /** The reversal in filename_unixtoriscos: a move to the right, then the
        extension and a separator in front of it. */
    method HoistInPlace(lastcomp: nat, trail: nat, length: nat)
      requires Valid() && lastcomp <= trail < length < BUFFER_SIZE
      modifies filenamebuffer
      ensures filenamebuffer[length..] == old(filenamebuffer[length..])
      ensures filenamebuffer[..length] == old(filenamebuffer[..lastcomp]) + old(filenamebuffer[trail + 1..length])
                                        + "." + old(filenamebuffer[lastcomp..trail])
    {
      var ext := filenamebuffer[trail + 1..length];
      var stem := lastcomp + |ext| + 1;
      ghost var was := filenamebuffer[..];
      Move(filenamebuffer, stem, lastcomp, trail - lastcomp);
      ghost var moved := filenamebuffer[..];
      Copy(filenamebuffer, lastcomp, ext);
      filenamebuffer[stem - 1] := '.';
      ghost var now := filenamebuffer[..];
      assert now[..lastcomp] == moved[..lastcomp] && now[lastcomp..stem - 1] == ext;
      assert now[stem..] == moved[stem..];
      Hoisted(was, moved, now, lastcomp, trail, stem, length);
      InParts(now, lastcomp, stem - 1, length);
    }

    /** filename_riscostounix. */
    method RiscosToUnixName(src: string, extlist: Option<string>) returns (length: nat)
      requires Valid() && |src| < BUFFER_SIZE
      modifies unixbuffer
      ensures length < BUFFER_SIZE && unixbuffer[..length] == ToUnix(src, extlist) && unixbuffer[length] == '\0'
    {
      hide LastIndex, Entries, Swap, LowerAt;
      length := RiscosToUnix(src);
      if extlist.Some? {
        ghost var b, entries := unixbuffer[..length], Entries(extlist.value);
        assert unixbuffer[0..length] == b;
        var lastcomp := FindLast(unixbuffer, 0, length, '/');
        if lastcomp <= 0 {
          return;
        }
        assert unixbuffer[0..lastcomp] == b[..lastcomp];
        var slash := FindLast(unixbuffer, 0, lastcomp, '/');
        var prevcomp := slash + 1;
        assert Lower(b, entries) == LowerAt(b, prevcomp, lastcomp, entries);
        ghost var end := unixbuffer[length..];
        LowerIn(prevcomp, lastcomp, length, extlist.value);
        assert unixbuffer[length] == end[0];
      }
    }

    method LowerIn(prevcomp: nat, lastcomp: nat, length: nat, list: string)
      requires Valid() && prevcomp <= lastcomp < length < BUFFER_SIZE
      modifies unixbuffer
      ensures unixbuffer[length..] == old(unixbuffer[length..])
      ensures unixbuffer[..length] == LowerAt(old(unixbuffer[..length]), prevcomp, lastcomp, Entries(list))
    {
      hide Entries;
      ghost var b := unixbuffer[..length];
      var comp := unixbuffer[prevcomp..lastcomp];
      assert comp == b[prevcomp..lastcomp];
      var listed := IsListed(comp, list);
      if listed {
        LowerInPlace(prevcomp, lastcomp, length);
        assert old(unixbuffer[..prevcomp]) == b[..prevcomp];
        assert old(unixbuffer[lastcomp + 1..length]) == b[lastcomp + 1..];
      }
    }

    /** The reversal in filename_riscostounix: a move to the left, then a dot
        and the extension behind it. */
    method LowerInPlace(prevcomp: nat, lastcomp: nat, length: nat)
      requires Valid() && prevcomp <= lastcomp < length < BUFFER_SIZE
      modifies unixbuffer
      ensures unixbuffer[length..] == old(unixbuffer[length..])
      ensures unixbuffer[..length] == old(unixbuffer[..prevcomp]) + old(unixbuffer[lastcomp + 1..length])
                                    + "." + old(unixbuffer[prevcomp..lastcomp])
    {
      var comp := unixbuffer[prevcomp..lastcomp];
      var dot := prevcomp + (length - lastcomp - 1);
      ghost var was := unixbuffer[..];
      Move(unixbuffer, prevcomp, lastcomp + 1, length - lastcomp - 1);
      unixbuffer[dot] := '.';
      assert unixbuffer[dot + 1..] == was[dot..][1..];
      ghost var moved := unixbuffer[..];
      Copy(unixbuffer, dot + 1, comp);
      ghost var now := unixbuffer[..];
      assert now[..dot + 1] == moved[..dot + 1];
      assert now[..prevcomp] == was[..prevcomp] by {
        assert now[..prevcomp] == moved[..dot + 1][..prevcomp];
      }
      assert now[prevcomp..dot] == was[lastcomp + 1..length] by {
        assert now[prevcomp..dot] == moved[..dot + 1][prevcomp..dot];
      }
      assert now[dot] == moved[..dot + 1][dot] == '.';
      InParts(now, prevcomp, dot, length);
      Tail(was, moved, now, dot, length);
    }
  }

  /** The stem has moved to the right and nothing in front of it has changed. */
  lemma Hoisted(was: string, moved: string, now: string, lastcomp: nat, trail: nat, stem: nat, length: nat)
    requires lastcomp <= trail <= length <= |was| == |moved| == |now| && stem == length - (trail - lastcomp) >= lastcomp
    requires moved[..stem] == was[..stem] && moved[stem..length] == was[lastcomp..trail] && moved[length..] == was[length..]
    requires now[..lastcomp] == moved[..lastcomp] && now[stem..] == moved[stem..]
    ensures now[..lastcomp] == was[..lastcomp] && now[stem..length] == was[lastcomp..trail]
    ensures now[length..] == was[length..]
  {
    assert moved[..lastcomp] == moved[..stem][..lastcomp];
    assert now[stem..length] == now[stem..][..length - stem] == moved[stem..length];
    assert now[length..] == now[stem..][length - stem..] == moved[length..];
  }

  /** Nothing behind the name has changed. */
  lemma Tail(was: string, moved: string, now: string, dot: nat, length: nat)
    requires dot < length <= |was| == |moved| == |now|
    requires moved[dot + 1..] == was[dot + 1..] && now[length..] == moved[length..]
    ensures now[length..] == was[length..]
  {
    assert moved[length..] == moved[dot + 1..][length - dot - 1..];
    assert was[length..] == was[dot + 1..][length - dot - 1..];
  }

  lemma InParts(s: string, a: nat, b: nat, n: nat)
    requires a <= b < n <= |s| && s[b] == '.'
    ensures s[..n] == s[..a] + s[a..b] + "." + s[b + 1..n]
  {
  }

  lemma Regroup(a: string, b: string, c: string)
    ensures a + (b + c) == a + b + c
  {
  }

  /** memmove within a buffer. */
  method Move(buffer: array<char>, to: nat, from: nat, n: nat)
    requires to + n <= buffer.Length && from + n <= buffer.Length
    modifies buffer
    ensures buffer[to..to + n] == old(buffer[from..from + n])
    ensures buffer[..to] == old(buffer[..to]) && buffer[to + n..] == old(buffer[to + n..])
  {
    forall i | 0 <= i < n {
      buffer[to + i] := buffer[from + i];
    }
  }

  /** memcpy into a buffer. */
  method Copy(buffer: array<char>, to: nat, s: string)
    requires to + |s| <= buffer.Length
    modifies buffer
    ensures buffer[to..to + |s|] == s
    ensures buffer[..to] == old(buffer[..to]) && buffer[to + |s|..] == old(buffer[to + |s|..])
  {
    forall i | 0 <= i < |s| {
      buffer[to + i] := s[i];
    }
  }

  /** strrchr over buffer[from..end]: the position in the buffer, or from - 1. */
  method FindLast(buffer: array<char>, from: nat, end: nat, c: char) returns (r: int)
    requires from <= end <= buffer.Length
    ensures from - 1 <= r < end
    ensures r - from == LastIndex(buffer[from..end], c)
  {
    r := end - 1;
    while r >= from && buffer[r] != c
      invariant from - 1 <= r < end
      invariant forall k :: r < k < end ==> buffer[k] != c
    {
      r := r - 1;
    }
    LastIs(buffer[from..end], c, r - from);
  }

  /** The loop over the colon separated list. */
  method IsListed(name: string, list: string) returns (found: bool)
    ensures found <==> name in Entries(list)
  {
    var rest := list;
    while rest != ""
      invariant name in Entries(list) <==> name in Entries(rest)
      decreases |rest|
    {
      var n := 0;
      while n < |rest| && rest[n] != ':'
        invariant 0 <= n <= |rest|
        invariant forall k :: 0 <= k < n ==> rest[k] != ':'
      {
        n := n + 1;
      }
      EntryEnds(rest, n);
      if rest[..n] == name {
        return true;
      }
      rest := rest[if n < |rest| then n + 1 else n..];
    }
    return false;
  }

  lemma {:induction false} EntryEnds(list: string, n: nat)
    requires n <= |list| && (n < |list| ==> list[n] == ':') && forall k :: 0 <= k < n ==> list[k] != ':'
    ensures EntryLength(list) == n
    decreases n
  {
    if n > 0 {
      EntryEnds(list[1..], n - 1);
    }
  }
}
