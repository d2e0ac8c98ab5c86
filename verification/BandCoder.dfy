/** The in-place coder of gdevgdi.c, method by method: the one-pass line coder,
    its size-only twin, the band loop with its padding, and the retry loop that
    coarsens a band until it fits the printer's limit. */
module BandCoder {
  import opened BandSpec
  import opened BandProofs

  /** Steps over the rest of a run whose first two bytes are equal. */
  method ScanRun(src: array<byte>, org: nat, end: nat) returns (pos: nat)
    requires org + 2 <= end <= src.Length
    requires src[org] == src[org + 1]
    ensures org + 2 <= pos <= end
    ensures pos - org == RunFrom(src[org..end], 2)
  {
    var first := src[org];
    pos := org + 2;
    while pos < end && src[pos] == first
      invariant org + 2 <= pos <= end
      invariant forall k :: org <= k < pos ==> src[k] == first
    {
      pos := pos + 1;
    }
    ghost var s := src[org..end];
    assert forall k :: 0 <= k < pos - org ==> s[k] == src[org + k];
    assert pos < end ==> s[pos - org] != first;
  }

  /** The look-ahead of a literal: reads on until a pair worth a run shows up,
      then steps back over the two (near the end) or three bytes of that run. */
  method ScanLiteral(src: array<byte>, org: nat, end: nat) returns (length: nat)
    requires org + 2 <= end <= src.Length
    requires src[org] != src[org + 1]
    ensures length == FirstRun(src[org..end], 1)
    ensures 1 <= length <= end - org
  {
    ghost var s := src[org..end];
    assert forall k :: 0 <= k < |s| ==> s[k] == src[org + k];
    var pos, mis := org + 2, 0;
    var first, second := src[org], src[org + 1];
    var left := end - org - 2;
    while left > 0
      invariant org + 2 <= pos <= end
      invariant left == end - pos
      invariant second == src[pos - 1]
      invariant forall k :: 1 <= k < pos - org - 1 ==> !Worthwhile(s, k)
      invariant mis == 0
      invariant src[pos - 2] != src[pos - 1]
      decreases left
    {
      left := left - 1;
      first := second;
      second := src[pos];
      pos := pos + 1;
      if first == second {
        if left <= 1 {
          mis := 2;
          assert Worthwhile(s, pos - org - 2);
          break;
        } else {
          second := src[pos];
          pos := pos + 1;
          left := left - 1;
          if first == second {
            mis := 3;
            assert Worthwhile(s, pos - org - 3);
            break;
          }
          assert !Worthwhile(s, pos - org - 3);
          assert !Worthwhile(s, pos - org - 2);
        }
      } else {
        assert !Worthwhile(s, pos - org - 2);
      }
    }
    length := pos - org - mis;
    assert length == FirstRun(s, 1);
  }

  /** Stores a token's bytes at q; nothing else in the buffer changes. */
  method Store(dst: array<byte>, q: nat, bytes: seq<byte>) returns (q': nat)
    requires q + |bytes| <= dst.Length
    modifies dst
    ensures q' == q + |bytes|
    ensures dst[q..q'] == bytes
    ensures dst[..q] == old(dst[..q])
    ensures dst[q'..] == old(dst[q'..])
  {
    q' := q;
    for i := 0 to |bytes|
      invariant q' == q + i
      invariant dst[q..q'] == bytes[..i]
      invariant dst[..q] == old(dst[..q])
      invariant dst[q + |bytes|..] == old(dst[q + |bytes|..])
    {
      dst[q'] := bytes[i];
      q' := q' + 1;
    }
  }

  /** Writes the control code and the value of a run of n copies of b. */
  method EmitRun(dst: array<byte>, q: nat, n: nat, b: byte) returns (q': nat)
    requires n >= 2
    requires q + |RunCode(n, b)| <= dst.Length
    modifies dst
    ensures q' == q + |RunCode(n, b)|
    ensures dst[q..q'] == RunCode(n, b)
    ensures dst[..q] == old(dst[..q])
    ensures dst[q'..] == old(dst[q'..])
  {
    var cnt: int := n - 2;
    if cnt >= 64 {
      cnt := (0x3fff - cnt % 0x4000) + 0xc000;
      q' := Store(dst, q, [cnt / 256, cnt % 256, b]);
    } else {
      cnt := 0x7f - cnt;
      q' := Store(dst, q, [cnt, b]);
    }
  }

  /** Writes the control code of a literal of n bytes and copies the bytes. */
  method EmitLiteral(src: array<byte>, pos: nat, n: nat, dst: array<byte>, q: nat) returns (q': nat)
    requires n >= 1 && pos + n <= src.Length && src != dst
    requires q + |LiteralHead(n)| + n <= dst.Length
    modifies dst
    ensures q' == q + |LiteralHead(n)| + n
    ensures dst[q..q'] == LiteralHead(n) + src[pos..pos + n]
    ensures dst[..q] == old(dst[..q])
    ensures dst[q'..] == old(dst[q'..])
  {
    var cnt: int := n - 1;
    if cnt >= 64 {
      cnt := cnt % 0x4000 + 0x8000;
      q' := Store(dst, q, [cnt / 256, cnt % 256]);
    } else {
      q' := Store(dst, q, [cnt]);
    }
    ghost var h := q';
    assert dst[q..h] == LiteralHead(n);
    ghost var was := dst[..];
    q' := Store(dst, q', src[pos..pos + n]);
    Grown(was, dst[..], q, h, q');
    assert dst[..q] == dst[..h][..q];
    assert dst[q'..] == was[h..][q' - h..];
  }

  /** Storing behind q leaves what was written before q in place. */
  lemma Grown(was: seq<byte>, now: seq<byte>, tgt: nat, q: nat, q': nat)
    requires tgt <= q <= q' <= |was| == |now|
    requires now[..q] == was[..q]
    ensures now[tgt..q'] == was[tgt..q] + now[q..q']
  {
    assert now[tgt..q] == now[..q][tgt..] == was[..q][tgt..] == was[tgt..q];
  }

  lemma Inner(s: seq<byte>, lo: nat, mid: nat, hi: nat)
    requires lo <= mid <= hi <= |s|
    ensures s[lo..hi][mid - lo..] == s[mid..hi]
  {
  }

  lemma Prefix(was: seq<byte>, now: seq<byte>, lo: nat, hi: nat)
    requires lo <= hi <= |was| == |now|
    requires now[..hi] == was[..hi]
    ensures now[..lo] == was[..lo]
  {
    assert now[..lo] == now[..hi][..lo] == was[..hi][..lo];
  }

  lemma Suffix(was: seq<byte>, now: seq<byte>, lo: nat, hi: nat)
    requires lo <= hi <= |was| == |now|
    requires now[lo..] == was[lo..]
    ensures now[hi..] == was[hi..]
  {
    assert now[hi..] == now[lo..][hi - lo..] == was[lo..][hi - lo..];
  }

  lemma EncodeEmpty()
    ensures Encode([]) == []
  {
  }

  /** Splitting the code of a line after its first token. */
  lemma EncodeStep(s: seq<byte>)
    requires s != []
    ensures Encode(s) == TokenCode(s) + Encode(s[TokenLength(s)..])
    ensures |s| == 1 ==> Encode(s) == [0, s[0]] + []
  {
    if |s| == 1 {
      LastByte(s);
    }
    hide TokenCode, TokenLength;
  }

  lemma LastByte(s: seq<byte>)
    requires |s| == 1
    ensures TokenLength(s) == 1 && TokenCode(s) == [0, s[0]] && s[1..] == []
  {
    assert s[..1] == s;
    assert LiteralHead(1) == [0];
  }

  /** One round of the coder: the token at `pos`, with at least two bytes left. */
  method EmitToken(src: array<byte>, pos: nat, count: nat, dst: array<byte>, q: nat)
    returns (control: nat, count': nat, q': nat)
    requires count >= 2 && pos + count <= src.Length && src != dst
    requires q + |TokenCode(src[pos..pos + count])| <= dst.Length
    modifies dst
    ensures control == TokenLength(src[pos..pos + count]) && count' == count - control
    ensures q' == q + |TokenCode(src[pos..pos + count])|
    ensures dst[q..q'] == TokenCode(src[pos..pos + count])
    ensures dst[..q] == old(dst[..q])
    ensures dst[q'..] == old(dst[q'..])
  {
    hide RunCode, LiteralHead, RunFrom, FirstRun, Worthwhile;
    ghost var s := src[pos..pos + count];
    count' := count;
    if src[pos] == src[pos + 1] {
      var e := ScanRun(src, pos, pos + count);
      control := e - pos;
      q' := EmitRun(dst, q, control, src[pos]);
    } else {
      control := ScanLiteral(src, pos, pos + count);
      if control > count' {
        count' := control;  // never taken
      }
      assert s[..control] == src[pos..pos + control];
      q' := EmitLiteral(src, pos, control, dst, q);
    }
    count' := count' - control;
  }

  /** FrameTiff_Comp: compresses `n` bytes at `org` into `dst` from `tgt` on. */
  method CompressLine(src: array<byte>, org: nat, dst: array<byte>, tgt: nat, n: nat)
    returns (size: nat)
    requires org + n <= src.Length
    requires src != dst
    requires tgt + |Encode(src[org..org + n])| <= dst.Length
    modifies dst
    ensures size == |Encode(src[org..org + n])|
    ensures dst[tgt..tgt + size] == Encode(src[org..org + n])
    ensures dst[..tgt] == old(dst[..tgt])
    ensures dst[tgt + size..] == old(dst[tgt + size..])
  {
    hide *;
    var pos: nat, q: nat, count: nat := org, tgt, n;
    ghost var was, line := dst[..], src[org..org + n];
    ghost var all := Encode(line);
    Untouched(was, tgt, all);
    while true
      invariant org <= pos && pos + count == org + n
      invariant src[org..org + n] == line
      invariant Halfway(was, dst[..], tgt, q, all, Encode(line[pos - org..]))
      decreases count
    {
      ghost var s, q0, now := line[pos - org..], q, dst[..];
      Inner(src[..], org, pos, org + n);
      HalfwayFits(was, now, tgt, q, all, Encode(s));
      if count == 0 {
        EncodeEmpty();
        assert s == [];
        break;
      }
      EncodeStep(s);
      if count == 1 {
        q := Store(dst, q, [0, src[pos]]);
        EncodeEmpty();
        Further(was, now, dst[..], tgt, q0, all, [0, src[pos]], []);
        HalfwayFits(was, dst[..], tgt, q, all, []);
        break;
      }
      var control;
      control, count, q := EmitToken(src, pos, count, dst, q);
      assert s[control..] == line[pos + control - org..];
      Further(was, now, dst[..], tgt, q0, all, TokenCode(s), Encode(s[control..]));
      pos := pos + control;
    }
    size := q - tgt;
  }

  /** In the middle of a line: what is written is the front of the code, and
      outside the code's place nothing has changed. */
  ghost predicate Halfway(was: seq<byte>, now: seq<byte>, tgt: nat, q: nat, all: seq<byte>, left: seq<byte>) {
    && |now| == |was| && tgt <= q && q + |left| == tgt + |all| <= |was|
    && now[tgt..q] + left == all
    && now[..tgt] == was[..tgt]
    && now[tgt + |all|..] == was[tgt + |all|..]
  }

  lemma Untouched(was: seq<byte>, tgt: nat, all: seq<byte>)
    requires tgt + |all| <= |was|
    ensures Halfway(was, was, tgt, tgt, all, all)
  {
  }

  lemma HalfwayFits(was: seq<byte>, now: seq<byte>, tgt: nat, q: nat, all: seq<byte>, left: seq<byte>)
    requires Halfway(was, now, tgt, q, all, left)
    ensures |now| == |was| && tgt <= q && q + |left| == tgt + |all| <= |was|
    ensures left == [] ==> now[tgt..q] == all
    ensures now[..tgt] == was[..tgt] && now[tgt + |all|..] == was[tgt + |all|..]
  {
    assert now[tgt..q] + [] == now[tgt..q];
  }

  lemma Further(was: seq<byte>, mid: seq<byte>, now: seq<byte>, tgt: nat, q: nat, all: seq<byte>, code: seq<byte>, left: seq<byte>)
    requires Halfway(was, mid, tgt, q, all, code + left) && |now| == |mid|
    requires now[q..q + |code|] == code && now[..q] == mid[..q] && now[q + |code|..] == mid[q + |code|..]
    ensures Halfway(was, now, tgt, q + |code|, all, left)
  {
    Grown(mid, now, tgt, q, q + |code|);
    Prefix(mid, now, tgt, q);
    Suffix(mid, now, q + |code|, tgt + |all|);
    assert (mid[tgt..q] + code) + left == mid[tgt..q] + (code + left);
  }

  /** PreTiffComp: the number of bytes the line would compress to. */
  method LineSize(src: array<byte>, org: nat, n: nat) returns (size: nat)
    requires org + n <= src.Length
    ensures size == |Encode(src[org..org + n])|
  {
    hide *;
    ghost var line := src[org..org + n];
    var pos: nat, count: nat := org, n;
    size := 0;
    EncodeEmpty();
    assert line[0..] == line;
    while true
      invariant org <= pos && pos + count == org + n
      invariant size + |Encode(line[pos - org..])| == |Encode(line)|
      decreases count
    {
      ghost var s := line[pos - org..];
      Inner(src[..], org, pos, org + n);
      assert s == src[pos..pos + count];
      if count == 0 {
        assert s == [];
        break;
      }
      EncodeStep(s);
      if count == 1 {
        size := size + 2;
        break;
      }
      var control, bytes := MeasureToken(src, pos, count);
      size := size + bytes;
      assert s[control..] == line[pos + control - org..];
      pos, count := pos + control, count - control;
    }
  }

  /** One round of the measuring coder: the token at `pos` and its size. */
  method MeasureToken(src: array<byte>, pos: nat, count: nat) returns (control: nat, bytes: nat)
    requires count >= 2 && pos + count <= src.Length
    ensures control == TokenLength(src[pos..pos + count]) && bytes == |TokenCode(src[pos..pos + count])|
  {
    hide RunFrom, FirstRun, Worthwhile, RunCode, LiteralHead;
    ghost var s := src[pos..pos + count];
    if src[pos] == src[pos + 1] {
      var e := ScanRun(src, pos, pos + count);
      control := e - pos;
      bytes := if control - 2 >= 64 then 3 else 2;
    } else {
      control := ScanLiteral(src, pos, pos + count);
      if control > count {
        control := count;  // never taken
      }
      bytes := (if control - 1 >= 64 then 2 else 1) + control;
    }
  }

  datatype Mode = RealComp | PreComp

  /** FrameTiffComp: all lines of a band and the padding, written or only measured. */
  method CompressBand(dst: array<byte>, src: array<byte>, lines: nat, width: nat, mode: Mode)
    returns (size: nat)
    requires lines * width <= src.Length && src != dst
    requires mode.RealComp? ==> |EncodeBand(src[..], lines, width)| <= dst.Length
    modifies dst
    ensures size == |EncodeBand(src[..], lines, width)|
    ensures Written(mode, old(dst[..]), dst[..], EncodeBand(src[..], lines, width))
  {
    hide *;
    ghost var s := src[..];
    NothingWritten(mode, dst[..], s, width);
    LinesMonotone(s, 0, lines, width);
    var pos := 0;
    size := 0;
    for i := 0 to lines
      invariant pos == i * width && i * width <= lines * width
      invariant size == |EncodeLines(s, i, width)|
      invariant Written(mode, old(dst[..]), dst[..], EncodeLines(s, i, width))
    {
      LinesMonotone(s, i + 1, lines, width);
      BandContainsLines(s, lines, width);
      EncodeLinesStep(s, i, width);
      assert src[pos..pos + width] == s[pos..pos + width];
      ghost var was := dst[..];
      var line;
      if mode.RealComp? {
        line := CompressLine(src, pos, dst, size, width);
      } else {
        line := LineSize(src, pos, width);
      }
      WriteMore(mode, old(dst[..]), was, dst[..], EncodeLines(s, i, width), Encode(s[pos..pos + width]));
      pos := pos + width;
      size := size + line;
    }
    BandContainsLines(s, lines, width);
    var pad := PadLength(size);
    ghost var was := dst[..];
    if mode.RealComp? {
      var _ := Store(dst, size, Zeros(pad));
    }
    WriteMore(mode, old(dst[..]), was, dst[..], EncodeLines(s, lines, width), Zeros(pad));
    size := size + pad;
    BandIs(s, lines, width);
  }

  /** What a pass has done to the buffer once it got as far as `code`. */
  ghost predicate Written(mode: Mode, was: seq<byte>, now: seq<byte>, code: seq<byte>) {
    && |now| == |was|
    && (mode.PreComp? ==> now == was)
    && (mode.RealComp? ==> |code| <= |was| && now == code + was[|code|..])
  }

  lemma WriteMore(mode: Mode, was: seq<byte>, mid: seq<byte>, now: seq<byte>, code: seq<byte>, more: seq<byte>)
    requires Written(mode, was, mid, code) && |now| == |was|
    requires mode.PreComp? ==> now == mid
    requires mode.RealComp? ==>
      && |code| + |more| <= |was|
      && now[|code|..|code| + |more|] == more
      && now[..|code|] == mid[..|code|]
      && now[|code| + |more|..] == mid[|code| + |more|..]
    ensures Written(mode, was, now, code + more)
  {
    if mode.RealComp? {
      var a, b := |code|, |code| + |more|;
      assert now == now[..a] + now[a..b] + now[b..];
      assert mid[b..] == was[b..];
      assert mid[..a] == code;
    }
  }

  lemma NothingWritten(mode: Mode, buffer: seq<byte>, s: seq<byte>, width: nat)
    ensures EncodeLines(s, 0, width) == []
    ensures Written(mode, buffer, buffer, EncodeLines(s, 0, width))
  {
  }

  lemma BandIs(s: seq<byte>, lines: nat, width: nat)
    requires lines * width <= |s|
    ensures EncodeBand(s, lines, width)
         == EncodeLines(s, lines, width) + Zeros(PadLength(|EncodeLines(s, lines, width)|))
  {
  }

  lemma BandContainsLines(s: seq<byte>, lines: nat, width: nat)
    requires lines * width <= |s|
    ensures |EncodeBand(s, lines, width)| == |EncodeLines(s, lines, width)| + PadLength(|EncodeLines(s, lines, width)|)
  {
  }

  lemma {:induction false} LinesMonotone(s: seq<byte>, i: nat, lines: nat, width: nat)
    requires i <= lines && lines * width <= |s|
    ensures i * width <= lines * width
    ensures EncodeLines(s, i, width) <= EncodeLines(s, lines, width)
    decreases lines - i
  {
    if i < lines {
      assert (lines - 1) * width + width == lines * width;
      LinesMonotone(s, i, lines - 1, width);
    }
  }

  const MAX_BAND := 0xffff

  predicate IsLevel(level: nat) {
    level == 0 || 2 <= level <= 5
  }

  /** The retry loop of gdi_print_page for one band. */
  method FitBand(ibp: array<byte>, obp: array<byte>, paper: nat, dpi600: bool)
    returns (size: nat, fudge: nat, tries: nat)
    requires paper < 2 && ibp != obp
    requires ibp.Length == BandHeight(dpi600) * BandWidthBytes(paper, dpi600)
    requires obp.Length == ibp.Length * 13 / 10
    modifies obp
    ensures 1 <= tries <= 5
    ensures IsLevel(fudge)
    ensures size <= MAX_BAND - 8
    ensures obp[..size] == EncodeBand(Coarsened(fudge, ibp[..]), BandHeight(dpi600), BandWidthBytes(paper, dpi600))
    ensures exists pad: nat :: pad < 4
              && DecodeBand(obp[..size], BandHeight(dpi600), BandWidthBytes(paper, dpi600))
                 == Some((Coarsened(fudge, ibp[..]), Zeros(pad)))
    ensures forall level: nat :: IsLevel(level) && level < fudge ==>
              |EncodeBand(Coarsened(level, ibp[..]), BandHeight(dpi600), BandWidthBytes(paper, dpi600))| > MAX_BAND - 8
  {
    hide Encode, EncodeLines, EncodeBand, DecodeBand;
    var height, width := BandHeight(dpi600), BandWidthBytes(paper, dpi600);
    ghost var s := ibp[..];
    fudge, tries := 0, 0;
    var use := ibp;
    assert Coarsened(0, s) == s;
    while true
      invariant IsLevel(fudge) && tries == (if fudge == 0 then 0 else fudge - 1)
      invariant use != obp && use[..] == Coarsened(fudge, s) && ibp[..] == s
      invariant use == ibp || fresh(use)
      invariant fudge != 0 ==> use != ibp
      invariant forall level: nat :: IsLevel(level) && level < fudge ==>
                  |EncodeBand(Coarsened(level, s), height, width)| > MAX_BAND - 8
      decreases 5 - fudge
    {
      OutputBufferSuffices(use[..], paper, dpi600);
      size := CompressBand(obp, use, height, width, RealComp);
      tries := tries + 1;
      if size <= MAX_BAND - 8 {
        break;
      }
      if fudge == 5 {
        BlankBandFits(use[..], paper, dpi600);
        assert false;
      }
      if fudge == 0 {
        use := new byte[ibp.Length];
        fudge := 1;
      }
      fudge := fudge + 1;
      for f := 0 to ibp.Length
        invariant use[..f] == Coarsened(fudge, s)[..f]
        invariant ibp[..] == s && use != ibp && use != obp && use.Length == ibp.Length && fresh(use)
      {
        use[f] := Coarse(fudge, ibp[f]);
      }
    }
    BandRoundTrip(Coarsened(fudge, s), height, width);
  }

  lemma BlankBandFits(s: seq<byte>, paper: nat, dpi600: bool)
    requires paper < 2 && Blank(s)
    requires |s| == BandHeight(dpi600) * BandWidthBytes(paper, dpi600)
    ensures |EncodeBand(s, BandHeight(dpi600), BandWidthBytes(paper, dpi600))| <= MAX_BAND - 8
  {
    BlankLines(s, BandHeight(dpi600), BandWidthBytes(paper, dpi600));
  }
}
