/** Where the line coder cuts a line into runs and literals, read off the code
    by the decoder: the cut is described by the line alone, and it is unique. */
module BandTokens {
  import opened BandSpec
  import opened BandProofs

  /** One token of a code: its kind, the bytes of the line it stands for and the
      bytes of code it takes. */
  datatype Span = Span(run: bool, from: nat, to: nat, used: nat)

  /** The tokens of a code for n bytes, the first of them at position `at`. */
  function Spans(code: seq<byte>, n: nat, at: nat): Option<seq<Span>>
    decreases n
  {
    if n == 0 then Some([])
    else match DecodeToken(code)
      case None => None
      case Some(p) =>
        if |p.bytes| > n then None
        else match Spans(code[p.used..], n - |p.bytes|, at + |p.bytes|)
          case None => None
          case Some(rest) => Some([Span(code[0] / 64 % 2 == 1, at, at + |p.bytes|, p.used)] + rest)
  }

  /** A run is as long as it can be and takes the shorter code it can take. */
  predicate IsRun(s: seq<byte>, x: Span) {
    && x.from + 2 <= x.to <= |s|
    && (forall k :: x.from <= k < x.to ==> s[k] == s[x.from])
    && (x.to < |s| ==> s[x.to] != s[x.from])
    && x.used == if x.to - x.from <= 65 then 2 else 3
  }

  /** Two equal bytes that are three, or lie within the last three of the line. */
  predicate RunAhead(s: seq<byte>, i: nat) {
    i + 1 < |s| && s[i] == s[i + 1] && (i + 3 < |s| ==> s[i + 2] == s[i])
  }

  /** A literal starts with two different bytes, no run lies ahead at any of its
      bytes, and one does where it ends before the line does. */
  predicate IsLiteral(s: seq<byte>, x: Span) {
    && x.from < x.to <= |s|
    && (x.from + 1 < |s| ==> s[x.from] != s[x.from + 1])
    && (forall i :: x.from <= i < x.to ==> !RunAhead(s, i))
    && (x.to < |s| ==> RunAhead(s, x.to))
    && x.used == x.to - x.from + if x.to - x.from <= 64 then 1 else 2
  }

  /** The tokens cover the line from `at` on, one behind the other. */
  predicate WellCut(s: seq<byte>, spans: seq<Span>, at: nat)
    decreases |spans|
  {
    if spans == [] then at == |s|
    else
      && spans[0].from == at && (if spans[0].run then IsRun(s, spans[0]) else IsLiteral(s, spans[0]))
      && WellCut(s, spans[1..], spans[0].to)
  }

  /** The class of a token's first control byte, its count and its size. */
  lemma ControlCodes(n: nat, b: byte)
    requires n >= 1
    ensures LiteralHead(n)[0] / 64 == if n <= 64 then 0 else 2
    ensures |LiteralHead(n)| == if n <= 64 then 1 else 2
    ensures n >= 2 ==> RunCode(n, b)[0] / 64 == if n <= 65 then 1 else 3
    ensures n >= 2 ==> |RunCode(n, b)| == if n <= 65 then 2 else 3
    ensures n <= 64 ==> LiteralHead(n) == [n - 1]
    ensures 2 <= n <= 65 ==> RunCode(n, b) == [0x81 - n, b]
    ensures LiteralHead(65) == [0x80, 0x40] && RunCode(66, b) == [0xff, 0xbf, b]
  {
    var v, w := 0x8000 + (n - 1) % 0x4000, 0xc000 + (0x3fff - (n - 2) % 0x4000);
    assert 0x8000 <= v < 0xc000 && 0xc000 <= w < 0x1_0000;
    assert v / 256 / 64 == 2 && w / 256 / 64 == 3;
  }

  lemma HeadClass(t: seq<byte>)
    requires t != []
    ensures var n := TokenLength(t);
      && TokenCode(t) != [] && (TokenCode(t)[0] / 64 % 2 == 1 <==> StartsWithRun(t))
      && |TokenCode(t)| == if StartsWithRun(t) then (if n <= 65 then 2 else 3) else n + (if n <= 64 then 1 else 2)
  {
    ControlCodes(TokenLength(t), t[0]);
    hide RunCode, LiteralHead, RunFrom, FirstRun;
  }

  lemma FirstIsRun(s: seq<byte>, at: nat, used: nat)
    requires at < |s| && StartsWithRun(s[at..])
    requires used == if TokenLength(s[at..]) <= 65 then 2 else 3
    ensures IsRun(s, Span(true, at, at + TokenLength(s[at..]), used))
  {
    var t := s[at..];
    var n := TokenLength(t);
    hide RunFrom;
    forall k | at <= k < at + n ensures s[k] == s[at] { assert t[k - at] == t[0]; }
    if at + n < |s| {
      assert t[n] != t[0];
    }
  }

  lemma AheadIs(s: seq<byte>, at: nat, i: nat)
    requires at <= i && at <= |s|
    ensures RunAhead(s, i) <==> Worthwhile(s[at..], i - at)
  {
    var t := s[at..];
    assert forall k :: 0 <= k < |t| ==> t[k] == s[at + k];
  }

  lemma FirstIsLiteral(s: seq<byte>, at: nat, used: nat)
    requires at < |s| && !StartsWithRun(s[at..])
    requires var n := TokenLength(s[at..]); used == n + (if n <= 64 then 1 else 2)
    ensures IsLiteral(s, Span(false, at, at + TokenLength(s[at..]), used))
  {
    var t := s[at..];
    var n := TokenLength(t);
    assert n == FirstRun(t, 1);
    hide FirstRun, Worthwhile, RunAhead;
    forall i | at <= i < at + n ensures !RunAhead(s, i) {
      AheadIs(s, at, i);
      if i == at { NotAhead(t); }
    }
    AheadIs(s, at, at + n);
  }

  lemma NotAhead(t: seq<byte>)
    requires !StartsWithRun(t)
    ensures !Worthwhile(t, 0)
  {
  }

  lemma FirstSpan(s: seq<byte>, at: nat)
    requires at < |s|
    ensures var t := s[at..]; var n := TokenLength(t);
      var x := Span(StartsWithRun(t), at, at + n, |TokenCode(t)|);
      && TokenCode(t) != [] && (TokenCode(t)[0] / 64 % 2 == 1 <==> StartsWithRun(t))
      && if x.run then IsRun(s, x) else IsLiteral(s, x)
  {
    hide *;
    HeadClass(s[at..]);
    if StartsWithRun(s[at..]) {
      FirstIsRun(s, at, |TokenCode(s[at..])|);
    } else {
      FirstIsLiteral(s, at, |TokenCode(s[at..])|);
    }
  }

  lemma SpansStep(head: seq<byte>, rest: seq<byte>, bytes: seq<byte>, more: nat, at: nat)
    requires DecodeToken(head + rest) == Some(Piece(bytes, |head|))
    ensures Spans(head + rest, |bytes| + more, at)
         == match Spans(rest, more, at + |bytes|)
            case None => None
            case Some(x) => Some([Span(head[0] / 64 % 2 == 1, at, at + |bytes|, |head|)] + x)
  {
    hide DecodeToken;
    assert (head + rest)[|head|..] == rest && (head + rest)[0] == head[0];
  }

  lemma CutStep(s: seq<byte>, first: Span, rest: seq<Span>)
    requires if first.run then IsRun(s, first) else IsLiteral(s, first)
    requires WellCut(s, rest, first.to)
    ensures WellCut(s, [first] + rest, first.from)
  {
    assert ([first] + rest)[1..] == rest;
    hide IsRun, IsLiteral;
  }

  lemma NoSpans(s: seq<byte>, code: seq<byte>)
    ensures Spans(code, 0, |s|) == Some([]) && WellCut(s, [], |s|)
  {
  }

  lemma {:induction false} SuffixSpans(s: seq<byte>, at: nat)
    requires at <= |s| && TokensFit(s[at..])
    ensures var x := Spans(Encode(s[at..]), |s| - at, at); x.Some? && WellCut(s, x.value, at)
    decreases |s| - at
  {
    hide *;
    if at == |s| {
      NoSpans(s, Encode(s[at..]));
    } else {
      var t := s[at..];
      CodeUnfolds(t);
      var n := TokenLength(t);
      var head, rest := TokenCode(t), Encode(t[n..]);
      assert t[n..] == s[at + n..] && |t[..n]| == n;
      FirstSpan(s, at);
      TokenDecodes(t, rest);
      SuffixSpans(s, at + n);
      SpansStep(head, rest, t[..n], |t| - n, at);
      CutStep(s, Span(StartsWithRun(t), at, at + n, |head|), Spans(rest, |t| - n, at + n).value);
    }
  }

  /** The code of a line cuts it into maximal runs and into literals that stop
      exactly where a run worth its code lies ahead. */
  lemma LineSpans(s: seq<byte>)
    requires TokensFit(s)
    ensures var x := Spans(Encode(s), |s|, 0); x.Some? && WellCut(s, x.value, 0)
  {
    assert s[0..] == s;
    SuffixSpans(s, 0);
  }

  /** There is only one such cut, so the line and these rules fix every token. */
  lemma {:induction false} CutIsUnique(s: seq<byte>, x: seq<Span>, y: seq<Span>, at: nat)
    requires WellCut(s, x, at) && WellCut(s, y, at)
    ensures x == y
    decreases |x|
  {
    if x != [] && y != [] {
      SpanIsUnique(s, x[0], y[0]);
      hide IsRun, IsLiteral;
      CutIsUnique(s, x[1..], y[1..], x[0].to);
      assert x == [x[0]] + x[1..] && y == [y[0]] + y[1..];
    }
  }

  lemma SpanIsUnique(s: seq<byte>, a: Span, b: Span)
    requires a.from == b.from
    requires if a.run then IsRun(s, a) else IsLiteral(s, a)
    requires if b.run then IsRun(s, b) else IsLiteral(s, b)
    ensures a == b
  {
    var i := a.from;
    if a.run {
      assert s[i + 1] == s[i];
    }
    if b.run {
      assert s[i + 1] == s[i];
    }
    assert a.run == b.run;
    if a.to < b.to {
      Shorter(s, a, b);
    } else if b.to < a.to {
      Shorter(s, b, a);
    }
  }

  /** Of two tokens of one kind at one place neither is shorter. */
  lemma Shorter(s: seq<byte>, a: Span, b: Span)
    requires a.from == b.from && a.run == b.run && a.to < b.to
    requires if a.run then IsRun(s, a) else IsLiteral(s, a)
    ensures if b.run then !IsRun(s, b) else !IsLiteral(s, b)
  {
  }
}
