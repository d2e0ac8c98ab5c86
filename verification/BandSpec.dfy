/** The compressed form of one scan line and of one band, as the Samsung GDI
    printer driver writes it (gdevgdi.c), with the decoder that its four
    control-code classes determine.

    Top two bits of a control byte:
      00  literal, 1..64 bytes follow                 (one control byte)
      01  run of 2..65 copies of the next byte        (one control byte, count inverted)
      10  literal, low 14 bits of a 16-bit code + 1   (two control bytes)
      11  run, low 14 bits of a 16-bit code inverted  (two control bytes)
 */
module BandSpec {

  type byte = x: int | 0 <= x < 256

  datatype Option<+T> = None | Some(value: T)

  // ---------------------------------------------------------------- tokens

  /** Number of leading elements equal to the first one, given that the first n are. */
  function RunFrom(s: seq<byte>, n: nat): (r: nat)
    requires 1 <= n <= |s|
    requires forall k :: 0 <= k < n ==> s[k] == s[0]
    ensures n <= r <= |s|
    ensures forall k :: 0 <= k < r ==> s[k] == s[0]
    ensures r < |s| ==> s[r] != s[0]
    decreases |s| - n
  {
    if n < |s| && s[n] == s[0] then RunFrom(s, n + 1) else n
  }

  /** A pair at p is worth leaving a literal for: either it is a triple, or it
      lies within the last three bytes of the line. */
  predicate Worthwhile(s: seq<byte>, p: nat) {
    && p + 1 < |s|
    && s[p] == s[p + 1]
    && (|s| <= p + 3 || s[p + 2] == s[p])
  }

  /** The first worthwhile position at or after p, or the end of the line. */
  function FirstRun(s: seq<byte>, p: nat): (r: nat)
    requires p <= |s|
    ensures p <= r <= |s|
    ensures forall k :: p <= k < r ==> !Worthwhile(s, k)
    ensures r < |s| ==> Worthwhile(s, r)
    decreases |s| - p
  {
    if p == |s| || Worthwhile(s, p) then p else FirstRun(s, p + 1)
  }

  predicate StartsWithRun(s: seq<byte>) {
    |s| >= 2 && s[0] == s[1]
  }

  /** Bytes of the line covered by its first token. */
  function TokenLength(s: seq<byte>): (r: nat)
    requires |s| > 0
    ensures 1 <= r <= |s|
  {
    if StartsWithRun(s) then RunFrom(s, 2) else FirstRun(s, 1)
  }

  // -------------------------------------------------------------- encoding

  /** Control code and value byte of a run of n copies of b. */
  function RunCode(n: nat, b: byte): (r: seq<byte>)
    requires n >= 2
    ensures |r| == if n - 2 >= 64 then 3 else 2
  {
    var c := n - 2;
    if c >= 64 then
      var w := 0xc000 + (0x3fff - c % 0x4000);
      [w / 256, w % 256, b]
    else
      [0x7f - c, b]
  }

  /** Control bytes of a literal of n bytes. */
  function LiteralHead(n: nat): (r: seq<byte>)
    requires n >= 1
    ensures |r| == if n - 1 >= 64 then 2 else 1
  {
    var c := n - 1;
    if c >= 64 then
      var w := 0x8000 + c % 0x4000;
      [w / 256, w % 256]
    else
      [c]
  }

  function TokenCode(s: seq<byte>): (r: seq<byte>)
    requires |s| > 0
  {
    var n := TokenLength(s);
    if StartsWithRun(s) then RunCode(n, s[0]) else LiteralHead(n) + s[..n]
  }

  function Encode(s: seq<byte>): seq<byte>
    decreases |s|
  {
    if s == [] then [] else TokenCode(s) + Encode(s[TokenLength(s)..])
  }

  /** The first `lines` lines of `width` bytes, compressed one after the other. */
  function EncodeLines(s: seq<byte>, lines: nat, width: nat): seq<byte>
    requires lines * width <= |s|
    decreases lines
  {
    if lines == 0 then []
    else
      assert (lines - 1) * width + width == lines * width;
      EncodeLines(s, lines - 1, width) + Encode(s[(lines - 1) * width..lines * width])
  }

  /** How many zero bytes round n up to a multiple of four. */
  function PadLength(n: nat): (r: nat)
    ensures r < 4
    ensures (n + r) % 4 == 0
  {
    (4 - n % 4) % 4
  }

  function Zeros(n: nat): (r: seq<byte>)
    ensures |r| == n
    ensures forall k :: 0 <= k < n ==> r[k] == 0
  {
    seq(n, _ => 0)
  }

  function EncodeBand(s: seq<byte>, lines: nat, width: nat): (r: seq<byte>)
    requires lines * width <= |s|
    ensures |r| % 4 == 0
  {
    var body := EncodeLines(s, lines, width);
    body + Zeros(PadLength(|body|))
  }

  // -------------------------------------------------------------- decoding

  /** One decoded token: the bytes it stands for and how much code it took. */
  datatype Piece = Piece(bytes: seq<byte>, used: nat)

  function DecodeToken(code: seq<byte>): (r: Option<Piece>)
    ensures r.Some? ==> 1 <= r.value.used <= |code| && |r.value.bytes| >= 1
  {
    if code == [] then None
    else
      var class_: int, low: int := code[0] / 64, code[0] % 64;
      if class_ == 0 then
        if |code| < low + 2 then None else Some(Piece(code[1..low + 2], low + 2))
      else if class_ == 1 then
        if |code| < 2 then None else Some(Piece(seq(63 - low + 2, _ => code[1]), 2))
      else if |code| < 3 then None
      else
        var w: int := low * 256 + code[1];
        if class_ == 2 then
          if |code| < w + 3 then None else Some(Piece(code[2..w + 3], w + 3))
        else
          Some(Piece(seq(0x3fff - w + 2, _ => code[2]), 3))
  }

  /** Decode tokens until exactly n bytes are out; also gives the code left over. */
  function DecodeLine(code: seq<byte>, n: nat): Option<(seq<byte>, seq<byte>)>
    decreases n
  {
    if n == 0 then Some(([], code))
    else match DecodeToken(code)
      case None => None
      case Some(p) =>
        if |p.bytes| > n then None
        else match DecodeLine(code[p.used..], n - |p.bytes|)
          case None => None
          case Some(r) => Some((p.bytes + r.0, r.1))
  }

  /** Decode `lines` lines of `width` bytes one after the other. */
  function DecodeBand(code: seq<byte>, lines: nat, width: nat): Option<(seq<byte>, seq<byte>)>
    decreases lines
  {
    if lines == 0 then Some(([], code))
    else match DecodeLine(code, width)
      case None => None
      case Some(l) =>
        match DecodeBand(l.1, lines - 1, width)
        case None => None
        case Some(r) => Some((l.0 + r.0, r.1))
  }
}
