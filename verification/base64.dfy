/** The base64 alphabet and codec of section 4 of RFC 4648, as Python's
    `base64.b64encode` and `base64.b64decode` apply it to the `byte` string
    format. Decoding is strict: the length must be a multiple of four and
    `=` may only pad the final group. */
module Base64 {
  import opened Wrappers
  import opened Bytes

  /** The character for a 6-bit value. */
  function Sym(v: nat): (c: char)
    requires v < 64
    ensures c as int < 0x80
  {
    if v < 26 then ('A' as int + v) as char
    else if v < 52 then ('a' as int + (v - 26)) as char
    else if v < 62 then ('0' as int + (v - 52)) as char
    else if v == 62 then '+'
    else '/'
  }

  /** The 6-bit value of an alphabet byte, `None` for any other byte. */
  function SymValue(b: byte): (r: Option<nat>)
    ensures r.Some? ==> r.value < 64
  {
    if 'A' as int <= b <= 'Z' as int then Some(b - 'A' as int)
    else if 'a' as int <= b <= 'z' as int then Some(b - 'a' as int + 26)
    else if '0' as int <= b <= '9' as int then Some(b - '0' as int + 52)
    else if b == '+' as int then Some(62)
    else if b == '/' as int then Some(63)
    else None
  }

  lemma SymValueOfSym(v: nat)
    requires v < 64
    ensures SymValue(Sym(v) as int) == Some(v)
  {
  }

  const Pad: byte := '=' as int

  /** `base64.b64encode(b).decode()` */
  function Encode(b: seq<byte>): (s: string)
    ensures |s| == 4 * ((|b| + 2) / 3)
    ensures forall i :: 0 <= i < |s| ==> s[i] as int < 0x80
    decreases |b|
  {
    if |b| == 0 then ""
    else if |b| == 1 then [Sym(b[0] / 4), Sym((b[0] % 4) * 16), '=', '=']
    else if |b| == 2 then [Sym(b[0] / 4), Sym((b[0] % 4) * 16 + b[1] / 16), Sym((b[1] % 16) * 4), '=']
    else
      var group := [Sym(b[0] / 4), Sym((b[0] % 4) * 16 + b[1] / 16), Sym((b[1] % 16) * 4 + b[2] / 64), Sym(b[2] % 64)];
      group + Encode(b[3..])
  }

  /** One group of four symbols without padding: three bytes. */
  function DecodeFull(g: seq<byte>): Option<seq<byte>>
    requires |g| == 4
  {
    match (SymValue(g[0]), SymValue(g[1]), SymValue(g[2]), SymValue(g[3]))
    case (Some(c0), Some(c1), Some(c2), Some(c3)) =>
      Some([c0 * 4 + c1 / 16, (c1 % 16) * 16 + c2 / 4, (c2 % 4) * 64 + c3])
    case _ => None
  }

  /** The final group, which may end in one or two `=`. */
  function DecodeLast(g: seq<byte>): Option<seq<byte>>
    requires |g| == 4
  {
    if g[2] == Pad && g[3] == Pad then
      match (SymValue(g[0]), SymValue(g[1]))
      case (Some(c0), Some(c1)) => Some([c0 * 4 + c1 / 16])
      case _ => None
    else if g[3] == Pad then
      match (SymValue(g[0]), SymValue(g[1]), SymValue(g[2]))
      case (Some(c0), Some(c1), Some(c2)) => Some([c0 * 4 + c1 / 16, (c1 % 16) * 16 + c2 / 4])
      case _ => None
    else DecodeFull(g)
  }

  /** `base64.b64decode(s)`; `None` stands for the `binascii.Error` it raises. */
  function Decode(s: seq<byte>): Option<seq<byte>>
    decreases |s|
  {
    if |s| == 0 then Some([])
    else if |s| < 4 then None
    else if |s| == 4 then DecodeLast(s)
    else
      match DecodeFull(s[..4])
      case None => None
      case Some(head) =>
        match Decode(s[4..])
        case None => None
        case Some(tail) => Some(head + tail)
  }

  /** The bytes of encoded text, as `str.encode()` yields them. */
  function EncodeBytes(b: seq<byte>): seq<byte> {
    Utf8(Encode(b))
  }

  lemma {:induction false} EncodeBytesShape(b: seq<byte>)
    ensures |EncodeBytes(b)| == |Encode(b)|
    ensures forall i :: 0 <= i < |Encode(b)| ==> EncodeBytes(b)[i] == Encode(b)[i] as int
  {
    Utf8Ascii(Encode(b));
  }

  lemma Rebuild0(b0: byte, b1: byte)
    ensures var x := (b0 % 4) * 16 + b1 / 16; x < 64 && (b0 / 4) * 4 + x / 16 == b0 && x % 16 == b1 / 16
  {
  }

  lemma Rebuild1(b1: byte, b2: byte)
    ensures var y := (b1 % 16) * 4 + b2 / 64; y < 64 && (b1 / 16) * 16 + y / 4 == b1 && y % 4 == b2 / 64
  {
  }

  lemma Rebuild2(b2: byte)
    ensures (b2 / 64) * 64 + b2 % 64 == b2
  {
  }

  lemma FullGroup(b0: byte, b1: byte, b2: byte)
    ensures DecodeFull([Sym(b0 / 4) as int, Sym((b0 % 4) * 16 + b1 / 16) as int,
                        Sym((b1 % 16) * 4 + b2 / 64) as int, Sym(b2 % 64) as int]) == Some([b0, b1, b2])
  {
    Rebuild0(b0, b1);
    Rebuild1(b1, b2);
    Rebuild2(b2);
    SymValueOfSym(b0 / 4);
    SymValueOfSym((b0 % 4) * 16 + b1 / 16);
    SymValueOfSym((b1 % 16) * 4 + b2 / 64);
    SymValueOfSym(b2 % 64);
  }

  function Group(b0: byte, b1: byte, b2: byte): string {
    [Sym(b0 / 4), Sym((b0 % 4) * 16 + b1 / 16), Sym((b1 % 16) * 4 + b2 / 64), Sym(b2 % 64)]
  }

  lemma ShortCases(b: seq<byte>)
    requires 1 <= |b| <= 2
    ensures Decode(EncodeBytes(b)) == Some(b)
  {
    EncodeBytesShape(b);
    SymValueOfSym(b[0] / 4);
    if |b| == 1 {
      OneByte(b);
    } else {
      TwoBytes(b);
    }
  }

  lemma OneByte(b: seq<byte>)
    requires |b| == 1
    requires |EncodeBytes(b)| == |Encode(b)|
    requires forall i :: 0 <= i < |Encode(b)| ==> EncodeBytes(b)[i] == Encode(b)[i] as int
    ensures Decode(EncodeBytes(b)) == Some(b)
  {
    var s := Encode(b);
    var e := EncodeBytes(b);
    SymValueOfSym(b[0] / 4);
    SymValueOfSym((b[0] % 4) * 16);
    Rebuild0(b[0], 0);
    assert e == [s[0] as int, s[1] as int, Pad, Pad];
    var c0 := b[0] / 4;
    var c1 := (b[0] % 4) * 16;
    assert DecodeLast(e) == Some([c0 * 4 + c1 / 16]);
    assert [c0 * 4 + c1 / 16] == b;
  }

  lemma TwoBytes(b: seq<byte>)
    requires |b| == 2
    requires |EncodeBytes(b)| == |Encode(b)|
    requires forall i :: 0 <= i < |Encode(b)| ==> EncodeBytes(b)[i] == Encode(b)[i] as int
    ensures Decode(EncodeBytes(b)) == Some(b)
  {
    var s := Encode(b);
    var e := EncodeBytes(b);
    assert s == [Sym(b[0] / 4), Sym((b[0] % 4) * 16 + b[1] / 16), Sym((b[1] % 16) * 4), '='];
    assert e == [s[0] as int, s[1] as int, s[2] as int, Pad];
    PairGroup(b[0], b[1]);
    assert b == [b[0], b[1]];
  }

  /** The padded group of two bytes decodes to them. */
  lemma PairGroup(b0: byte, b1: byte)
    ensures DecodeLast([Sym(b0 / 4) as int, Sym((b0 % 4) * 16 + b1 / 16) as int, Sym((b1 % 16) * 4) as int, Pad])
         == Some([b0, b1])
  {
    var c0 := b0 / 4;
    var c1 := (b0 % 4) * 16 + b1 / 16;
    var c2 := (b1 % 16) * 4;
    Rebuild0(b0, b1);
    Rebuild1(b1, 0);
    SymValueOfSym(c0);
    SymValueOfSym(c1);
    SymValueOfSym(c2);
    var g := [Sym(c0) as int, Sym(c1) as int, Sym(c2) as int, Pad];
    assert g[2] != Pad by { assert SymValue(g[2]).Some? && SymValue(Pad).None?; }
    assert c0 * 4 + c1 / 16 == b0;
    assert (c1 % 16) * 16 + c2 / 4 == b1;
  }

  /** The encoded bytes of three or more bytes: one full group, which
      decodes to the first three, and the encoding of the rest. */
  lemma FirstGroup(b: seq<byte>)
    requires |b| >= 3
    ensures |Utf8(Group(b[0], b[1], b[2]))| == 4
    ensures EncodeBytes(b) == Utf8(Group(b[0], b[1], b[2])) + EncodeBytes(b[3..])
    ensures DecodeFull(Utf8(Group(b[0], b[1], b[2]))) == Some(b[..3])
  {
    var g := Group(b[0], b[1], b[2]);
    var rest := Encode(b[3..]);
    assert Encode(b) == g + rest;
    Utf8Concat(g, rest);
    var ge := Utf8(g);
    Utf8Ascii(g);
    assert ge == [g[0] as int, g[1] as int, g[2] as int, g[3] as int];
    FullGroup(b[0], b[1], b[2]);
    assert b[..3] == [b[0], b[1], b[2]];
  }

  /** `b64decode(b64encode(b)) == b` for every byte string. */
  lemma {:induction false} DecodeEncode(b: seq<byte>)
    ensures Decode(EncodeBytes(b)) == Some(b)
    decreases |b|
  {
    if 1 <= |b| <= 2 {
      ShortCases(b);
    } else if |b| >= 3 {
      FirstGroup(b);
      DecodeEncode(b[3..]);
      var ge := Utf8(Group(b[0], b[1], b[2]));
      var e := EncodeBytes(b);
      if |b| == 3 {
        assert e == ge;
        assert DecodeLast(e) == DecodeFull(e);
        assert b == b[..3];
      } else {
        assert e[..4] == ge;
        assert e[4..] == EncodeBytes(b[3..]);
        assert b == b[..3] + b[3..];
      }
    }
  }

  /** The example the byte format is documented with: `b'test'` is `'dGVzdA=='`. */
  lemma EncodeTest()
    ensures Encode(['t' as int, 'e' as int, 's' as int, 't' as int]) == "dGVzdA=="
  {
  }
}
