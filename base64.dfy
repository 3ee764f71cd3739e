/**
 * The base64 encoding of section 4 of RFC 4648 (standard alphabet, `=` padding),
 * as applied to the JPEG bytes of every frame before they are put in a data URL.
 *
 * The encoding is built in two layers: bytes become base64 digits (six-bit values
 * and pads), and digits become characters through the alphabet table. `Encode` is
 * the encoder the pipeline uses; `Decode` is its strict inverse, the partner against
 * which the encoder is proved.
 */
module Base64 {
  import opened Wrappers

  type byte = x: int | 0 <= x < 256
  /** The value of one base64 digit: six bits. */
  type sextet = x: int | 0 <= x < 64

  /** One position of the encoded text: a six-bit digit or the pad `=`. */
  datatype Digit = Sextet(v: sextet) | Pad

  // ---------------------------------------------------------------------------
  // The alphabet
  // ---------------------------------------------------------------------------

  /** The value-to-character table of RFC 4648, section 4 (Table 1). */
  function EncodeChar(v: sextet): char
  {
    if v < 26 then (65 + v) as char             // 'A' .. 'Z'
    else if v < 52 then (97 + (v - 26)) as char // 'a' .. 'z'
    else if v < 62 then (48 + (v - 52)) as char // '0' .. '9'
    else if v == 62 then '+'
    else '/'
  }

  /** The characters of the alphabet; the pad character `=` is not one of them. */
  predicate IsAlphabetChar(c: char)
  {
    ('A' <= c <= 'Z') || ('a' <= c <= 'z') || ('0' <= c <= '9') || c == '+' || c == '/'
  }

  /** The table read backwards. */
  function DecodeChar(c: char): (v: sextet)
    requires IsAlphabetChar(c)
    ensures EncodeChar(v) == c
  {
    if 'A' <= c <= 'Z' then c as int - 65
    else if 'a' <= c <= 'z' then c as int - 97 + 26
    else if '0' <= c <= '9' then c as int - 48 + 52
    else if c == '+' then 62
    else 63
  }

  function DigitChar(d: Digit): char
  {
    match d
    case Sextet(v) => EncodeChar(v)
    case Pad => '='
  }

  function CharDigit(c: char): Option<Digit>
  {
    if c == '=' then Some(Pad)
    else if IsAlphabetChar(c) then Some(Sextet(DecodeChar(c)))
    else None
  }

  /** Every digit is written as a character that reads back as that digit. */
  lemma DigitCharRoundTrip(d: Digit)
    ensures CharDigit(DigitChar(d)) == Some(d)
  {
  }

  /** A character that reads as a digit is the character written for it. */
  lemma CharDigitRoundTrip(c: char)
    requires CharDigit(c).Some?
    ensures DigitChar(CharDigit(c).value) == c
  {
  }

  /** Digits to text, one character each. */
  function Render(ds: seq<Digit>): seq<char>
  {
    seq(|ds|, i requires 0 <= i < |ds| => DigitChar(ds[i]))
  }

  /** Text to digits; fails on any character outside the alphabet and `=`. */
  function Parse(s: seq<char>): Option<seq<Digit>>
  {
    if forall i :: 0 <= i < |s| ==> CharDigit(s[i]).Some? then
      Some(seq(|s|, i requires 0 <= i < |s| && CharDigit(s[i]).Some? => CharDigit(s[i]).value))
    else None
  }

  lemma ParseRender(ds: seq<Digit>)
    ensures Parse(Render(ds)) == Some(ds)
  {
    var s := Render(ds);
    forall i | 0 <= i < |s| ensures CharDigit(s[i]) == Some(ds[i]) {
      DigitCharRoundTrip(ds[i]);
    }
    assert forall i :: 0 <= i < |s| ==> CharDigit(s[i]).Some?;
    assert Parse(s).Some?;
    var p := Parse(s).value;
    assert |p| == |ds|;
    assert forall i :: 0 <= i < |p| ==> p[i] == ds[i];
    assert p == ds;
  }

  lemma RenderParse(s: seq<char>)
    requires Parse(s).Some?
    ensures Render(Parse(s).value) == s
  {
    var ds := Parse(s).value;
    forall i | 0 <= i < |s| ensures Render(ds)[i] == s[i] {
      CharDigitRoundTrip(s[i]);
    }
  }

  // ---------------------------------------------------------------------------
  // Bytes and digits
  // ---------------------------------------------------------------------------

  /** The 24 bits of three bytes, cut into four sextets, most significant first. */
  function SplitGroup(b0: byte, b1: byte, b2: byte): seq<sextet>
  {
    [b0 / 4, (b0 % 4) * 16 + b1 / 16, (b1 % 16) * 4 + b2 / 64, b2 % 64]
  }

  /** Four sextets, glued back into three bytes. */
  function JoinGroup(v0: sextet, v1: sextet, v2: sextet, v3: sextet): seq<byte>
  {
    [v0 * 4 + v1 / 16, (v1 % 16) * 16 + v2 / 4, (v2 % 4) * 64 + v3]
  }

  lemma JoinSplit(b0: byte, b1: byte, b2: byte)
    ensures var v := SplitGroup(b0, b1, b2); JoinGroup(v[0], v[1], v[2], v[3]) == [b0, b1, b2]
  {
    var r0, q1 := b0 % 4, b1 / 16;
    assert (r0 * 16 + q1) / 16 == r0 && (r0 * 16 + q1) % 16 == q1;
    var r1, q2 := b1 % 16, b2 / 64;
    assert (r1 * 4 + q2) / 4 == r1 && (r1 * 4 + q2) % 4 == q2;
  }

  lemma SplitJoin(v0: sextet, v1: sextet, v2: sextet, v3: sextet)
    ensures var b := JoinGroup(v0, v1, v2, v3); SplitGroup(b[0], b[1], b[2]) == [v0, v1, v2, v3]
  {
    var q1, r1 := v1 / 16, v1 % 16;
    assert (v0 * 4 + q1) / 4 == v0 && (v0 * 4 + q1) % 4 == q1;
    var q2, r2 := v2 / 4, v2 % 4;
    assert (r1 * 16 + q2) / 16 == r1 && (r1 * 16 + q2) % 16 == q2;
    assert (r2 * 64 + v3) / 64 == r2 && (r2 * 64 + v3) % 64 == v3;
  }

  /** Three bytes: four digits. */
  function Group(b0: byte, b1: byte, b2: byte): seq<Digit>
  {
    var v := SplitGroup(b0, b1, b2);
    [Sextet(v[0]), Sextet(v[1]), Sextet(v[2]), Sextet(v[3])]
  }

  /** A final two bytes: three digits (the last one zero-filled) and a pad. */
  function Tail2(b0: byte, b1: byte): seq<Digit>
  {
    var v := SplitGroup(b0, b1, 0);
    [Sextet(v[0]), Sextet(v[1]), Sextet(v[2]), Pad]
  }

  /** A final byte: two digits (the second one zero-filled) and two pads. */
  function Tail1(b0: byte): seq<Digit>
  {
    var v := SplitGroup(b0, 0, 0);
    [Sextet(v[0]), Sextet(v[1]), Pad, Pad]
  }

  /** Groups of three bytes from the front; the last group, if short, is padded. */
  function ToDigits(b: seq<byte>): seq<Digit>
    decreases |b|
  {
    if |b| == 0 then []
    else if |b| == 1 then Tail1(b[0])
    else if |b| == 2 then Tail2(b[0], b[1])
    else Group(b[0], b[1], b[2]) + ToDigits(b[3..])
  }

  /** Four digits without a pad: three bytes. */
  function FullGroup(d0: Digit, d1: Digit, d2: Digit, d3: Digit): Option<seq<byte>>
  {
    if d0.Sextet? && d1.Sextet? && d2.Sextet? && d3.Sextet? then
      Some(JoinGroup(d0.v, d1.v, d2.v, d3.v))
    else None
  }

  /**
   * The last four digits, which may end in one or two pads. The bits that the
   * pads leave over must be zero, so that every encoding has exactly one decoding.
   */
  function FinalGroup(d0: Digit, d1: Digit, d2: Digit, d3: Digit): Option<seq<byte>>
  {
    if d3.Sextet? then FullGroup(d0, d1, d2, d3)
    else if d2.Pad? then
      if d0.Sextet? && d1.Sextet? && d1.v % 16 == 0 then Some(JoinGroup(d0.v, d1.v, 0, 0)[..1])
      else None
    else if d0.Sextet? && d1.Sextet? && d2.v % 4 == 0 then Some(JoinGroup(d0.v, d1.v, d2.v, 0)[..2])
    else None
  }

  /** Strict decoding of digits: a multiple of four, pads only at the very end. */
  function FromDigits(d: seq<Digit>): Option<seq<byte>>
    decreases |d|
  {
    if |d| == 0 then Some([])
    else if |d| < 4 then None
    else if |d| == 4 then FinalGroup(d[0], d[1], d[2], d[3])
    else match FullGroup(d[0], d[1], d[2], d[3])
      case None => None
      case Some(g) =>
        match FromDigits(d[4..])
        case None => None
        case Some(rest) => Some(g + rest)
  }

  // ---------------------------------------------------------------------------
  // The codec
  // ---------------------------------------------------------------------------

  /** `base64.b64encode`. */
  function Encode(b: seq<byte>): seq<char>
  {
    Render(ToDigits(b))
  }

  /** Strict base64 decoding: the inverse of `Encode`. */
  function Decode(s: seq<char>): Option<seq<byte>>
  {
    match Parse(s)
    case None => None
    case Some(d) => FromDigits(d)
  }

  /** Every text character is in the alphabet or is a pad. */
  predicate IsBase64Text(s: seq<char>)
  {
    forall i :: 0 <= i < |s| ==> IsAlphabetChar(s[i]) || s[i] == '='
  }

  // ---------------------------------------------------------------------------
  // Properties
  // ---------------------------------------------------------------------------

  lemma {:induction false} ToDigitsLength(b: seq<byte>)
    ensures |ToDigits(b)| == 4 * ((|b| + 2) / 3)
    decreases |b|
  {
    if |b| > 3 {
      ToDigitsLength(b[3..]);
    }
  }

  /** The encoding of n bytes has 4 * ceil(n / 3) characters, all from the alphabet or `=`. */
  lemma EncodeShape(b: seq<byte>)
    ensures |Encode(b)| == 4 * ((|b| + 2) / 3)
    ensures IsBase64Text(Encode(b))
  {
    ToDigitsLength(b);
    var ds := ToDigits(b);
    forall i | 0 <= i < |ds| ensures IsAlphabetChar(Encode(b)[i]) || Encode(b)[i] == '=' {
      DigitCharRoundTrip(ds[i]);
    }
  }

  /** A final byte comes back from its padded group. */
  lemma Tail1Decodes(b0: byte)
    ensures var t := Tail1(b0); FinalGroup(t[0], t[1], t[2], t[3]) == Some([b0])
  {
    var u := SplitGroup(b0, 0, 0);
    assert u[1] % 16 == 0 && u[2] == 0 && u[3] == 0;
    JoinSplit(b0, 0, 0);
    assert JoinGroup(u[0], u[1], 0, 0)[..1] == [b0];
  }

  /** Two final bytes come back from their padded group. */
  lemma Tail2Decodes(b0: byte, b1: byte)
    ensures var t := Tail2(b0, b1); FinalGroup(t[0], t[1], t[2], t[3]) == Some([b0, b1])
  {
    var w := SplitGroup(b0, b1, 0);
    assert w[2] % 4 == 0 && w[3] == 0;
    JoinSplit(b0, b1, 0);
    assert JoinGroup(w[0], w[1], w[2], 0)[..2] == [b0, b1];
  }

  /** Three bytes come back from their group. */
  lemma GroupDecodes(b0: byte, b1: byte, b2: byte)
    ensures var t := Group(b0, b1, b2); FullGroup(t[0], t[1], t[2], t[3]) == Some([b0, b1, b2])
    ensures var t := Group(b0, b1, b2); FinalGroup(t[0], t[1], t[2], t[3]) == Some([b0, b1, b2])
  {
    JoinSplit(b0, b1, b2);
  }

  /** The bytes come back from their digits. */
  lemma {:induction false} FromToDigits(b: seq<byte>)
    ensures FromDigits(ToDigits(b)) == Some(b)
    decreases |b|
  {
    if |b| == 0 {
    } else if |b| <= 3 {
      if |b| == 1 {
        Tail1Decodes(b[0]);
        assert b == [b[0]];
      } else if |b| == 2 {
        Tail2Decodes(b[0], b[1]);
        assert b == [b[0], b[1]];
      } else {
        GroupDecodes(b[0], b[1], b[2]);
        assert b[3..] == [];
        assert ToDigits(b) == Group(b[0], b[1], b[2]);
        assert b == [b[0], b[1], b[2]];
      }
    } else {
      var g, t := Group(b[0], b[1], b[2]), ToDigits(b[3..]);
      FromToDigits(b[3..]);
      ToDigitsLength(b[3..]);
      GroupDecodes(b[0], b[1], b[2]);
      assert (g + t)[4..] == t;
      assert [b[0], b[1], b[2]] + b[3..] == b;
    }
  }

  /** Digits that decode at all are the digits of what they decode to. */
  lemma {:induction false} ToFromDigits(d: seq<Digit>)
    requires FromDigits(d).Some?
    ensures ToDigits(FromDigits(d).value) == d
    decreases |d|
  {
    var b := FromDigits(d).value;
    if |d| == 4 {
      if d[3].Sextet? {
        SplitJoin(d[0].v, d[1].v, d[2].v, d[3].v);
        assert b[3..] == [];
      } else if d[2].Pad? {
        SplitJoin(d[0].v, d[1].v, 0, 0);
      } else {
        SplitJoin(d[0].v, d[1].v, d[2].v, 0);
      }
    } else if |d| > 4 {
      var g, rest := JoinGroup(d[0].v, d[1].v, d[2].v, d[3].v), FromDigits(d[4..]).value;
      ToFromDigits(d[4..]);
      SplitJoin(d[0].v, d[1].v, d[2].v, d[3].v);
      assert b == g + rest;
      assert rest != [] by {
        assert |ToDigits(rest)| > 0;
      }
      assert b[3..] == rest;
      assert d == d[..4] + d[4..];
    }
  }

  /** Decoding undoes encoding. */
  lemma DecodeEncode(b: seq<byte>)
    ensures Decode(Encode(b)) == Some(b)
  {
    ParseRender(ToDigits(b));
    FromToDigits(b);
  }

  /** Encoding undoes decoding: a text that decodes at all is the one encoding of its bytes. */
  lemma EncodeDecode(s: seq<char>)
    requires Decode(s).Some?
    ensures Encode(Decode(s).value) == s
  {
    var d := Parse(s).value;
    ToFromDigits(d);
    RenderParse(s);
  }

  /** The two directions together: `Decode` and `Encode` are inverse bijections. */
  lemma DecodeIffEncode(s: seq<char>, b: seq<byte>)
    ensures Decode(s) == Some(b) <==> Encode(b) == s
  {
    if Decode(s) == Some(b) {
      EncodeDecode(s);
    }
    if Encode(b) == s {
      DecodeEncode(b);
    }
  }

  /** The test vectors of RFC 4648, section 10: "", "f", "fo", "foo". */
  lemma RfcTestVectorF()
    ensures Encode([]) == ""
    ensures Encode([102]) == "Zg=="
  {
    assert EncodeChar(25) == 'Z' && EncodeChar(32) == 'g';
    assert ToDigits([102]) == [Sextet(25), Sextet(32), Pad, Pad];
  }

  lemma RfcTestVectorFo()
    ensures Encode([102, 111]) == "Zm8="
  {
    assert EncodeChar(25) == 'Z' && EncodeChar(38) == 'm' && EncodeChar(60) == '8';
    assert ToDigits([102, 111]) == [Sextet(25), Sextet(38), Sextet(60), Pad];
  }

  lemma RfcTestVectorFoo()
    ensures Encode([102, 111, 111]) == "Zm9v"
  {
    assert EncodeChar(25) == 'Z' && EncodeChar(38) == 'm';
    assert EncodeChar(61) == '9' && EncodeChar(47) == 'v';
    assert [102, 111, 111][3..] == [];
    assert ToDigits([102, 111, 111]) == [Sextet(25), Sextet(38), Sextet(61), Sextet(47)];
  }

  /** The test vector of RFC 4648, section 10: "foobar". */
  lemma RfcTestVectorLong()
    ensures Encode([102, 111, 111, 98, 97, 114]) == "Zm9vYmFy"
  {
    assert EncodeChar(25) == 'Z' && EncodeChar(38) == 'm' && EncodeChar(61) == '9';
    assert EncodeChar(47) == 'v' && EncodeChar(24) == 'Y' && EncodeChar(5) == 'F' && EncodeChar(50) == 'y';
    assert [102, 111, 111, 98, 97, 114][3..] == [98, 97, 114];
    assert [98, 97, 114][3..] == [];
    assert ToDigits([98, 97, 114]) == [Sextet(24), Sextet(38), Sextet(5), Sextet(50)];
    assert ToDigits([102, 111, 111, 98, 97, 114])
        == [Sextet(25), Sextet(38), Sextet(61), Sextet(47), Sextet(24), Sextet(38), Sextet(5), Sextet(50)];
  }
}
