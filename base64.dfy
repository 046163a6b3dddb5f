/*
 * Base64 as `Convert.ToBase64String` writes it: the alphabet and padding of
 * section 4 of RFC 4648, no line breaks. A decoder is given beside it so the
 * encoding can be shown to lose nothing.
 */
module Base64 {
  import opened Prelude

  /** The character for a 6-bit value (table 1 of RFC 4648). */
  function Digit(v: nat): (c: char)
    requires v < 64
  {
    if v < 26 then ('A' as int + v) as char
    else if v < 52 then ('a' as int + v - 26) as char
    else if v < 62 then ('0' as int + v - 52) as char
    else if v == 62 then '+'
    else '/'
  }

  /** The 6-bit value of an alphabet character, or -1 for any other character. */
  function DigitValue(c: char): (v: int)
    ensures -1 <= v < 64
  {
    if 'A' <= c <= 'Z' then c as int - 'A' as int
    else if 'a' <= c <= 'z' then c as int - 'a' as int + 26
    else if '0' <= c <= '9' then c as int - '0' as int + 52
    else if c == '+' then 62
    else if c == '/' then 63
    else -1
  }

  lemma DigitValueDigit(v: nat)
    requires v < 64
    ensures DigitValue(Digit(v)) == v
  {
  }

  /** The four characters for three bytes: each carries six of their 24 bits, high bits first. */
  function Quad(b0: byte, b1: byte, b2: byte): (q: string)
    ensures |q| == 4
  {
    [Digit(b0 / 4), Digit((b0 % 4) * 16 + b1 / 16), Digit((b1 % 16) * 4 + b2 / 64), Digit(b2 % 64)]
  }

  /** `Convert.ToBase64String(bytes)`. */
  function Encode(b: seq<byte>): (r: string)
    decreases |b|
  {
    if |b| == 0 then ""
    else if |b| == 1 then
      var q := Quad(b[0], 0, 0); q[..2] + "=="
    else if |b| == 2 then
      var q := Quad(b[0], b[1], 0); q[..3] + "="
    else Quad(b[0], b[1], b[2]) + Encode(b[3..])
  }

  /** Three bytes from the values of four alphabet characters. */
  function Unquad(s: string): (r: seq<byte>)
    requires |s| == 4 && forall i :: 0 <= i < 4 ==> DigitValue(s[i]) >= 0
  {
    var d0, d1, d2, d3 := DigitValue(s[0]), DigitValue(s[1]), DigitValue(s[2]), DigitValue(s[3]);
    [d0 * 4 + d1 / 16, (d1 % 16) * 16 + d2 / 4, (d2 % 4) * 64 + d3]
  }

  /** Decoding of padded Base64 text; `None` for text that is not well formed. */
  function Decode(s: string): (r: Option<seq<byte>>)
    decreases |s|
  {
    if |s| == 0 then Some([])
    else if |s| < 4 then None
    else
      var q := s[..4];
      if |s| == 4 && q[2] == '=' && q[3] == '=' && DigitValue(q[0]) >= 0 && DigitValue(q[1]) >= 0 then
        Some(Unquad([q[0], q[1], 'A', 'A'])[..1])
      else if |s| == 4 && q[3] == '=' && DigitValue(q[0]) >= 0 && DigitValue(q[1]) >= 0 && DigitValue(q[2]) >= 0 then
        Some(Unquad([q[0], q[1], q[2], 'A'])[..2])
      else if DigitValue(q[0]) >= 0 && DigitValue(q[1]) >= 0 && DigitValue(q[2]) >= 0 && DigitValue(q[3]) >= 0 then
        match Decode(s[4..])
        case Some(rest) => Some(Unquad(q) + rest)
        case None => None
      else None
  }

  lemma QuadValues(b0: byte, b1: byte, b2: byte)
    ensures var q := Quad(b0, b1, b2);
      (forall i :: 0 <= i < 4 ==> DigitValue(q[i]) >= 0) && Unquad(q) == [b0, b1, b2]
  {
    var d0, d1, d2, d3 := b0 / 4, (b0 % 4) * 16 + b1 / 16, (b1 % 16) * 4 + b2 / 64, b2 % 64;
    DigitValueDigit(d0);
    DigitValueDigit(d1);
    DigitValueDigit(d2);
    DigitValueDigit(d3);
    Split(b0 % 4, b1 / 16, 16);
    Split(b1 % 16, b2 / 64, 4);
    assert d0 * 4 + d1 / 16 == b0;
    assert (d1 % 16) * 16 + d2 / 4 == b1;
    assert (d2 % 4) * 64 + d3 == b2;
  }

  /** A value written as `hi * k + lo` with `lo < k` splits back into its parts. */
  lemma Split(hi: nat, lo: nat, k: nat)
    requires k == 4 || k == 16
    requires 0 <= lo < k
    ensures (hi * k + lo) / k == hi && (hi * k + lo) % k == lo
  {
    if k == 4 {
      assert hi * k + lo == 4 * hi + lo;
    } else {
      assert hi * k + lo == 16 * hi + lo;
    }
  }

  /** Every output is four characters per started group of three bytes. */
  lemma {:induction false} EncodeLength(b: seq<byte>)
    ensures |Encode(b)| == 4 * ((|b| + 2) / 3)
    decreases |b|
  {
    var n := |b|;
    if n >= 3 {
      EncodeLength(b[3..]);
      assert |Encode(b)| == 4 + |Encode(b[3..])|;
      assert (n + 2) / 3 == 1 + (n - 3 + 2) / 3;
    } else if n > 0 {
      assert (n + 2) / 3 == 1;
    } else {
      assert (n + 2) / 3 == 0;
    }
  }

  lemma DecodeOneByte(b: seq<byte>)
    requires |b| == 1
    ensures Decode(Encode(b)) == Some(b)
  {
    QuadValues(b[0], 0, 0);
    var q := Quad(b[0], 0, 0);
    var s := Encode(b);
    assert s == [q[0], q[1], '=', '='];
    assert s[..4] == s;
    assert [q[0], q[1], 'A', 'A'] == q;
    assert Unquad(q)[..1] == b;
  }

  lemma DecodeTwoBytes(b: seq<byte>)
    requires |b| == 2
    ensures Decode(Encode(b)) == Some(b)
  {
    QuadValues(b[0], b[1], 0);
    var q := Quad(b[0], b[1], 0);
    var s := Encode(b);
    assert s == [q[0], q[1], q[2], '='];
    assert [q[0], q[1], q[2], 'A'] == q;
    assert q[2] != '=' by { assert DigitValue('=') == -1; }
    assert Unquad(q)[..2] == b;
  }

  /** Decoding undoes `Convert.ToBase64String`. */
  lemma {:induction false} DecodeEncode(b: seq<byte>)
    ensures Decode(Encode(b)) == Some(b)
    decreases |b|
  {
    if |b| == 1 {
      DecodeOneByte(b);
    } else if |b| == 2 {
      DecodeTwoBytes(b);
    } else if |b| >= 3 {
      QuadValues(b[0], b[1], b[2]);
      var q := Quad(b[0], b[1], b[2]);
      assert Encode(b) == q + Encode(b[3..]);
      DecodeGroup(q, Encode(b[3..]));
      DecodeEncode(b[3..]);
      assert b == Unquad(q) + b[3..];
    }
  }

  /** A group of four alphabet characters decodes to three bytes ahead of whatever follows. */
  lemma DecodeGroup(q: string, t: string)
    requires |q| == 4 && forall i :: 0 <= i < 4 ==> DigitValue(q[i]) >= 0
    ensures Decode(q + t) == match Decode(t)
      case Some(rest) => Some(Unquad(q) + rest)
      case None => None
  {
    var s := q + t;
    assert s[..4] == q && s[4..] == t;
    assert DigitValue('=') == -1;
  }

  /** Every output character is an alphabet character or the padding `=`. */
  lemma {:induction false} EncodeAlphabet(b: seq<byte>)
    ensures forall i :: 0 <= i < |Encode(b)| ==> DigitValue(Encode(b)[i]) >= 0 || Encode(b)[i] == '='
    decreases |b|
  {
    if |b| == 1 {
      QuadValues(b[0], 0, 0);
    } else if |b| == 2 {
      QuadValues(b[0], b[1], 0);
    } else if |b| >= 3 {
      QuadValues(b[0], b[1], b[2]);
      EncodeAlphabet(b[3..]);
      var q := Quad(b[0], b[1], b[2]);
      assert forall i :: 4 <= i < |Encode(b)| ==> Encode(b)[i] == Encode(b[3..])[i - 4];
    }
  }
}
