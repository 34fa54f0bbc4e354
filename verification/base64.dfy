/** Base64 with the standard alphabet and `=` padding (section 4 of RFC 4648),
    as Node's `Buffer` encodes it, and its decoding of the strings that the
    `IsBase64` validator accepts. */
module Base64 {

  type byte = b: int | 0 <= b < 256
  type sextet = x: int | 0 <= x < 64

  predicate IsAlphabetChar(c: char) {
    ('A' <= c <= 'Z') || ('a' <= c <= 'z') || ('0' <= c <= '9') || c == '+' || c == '/'
  }

  /** The character for a 6-bit value (Table 1 of RFC 4648). */
  function CharOf(x: sextet): (c: char)
    ensures IsAlphabetChar(c)
  {
    if x < 26 then ('A' as int + x) as char
    else if x < 52 then ('a' as int + (x - 26)) as char
    else if x < 62 then ('0' as int + (x - 52)) as char
    else if x == 62 then '+'
    else '/'
  }

  /** The 6-bit value of an alphabet character. */
  function ValueOf(c: char): (x: sextet)
    requires IsAlphabetChar(c)
    ensures CharOf(x) == c
  {
    if 'A' <= c <= 'Z' then c as int - 'A' as int
    else if 'a' <= c <= 'z' then c as int - 'a' as int + 26
    else if '0' <= c <= '9' then c as int - '0' as int + 52
    else if c == '+' then 62
    else 63
  }

  lemma ValueOfCharOf(x: sextet)
    ensures ValueOf(CharOf(x)) == x
  {
  }

  /** What the validator accepts: groups of four characters of the alphabet, the
      last group possibly ending in `=` or `==`. The empty string is accepted. */
  predicate IsBase64(s: string) {
    && |s| % 4 == 0
    && (forall i :: 0 <= i < |s| ==> IsAlphabetChar(s[i]) || (s[i] == '=' && i >= |s| - 2))
    && (|s| >= 2 && s[|s| - 2] == '=' ==> s[|s| - 1] == '=')
  }

  /** Three bytes as four characters. */
  function EncodeGroup(b0: byte, b1: byte, b2: byte): string {
    [CharOf(b0 / 4), CharOf((b0 % 4) * 16 + b1 / 16), CharOf((b1 % 16) * 4 + b2 / 64), CharOf(b2 % 64)]
  }

  /** A final single byte: two characters and `==`. */
  function EncodeOne(b0: byte): string {
    [CharOf(b0 / 4), CharOf((b0 % 4) * 16), '=', '=']
  }

  /** A final pair of bytes: three characters and `=`. */
  function EncodeTwo(b0: byte, b1: byte): string {
    [CharOf(b0 / 4), CharOf((b0 % 4) * 16 + b1 / 16), CharOf((b1 % 16) * 4), '=']
  }

  /** `Buffer.from(bytes).toString('base64')`. */
  function Encode(bs: seq<byte>): (s: string)
    decreases |bs|
  {
    if |bs| == 0 then ""
    else if |bs| == 1 then EncodeOne(bs[0])
    else if |bs| == 2 then EncodeTwo(bs[0], bs[1])
    else EncodeGroup(bs[0], bs[1], bs[2]) + Encode(bs[3..])
  }

  /** Four characters without padding as three bytes. */
  function DecodeGroup(c0: char, c1: char, c2: char, c3: char): seq<byte>
    requires IsAlphabetChar(c0) && IsAlphabetChar(c1) && IsAlphabetChar(c2) && IsAlphabetChar(c3)
  {
    var x0, x1, x2, x3 := ValueOf(c0), ValueOf(c1), ValueOf(c2), ValueOf(c3);
    [x0 * 4 + x1 / 16, (x1 % 16) * 16 + x2 / 4, (x2 % 4) * 64 + x3]
  }

  /** `Buffer.from(s, 'base64')` on a string the validator accepts. Bits below
      the last whole byte of a padded group are dropped, as Node does. */
  function Decode(s: string): (bs: seq<byte>)
    requires IsBase64(s)
    decreases |s|
  {
    if |s| == 0 then []
    else if |s| == 4 && s[2] == '=' then
      [ValueOf(s[0]) * 4 + ValueOf(s[1]) / 16]
    else if |s| == 4 && s[3] == '=' then
      [ValueOf(s[0]) * 4 + ValueOf(s[1]) / 16, (ValueOf(s[1]) % 16) * 16 + ValueOf(s[2]) / 4]
    else
      assert IsBase64(s[4..]) by {
        forall i | 0 <= i < |s[4..]|
          ensures IsAlphabetChar(s[4..][i]) || (s[4..][i] == '=' && i >= |s[4..]| - 2)
        {
          assert s[4..][i] == s[i + 4];
        }
      }
      DecodeGroup(s[0], s[1], s[2], s[3]) + Decode(s[4..])
  }

  /** The bytes of a group come back from its characters. */
  lemma DecodeEncodeGroup(b0: byte, b1: byte, b2: byte)
    ensures var g := EncodeGroup(b0, b1, b2);
            DecodeGroup(g[0], g[1], g[2], g[3]) == [b0, b1, b2]
  {
    var x0, x1, x2, x3 := b0 / 4, (b0 % 4) * 16 + b1 / 16, (b1 % 16) * 4 + b2 / 64, b2 % 64;
    ValueOfCharOf(x0);
    ValueOfCharOf(x1);
    ValueOfCharOf(x2);
    ValueOfCharOf(x3);
    assert x1 / 16 == b0 % 4 && x1 % 16 == b1 / 16;
    assert x2 / 4 == b1 % 16 && x2 % 4 == b2 / 64;
  }

  /** Whatever `Encode` produces, the validator accepts. */
  lemma {:induction false} EncodeIsBase64(bs: seq<byte>)
    ensures IsBase64(Encode(bs))
    decreases |bs|
  {
    if |bs| >= 3 {
      EncodeIsBase64(bs[3..]);
      var g := EncodeGroup(bs[0], bs[1], bs[2]);
      assert |g| == 4 && forall i :: 0 <= i < 4 ==> IsAlphabetChar(g[i]);
      var rest := Encode(bs[3..]);
      var s := g + rest;
      assert Encode(bs) == s;
      assert |s| % 4 == 0;
      forall i | 0 <= i < |s|
        ensures IsAlphabetChar(s[i]) || (s[i] == '=' && i >= |s| - 2)
      {
        if i >= 4 {
          assert s[i] == rest[i - 4];
        }
      }
      if |rest| >= 2 {
        assert s[|s| - 2] == rest[|rest| - 2];
        assert s[|s| - 1] == rest[|rest| - 1];
      }
    }
  }

  lemma DecodeEncodeOne(b0: byte)
    ensures IsBase64(EncodeOne(b0)) && Decode(EncodeOne(b0)) == [b0]
  {
    var s := EncodeOne(b0);
    ValueOfCharOf(b0 / 4);
    ValueOfCharOf((b0 % 4) * 16);
    assert IsBase64(s);
    assert Decode(s) == [ValueOf(s[0]) * 4 + ValueOf(s[1]) / 16];
  }

  lemma DecodeEncodeTwo(b0: byte, b1: byte)
    ensures IsBase64(EncodeTwo(b0, b1)) && Decode(EncodeTwo(b0, b1)) == [b0, b1]
  {
    var s := EncodeTwo(b0, b1);
    var x1 := (b0 % 4) * 16 + b1 / 16;
    ValueOfCharOf(b0 / 4);
    ValueOfCharOf(x1);
    ValueOfCharOf((b1 % 16) * 4);
    assert x1 / 16 == b0 % 4 && x1 % 16 == b1 / 16;
    assert IsBase64(s);
    assert Decode(s) == [ValueOf(s[0]) * 4 + ValueOf(s[1]) / 16, (ValueOf(s[1]) % 16) * 16 + ValueOf(s[2]) / 4];
  }

  /** Decoding undoes encoding: `Buffer.from(Buffer.from(b).toString('base64'),
      'base64')` gives back `b`. */
  lemma {:induction false} DecodeEncode(bs: seq<byte>)
    ensures IsBase64(Encode(bs))
    ensures Decode(Encode(bs)) == bs
    decreases |bs|
  {
    EncodeIsBase64(bs);
    if |bs| == 1 {
      DecodeEncodeOne(bs[0]);
    } else if |bs| == 2 {
      DecodeEncodeTwo(bs[0], bs[1]);
    } else if |bs| >= 3 {
      DecodeEncodeStep(bs);
    }
  }

  lemma {:induction false} DecodeEncodeStep(bs: seq<byte>)
    requires |bs| >= 3
    ensures IsBase64(Encode(bs))
    ensures Decode(Encode(bs)) == bs
    decreases |bs|, 0
  {
    EncodeIsBase64(bs);
    var g, rest := EncodeGroup(bs[0], bs[1], bs[2]), Encode(bs[3..]);
    EncodeFirstGroup(bs);
    DecodeEncode(bs[3..]);
    DecodeEncodeGroup(bs[0], bs[1], bs[2]);
    DecodeFirstGroup(g + rest);
    assert (g + rest)[4..] == rest;
    assert bs == [bs[0], bs[1], bs[2]] + bs[3..];
  }

  /** Three bytes or more encode as the group of the first three, then the rest. */
  lemma EncodeFirstGroup(bs: seq<byte>)
    requires |bs| >= 3
    ensures var g := EncodeGroup(bs[0], bs[1], bs[2]);
            && Encode(bs) == g + Encode(bs[3..])
            && |g| == 4 && IsAlphabetChar(g[2]) && IsAlphabetChar(g[3])
  {
  }

  /** A string whose first group has no padding decodes group by group. */
  lemma DecodeFirstGroup(s: string)
    requires IsBase64(s) && |s| >= 4 && IsAlphabetChar(s[2]) && IsAlphabetChar(s[3])
    ensures IsAlphabetChar(s[0]) && IsAlphabetChar(s[1]) && IsBase64(s[4..])
    ensures Decode(s) == DecodeGroup(s[0], s[1], s[2], s[3]) + Decode(s[4..])
  {
  }
}
