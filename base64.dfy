/** Base 64 encoding with padding, section 4 of RFC 4648 (what PHP's
    `base64_encode` produces), and its decoding as the partner that shows
    no information is lost. */
module Base64 {
  import opened Wrappers
  import opened Octets

  /** The character for a 6-bit value, Table 1 of RFC 4648: A-Z, a-z, 0-9,
      '+', '/'. */
  function Digit(v: bv8): (c: char)
    requires v < 64
    ensures IsDigit(c)
  {
    if v < 26 then ('A' as int + v as int) as char
    else if v < 52 then ('a' as int + v as int - 26) as char
    else if v < 62 then ('0' as int + v as int - 52) as char
    else if v == 62 then '+'
    else '/'
  }

  /** The 64 characters of the alphabet without the pad character. */
  predicate IsDigit(c: char)
  {
    'A' <= c <= 'Z' || 'a' <= c <= 'z' || '0' <= c <= '9' || c == '+' || c == '/'
  }

  /** The 6-bit value a character stands for, if it is one of the 64. */
  function DigitValue(c: char): (v: Option<bv8>)
    ensures v.Some? <==> IsDigit(c)
    ensures v.Some? ==> v.value < 64
  {
    if 'A' <= c <= 'Z' then Some((c as int - 'A' as int) as bv8)
    else if 'a' <= c <= 'z' then Some((c as int - 'a' as int + 26) as bv8)
    else if '0' <= c <= '9' then Some((c as int - '0' as int + 52) as bv8)
    else if c == '+' then Some(62)
    else if c == '/' then Some(63)
    else None
  }

  /** Each character stands for the value it was chosen for. */
  lemma DigitValueOfDigit(v: bv8)
    requires v < 64
    ensures DigitValue(Digit(v)) == Some(v)
  {
  }

  /** Three octets as four characters. */
  function EncodeQuantum(b0: bv8, b1: bv8, b2: bv8): string
  {
    [Digit(b0 >> 2), Digit(((b0 & 3) << 4) | (b1 >> 4)), Digit(((b1 & 15) << 2) | (b2 >> 6)), Digit(b2 & 63)]
  }

  /** The encoding of `data`: one quantum per three octets, a final group of
      one or two octets padded with "==" or "=". */
  function Encode(data: Bytes): (s: string)
    ensures |s| == 4 * ((|data| + 2) / 3)
    decreases |data|
  {
    if |data| == 0 then []
    else if |data| == 1 then [Digit(data[0] >> 2), Digit((data[0] & 3) << 4), '=', '=']
    else if |data| == 2 then [Digit(data[0] >> 2), Digit(((data[0] & 3) << 4) | (data[1] >> 4)), Digit((data[1] & 15) << 2), '=']
    else EncodeQuantum(data[0], data[1], data[2]) + Encode(data[3..])
  }

  /** The three octets four 6-bit values stand for. */
  function Combine(v0: bv8, v1: bv8, v2: bv8, v3: bv8): Bytes
  {
    [(v0 << 2) | (v1 >> 4), ((v1 & 15) << 4) | (v2 >> 2), ((v2 & 3) << 6) | v3]
  }

  /** Reads one group of four characters; a final group may end in "=" or
      "==", which leaves two or one octets. */
  function DecodeGroup(g: string, last: bool): Option<Bytes>
    requires |g| == 4
  {
    var d0, d1, d2, d3 := DigitValue(g[0]), DigitValue(g[1]), DigitValue(g[2]), DigitValue(g[3]);
    if d0.None? || d1.None? then None
    else if last && g[2] == '=' && g[3] == '=' then Some(Combine(d0.value, d1.value, 0, 0)[..1])
    else if d2.None? then None
    else if last && g[3] == '=' then Some(Combine(d0.value, d1.value, d2.value, 0)[..2])
    else if d3.None? then None
    else Some(Combine(d0.value, d1.value, d2.value, d3.value))
  }

  /** Decodes a padded encoding; `None` when `s` is not one. */
  function Decode(s: string): Option<Bytes>
    decreases |s|
  {
    if |s| == 0 then Some([])
    else if |s| < 4 then None
    else
      match DecodeGroup(s[..4], |s| == 4)
      case None => None
      case Some(first) =>
        match Decode(s[4..])
        case None => None
        case Some(rest) => Some(first + rest)
  }

  /** An encoding of three octets or more starts with their quantum. */
  lemma EncodeStep(data: Bytes)
    requires |data| >= 3
    ensures Encode(data) == EncodeQuantum(data[0], data[1], data[2]) + Encode(data[3..])
  {
  }

  /** The 6-bit values of three octets combine back into them. */
  lemma CombineSplit(b0: bv8, b1: bv8, b2: bv8)
    ensures Combine(b0 >> 2, ((b0 & 3) << 4) | (b1 >> 4), ((b1 & 15) << 2) | (b2 >> 6), b2 & 63) == [b0, b1, b2]
  {
  }

  /** With the missing octets taken as zero, the values of one or two octets
      combine back into them. */
  lemma CombineSplitPadded(b0: bv8, b1: bv8)
    ensures Combine(b0 >> 2, (b0 & 3) << 4, 0, 0)[..1] == [b0]
    ensures Combine(b0 >> 2, ((b0 & 3) << 4) | (b1 >> 4), (b1 & 15) << 2, 0)[..2] == [b0, b1]
  {
    assert ((b0 >> 2) << 2) | (((b0 & 3) << 4) >> 4) == b0;
    assert ((b0 >> 2) << 2) | ((((b0 & 3) << 4) | (b1 >> 4)) >> 4) == b0;
    assert (((((b0 & 3) << 4) | (b1 >> 4)) & 15) << 4) | (((b1 & 15) << 2) >> 2) == b1;
  }

  /** A full quantum reads back as its three octets. */
  lemma DecodeQuantum(b0: bv8, b1: bv8, b2: bv8, last: bool)
    ensures DecodeGroup(EncodeQuantum(b0, b1, b2), last) == Some([b0, b1, b2])
  {
    var v0, v1, v2, v3 := b0 >> 2, ((b0 & 3) << 4) | (b1 >> 4), ((b1 & 15) << 2) | (b2 >> 6), b2 & 63;
    DigitValueOfDigit(v0);
    DigitValueOfDigit(v1);
    DigitValueOfDigit(v2);
    DigitValueOfDigit(v3);
    CombineSplit(b0, b1, b2);
  }

  /** The encoding of a final group of one octet. */
  lemma EncodeOneOctet(b0: bv8)
    ensures Encode([b0]) == [Digit(b0 >> 2), Digit((b0 & 3) << 4), '=', '=']
  {
  }

  /** The encoding of a final group of two octets. */
  lemma EncodeTwoOctets(b0: bv8, b1: bv8)
    ensures Encode([b0, b1]) == [Digit(b0 >> 2), Digit(((b0 & 3) << 4) | (b1 >> 4)), Digit((b1 & 15) << 2), '=']
  {
  }

  /** A final group of one octet reads back as that octet. */
  lemma DecodeOneOctet(b0: bv8)
    ensures DecodeGroup([Digit(b0 >> 2), Digit((b0 & 3) << 4), '=', '='], true) == Some([b0])
  {
    DigitValueOfDigit(b0 >> 2);
    DigitValueOfDigit((b0 & 3) << 4);
    CombineSplitPadded(b0, 0);
  }

  /** A final group of two octets reads back as those octets. */
  lemma DecodeTwoOctets(b0: bv8, b1: bv8)
    ensures DecodeGroup([Digit(b0 >> 2), Digit(((b0 & 3) << 4) | (b1 >> 4)), Digit((b1 & 15) << 2), '='], true) == Some([b0, b1])
  {
    DigitValueOfDigit(b0 >> 2);
    DigitValueOfDigit(((b0 & 3) << 4) | (b1 >> 4));
    DigitValueOfDigit((b1 & 15) << 2);
    CombineSplitPadded(b0, b1);
  }

  /** A string of one group decodes as a final group. */
  lemma DecodeSingleGroup(g: string)
    requires |g| == 4
    ensures Decode(g) == DecodeGroup(g, true)
  {
    assert g[..4] == g && g[4..] == [];
    if DecodeGroup(g, true).Some? {
      assert DecodeGroup(g, true).value + [] == DecodeGroup(g, true).value;
    }
  }

  /** One or two octets decode back from their single padded group. */
  lemma DecodeEncodeShort(data: Bytes)
    requires 1 <= |data| <= 2
    ensures Decode(Encode(data)) == Some(data)
  {
    if |data| == 1 {
      assert data == [data[0]];
      EncodeOneOctet(data[0]);
      DecodeOneOctet(data[0]);
    } else {
      assert data == [data[0], data[1]];
      EncodeTwoOctets(data[0], data[1]);
      DecodeTwoOctets(data[0], data[1]);
    }
    DecodeSingleGroup(Encode(data));
  }

  /** A group followed by more groups decodes to the concatenation. */
  lemma DecodeGroupThen(g: string, t: string, a: Bytes, b: Bytes)
    requires |g| == 4
    requires DecodeGroup(g, |t| == 0) == Some(a)
    requires Decode(t) == Some(b)
    ensures Decode(g + t) == Some(a + b)
  {
    var s := g + t;
    assert s[..4] == g;
    assert s[4..] == t;
  }

  /** Three leading octets and the rest. */
  lemma SplitThree(data: Bytes)
    requires |data| >= 3
    ensures data == [data[0], data[1], data[2]] + data[3..]
  {
  }

  /** A leading quantum decodes back when the rest of the encoding does. */
  lemma DecodeEncodeStep(data: Bytes)
    requires |data| >= 3
    requires Decode(Encode(data[3..])) == Some(data[3..])
    ensures Decode(Encode(data)) == Some(data)
  {
    var t := Encode(data[3..]);
    DecodeQuantum(data[0], data[1], data[2], |t| == 0);
    SplitThree(data);
    DecodeGroupThen(EncodeQuantum(data[0], data[1], data[2]), t, [data[0], data[1], data[2]], data[3..]);
  }

  /** Decoding an encoding gives back the octets. */
  lemma {:induction false} DecodeEncode(data: Bytes)
    ensures Decode(Encode(data)) == Some(data)
    decreases |data|
  {
    if 1 <= |data| <= 2 {
      DecodeEncodeShort(data);
    } else if |data| >= 3 {
      DecodeEncode(data[3..]);
      DecodeEncodeStep(data);
    }
  }

  /** Every character of an encoding is from the alphabet, except for the
      padding, which stands only at the end. */
  lemma {:induction false} EncodeAlphabet(data: Bytes)
    ensures forall i :: 0 <= i < |Encode(data)| && Encode(data)[i] != '=' ==> IsDigit(Encode(data)[i])
    ensures forall i :: 0 <= i < |Encode(data)| - 2 ==> Encode(data)[i] != '='
    ensures |data| % 3 == 0 ==> forall i :: 0 <= i < |Encode(data)| ==> Encode(data)[i] != '='
    decreases |data|
  {
    if |data| >= 3 {
      EncodeAlphabet(data[3..]);
      var s := Encode(data);
      assert s == EncodeQuantum(data[0], data[1], data[2]) + Encode(data[3..]);
      assert |data[3..]| % 3 == |data| % 3;
    }
  }

  /** The padding: "==" after one leftover octet, "=" after two, none
      otherwise, and always preceded by a character of the alphabet. */
  lemma {:induction false} EncodePadding(data: Bytes)
    ensures var s := Encode(data);
      && (|data| % 3 == 1 ==> s[|s| - 2..] == "==" && IsDigit(s[|s| - 3]))
      && (|data| % 3 == 2 ==> s[|s| - 1] == '=' && IsDigit(s[|s| - 2]))
    decreases |data|
  {
    if |data| >= 3 {
      EncodePadding(data[3..]);
      var s := Encode(data);
      var t := Encode(data[3..]);
      assert s == EncodeQuantum(data[0], data[1], data[2]) + t;
      assert |data[3..]| % 3 == |data| % 3;
      if |data| % 3 != 0 {
        assert s[|s| - 3..] == t[|t| - 3..];
      }
    }
  }
}
