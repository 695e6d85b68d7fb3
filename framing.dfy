/** The WebSocket base framing of section 5.2 of RFC 6455, as the server
    engine uses it. `Seal` builds the unmasked text frames the server sends;
    `Unseal` strips the header of a frame a client sent and removes the
    client's masking (section 5.3 of RFC 6455). `DecodeFrame` is an
    independent reader of the whole base framing against which both are
    checked. */
module Framing {
  import opened Wrappers
  import opened Octets
  import opened OctetValues

  /** First header octet of every server frame: FIN set, opcode 0x1 (text). */
  const FinText: bv8 := 0x80 | (0x1 & 0x0f)

  /** The largest payload the 16-bit extended length can carry. */
  const MaxShortPayload: nat := 65535

  /** The largest payload the 64-bit extended length can carry: its most
      significant bit must be 0 (section 5.2 of RFC 6455). */
  const MaxLongPayload: nat := 0x7fff_ffff_ffff_ffff

  /** Why `seal` yields no frame: for a payload of 65536 octets or more the
      header is built by `pack('CCNN', $b1, 127, $length)`, which has two
      `N` fields but only one value left for them. */
  datatype SealError = PackArgumentMissing

  /** One frame as section 5.2 of RFC 6455 describes it, payload unmasked. */
  datatype Frame = Frame(fin: bool, opcode: bv8, maskKey: Option<Bytes>, payload: Bytes)

  // ---------------------------------------------------------------------
  // Masking (section 5.3 of RFC 6455)
  // ---------------------------------------------------------------------

  /** Octet i of the result is octet i of `data` XOR octet (i mod 4) of the
      key. The same transformation masks and unmasks. */
  function Mask(data: Bytes, key: Bytes): (r: Bytes)
    requires |key| == 4
  {
    seq(|data|, i requires 0 <= i < |data| => data[i] ^ key[i % 4])
  }

  /** Masking twice with the same key gives back the data. */
  lemma MaskInvolution(data: Bytes, key: Bytes)
    requires |key| == 4
    ensures Mask(Mask(data, key), key) == data
  {
  }

  // ---------------------------------------------------------------------
  // The length field
  // ---------------------------------------------------------------------

  /** The second header octet and the extended payload length of a payload
      of `n` octets, with `maskBit` (0x00 or 0x80) in the top bit: a 7-bit
      length up to 125, marker 126 and a 16-bit length up to 65535, marker
      127 and a 64-bit length beyond. */
  function LengthField(n: nat, maskBit: bv8): (r: Bytes)
    requires maskBit == 0x00 || maskBit == 0x80
  {
    if n <= 125 then [maskBit | n as bv8]
    else if n <= MaxShortPayload then [maskBit | 126] + ToBigEndian(n, 2)
    else [maskBit | 127] + ToBigEndian(n, 8)
  }

  // ---------------------------------------------------------------------
  // A reader for the base framing, used as the reference
  // ---------------------------------------------------------------------

  /** Where the extended length ends and the masking key, if any, begins:
      after 2 octets for a 7-bit length, 4 for marker 126, 10 for marker 127. */
  function KeyOffset(f: Bytes): (k: nat)
    requires |f| >= 2
    ensures k == 2 || k == 4 || k == 10
  {
    var indicator := f[1] & 0x7f;
    if indicator == 126 then 4 else if indicator == 127 then 10 else 2
  }

  /** Whether the MASK bit of the second octet is set. */
  predicate Masked(f: Bytes)
    requires |f| >= 2
  {
    f[1] & 0x80 == 0x80
  }

  /** Where the payload begins. */
  function DataOffset(f: Bytes): (k: nat)
    requires |f| >= 2
  {
    if Masked(f) then KeyOffset(f) + 4 else KeyOffset(f)
  }

  /** The payload length the header announces. */
  function DeclaredLength(f: Bytes): nat
    requires |f| >= 2 && |f| >= KeyOffset(f)
  {
    if KeyOffset(f) == 2 then (f[1] & 0x7f) as nat else BigEndian(f[2..KeyOffset(f)])
  }

  /** The announced length uses the fewest octets, and a 64-bit length has
      its top bit clear. */
  predicate MinimalLength(f: Bytes)
    requires |f| >= 2 && |f| >= KeyOffset(f)
  {
    && (KeyOffset(f) == 4 ==> DeclaredLength(f) > 125)
    && (KeyOffset(f) == 10 ==> DeclaredLength(f) > MaxShortPayload && f[2] & 0x80 == 0)
  }

  /** Reads one frame that fills `f` exactly, following section 5.2 of
      RFC 6455: no reserved bit set, the length in its minimal encoding,
      the masking key present iff the MASK bit is set, and the payload
      unmasked with it. */
  function DecodeFrame(f: Bytes): Option<Frame>
  {
    if |f| < 2 || f[0] & 0x70 != 0 || |f| < DataOffset(f) then None
    else if !MinimalLength(f) || |f| != DataOffset(f) + DeclaredLength(f) then None
    else if Masked(f) then
      var key := f[KeyOffset(f)..DataOffset(f)];
      Some(Frame(f[0] & 0x80 == 0x80, f[0] & 0x0f, Some(key), Mask(f[DataOffset(f)..], key)))
    else
      Some(Frame(f[0] & 0x80 == 0x80, f[0] & 0x0f, None, f[DataOffset(f)..]))
  }

  // ---------------------------------------------------------------------
  // seal (src/socketeer.php:284-296)
  // ---------------------------------------------------------------------

  /** The frame `seal` builds around `socketData`: FIN and text opcode, the
      length field without a mask bit, then the payload unchanged. There is
      no frame for 65536 octets or more. */
  function Seal(socketData: Bytes): (r: Result<Bytes, SealError>)
    ensures r.Success? <==> |socketData| <= MaxShortPayload
    ensures r.Success? ==>
      && |r.value| == |socketData| + (if |socketData| <= 125 then 2 else 4)
      && r.value[|r.value| - |socketData|..] == socketData
  {
    var b1: bv8 := 0x80 | (0x1 & 0x0f);
    var length := |socketData|;
    if length <= 125 then
      Success([b1, length as bv8] + socketData)
    else if length > 125 && length < 65536 then
      Success([b1, 126, (length / 256) as bv8, (length % 256) as bv8] + socketData)
    else
      Failure(PackArgumentMissing)
  }

  /** The frame `seal` evidently means to build for every payload length:
      the 8-octet big-endian length of section 5.2 of RFC 6455 for 65536
      octets and more. */
  function SealIntended(socketData: Bytes): (frame: Bytes)
    ensures |frame| == |socketData| + (if |socketData| <= 125 then 2 else if |socketData| <= MaxShortPayload then 4 else 10)
  {
    [FinText] + LengthField(|socketData|, 0x00) + socketData
  }

  /** Up to 65535 octets `seal` emits exactly the intended frame: FIN and
      text opcode, the 7-bit or 16-bit length, the payload. */
  lemma SealMatchesIntended(socketData: Bytes)
    requires |socketData| <= MaxShortPayload
    ensures Seal(socketData) == Success(SealIntended(socketData))
  {
    if |socketData| <= 125 {
      SealShort(socketData);
    } else {
      SealMedium(socketData);
    }
  }

  /** The frame of a payload of at most 125 octets. */
  lemma SealShort(socketData: Bytes)
    requires |socketData| <= 125
    ensures Seal(socketData) == Success([FinText, |socketData| as bv8] + socketData)
    ensures SealIntended(socketData) == [FinText, |socketData| as bv8] + socketData
  {
    assert LengthField(|socketData|, 0x00) == [|socketData| as bv8];
  }

  /** The frame of a payload of 126 to 65535 octets. */
  lemma SealMedium(socketData: Bytes)
    requires 125 < |socketData| <= MaxShortPayload
    ensures var n := |socketData|;
      Seal(socketData) == Success([FinText, 126, (n / 256) as bv8, (n % 256) as bv8] + socketData)
    ensures var n := |socketData|;
      SealIntended(socketData) == [FinText, 126, (n / 256) as bv8, (n % 256) as bv8] + socketData
  {
    var n := |socketData|;
    TwoOctets(n);
    assert LengthField(n, 0x00) == [126] + ToBigEndian(n, 2);
  }

  /** Both sides of both length thresholds: a single length octet up to 125,
      marker 126 and a 16-bit length from 126 to 65535, no frame from 65536. */
  lemma SealLengthField(socketData: Bytes)
    ensures |socketData| <= 125 ==>
      Seal(socketData).Success? && Seal(socketData).value[..2] == [0x81, |socketData| as bv8]
    ensures 126 <= |socketData| <= MaxShortPayload ==>
      Seal(socketData).Success? && Seal(socketData).value[..2] == [0x81, 126]
      && BigEndian(Seal(socketData).value[2..4]) == |socketData|
    ensures |socketData| >= MaxShortPayload + 1 ==> Seal(socketData) == Failure(PackArgumentMissing)
  {
    var n := |socketData|;
    if n <= 125 {
      SealShort(socketData);
    } else if n <= MaxShortPayload {
      SealMedium(socketData);
      TwoOctets(n);
      BigEndianRoundTrip(n, 2);
      assert Seal(socketData).value[2..4] == ToBigEndian(n, 2);
    }
  }

  /** Reading the length field back gives the length. */
  lemma LengthFieldDecodes(n: nat, maskBit: bv8)
    requires maskBit == 0x00 || maskBit == 0x80
    requires n <= MaxLongPayload
    ensures LengthFieldReadsBack(n, maskBit, LengthField(n, maskBit))
  {
    if n <= 125 {
      ShortLengthField(n, maskBit);
    } else if n <= MaxShortPayload {
      MediumLengthField(n, maskBit);
    } else {
      LongLengthField(n, maskBit);
    }
  }

  /** `lf` carries the MASK bit and reads back as `n` in the encoding its
      size calls for. */
  predicate LengthFieldReadsBack(n: nat, maskBit: bv8, lf: Bytes)
  {
    && |lf| >= 1
    && lf[0] & 0x80 == maskBit
    && (n <= 125 ==> |lf| == 1 && (lf[0] & 0x7f) as nat == n)
    && (125 < n <= MaxShortPayload ==> |lf| == 3 && lf[0] & 0x7f == 126 && BigEndian(lf[1..]) == n)
    && (MaxShortPayload < n ==> |lf| == 9 && lf[0] & 0x7f == 127 && BigEndian(lf[1..]) == n && lf[1] & 0x80 == 0)
  }

  /** A 7-bit length. */
  lemma ShortLengthField(n: nat, maskBit: bv8)
    requires maskBit == 0x00 || maskBit == 0x80
    requires n <= 125
    ensures LengthFieldReadsBack(n, maskBit, LengthField(n, maskBit))
  {
    ByteOfValue(n);
    var b := n as bv8;
    assert b < 126;
    assert LengthField(n, maskBit) == [maskBit | b];
    assert (maskBit | b) & 0x7f == b && (maskBit | b) & 0x80 == maskBit;
  }

  /** Marker 126 and a 16-bit length. */
  lemma MediumLengthField(n: nat, maskBit: bv8)
    requires maskBit == 0x00 || maskBit == 0x80
    requires 125 < n <= MaxShortPayload
    ensures LengthFieldReadsBack(n, maskBit, LengthField(n, maskBit))
  {
    var lf := LengthField(n, maskBit);
    BigEndianRoundTrip(n, 2);
    assert lf[1..] == ToBigEndian(n, 2);
  }

  /** Marker 127 and a 64-bit length with its top bit clear. */
  lemma LongLengthField(n: nat, maskBit: bv8)
    requires maskBit == 0x00 || maskBit == 0x80
    requires MaxShortPayload < n <= MaxLongPayload
    ensures LengthFieldReadsBack(n, maskBit, LengthField(n, maskBit))
  {
    var lf := LengthField(n, maskBit);
    assert Pow256(8) == 0x1_0000_0000_0000_0000;
    BigEndianRoundTrip(n, 8);
    assert lf[1..] == ToBigEndian(n, 8);
    TopOctetBound(n, 8);
    var t := ToBigEndian(n, 8)[0];
    assert t < 128;
    assert t & 0x80 == 0;
  }

  /** A value below 128 * 256^(width-1) has a first big-endian octet below 128. */
  lemma {:induction false} TopOctetBound(n: nat, width: nat)
    requires width >= 1
    requires n < 128 * Pow256(width - 1)
    ensures ToBigEndian(n, width)[0] < 128
  {
    if width == 1 {
      ByteOfValue(n);
      assert ToBigEndian(n, 1) == [n as bv8];
    } else {
      var p := Pow256(width - 2);
      assert Pow256(width - 1) == 256 * p;
      assert n / 256 < 128 * p;
      TopOctetBound(n / 256, width - 1);
      assert ToBigEndian(n, width)[0] == ToBigEndian(n / 256, width - 1)[0];
    }
  }

  /** A frame assembled from a first octet without reserved bits, a length
      field, a key exactly when the MASK bit is set, and a payload of the
      announced length reads back as that frame. */
  lemma DecodeAssembled(b0: bv8, maskBit: bv8, key: Bytes, data: Bytes)
    requires b0 & 0x70 == 0
    requires maskBit == 0x00 || maskBit == 0x80
    requires |data| <= MaxLongPayload
    requires if maskBit == 0x80 then |key| == 4 else key == []
    ensures DecodeFrame([b0] + LengthField(|data|, maskBit) + key + data)
      == Some(Frame(b0 & 0x80 == 0x80, b0 & 0x0f,
                    if maskBit == 0x80 then Some(key) else None,
                    if maskBit == 0x80 then Mask(data, key) else data))
  {
    var f := [b0] + LengthField(|data|, maskBit) + key + data;
    AssembledHeader(b0, maskBit, key, data);
    assert f[DataOffset(f)..] == data;
    assert f[KeyOffset(f)..DataOffset(f)] == key;
  }

  /** The header fields of such an assembled frame. */
  lemma AssembledHeader(b0: bv8, maskBit: bv8, key: Bytes, data: Bytes)
    requires maskBit == 0x00 || maskBit == 0x80
    requires |data| <= MaxLongPayload
    requires if maskBit == 0x80 then |key| == 4 else key == []
    ensures var lf := LengthField(|data|, maskBit);
      var f := [b0] + lf + key + data;
      && |f| >= 2 && f[0] == b0
      && Masked(f) == (maskBit == 0x80)
      && KeyOffset(f) == 1 + |lf| && DataOffset(f) == 1 + |lf| + |key|
      && |f| == DataOffset(f) + |data|
      && DeclaredLength(f) == |data| && MinimalLength(f)
  {
    LengthFieldDecodes(|data|, maskBit);
    HeaderFields(b0, maskBit, LengthField(|data|, maskBit), key, data);
  }

  /** The same for any length field that reads back as the payload length. */
  lemma HeaderFields(b0: bv8, maskBit: bv8, lf: Bytes, key: Bytes, data: Bytes)
    requires maskBit == 0x00 || maskBit == 0x80
    requires LengthFieldReadsBack(|data|, maskBit, lf)
    requires if maskBit == 0x80 then |key| == 4 else key == []
    ensures var f := [b0] + lf + key + data;
      && |f| >= 2 && f[0] == b0
      && Masked(f) == (maskBit == 0x80)
      && KeyOffset(f) == 1 + |lf| && DataOffset(f) == 1 + |lf| + |key|
      && |f| == DataOffset(f) + |data|
      && DeclaredLength(f) == |data| && MinimalLength(f)
  {
    var f := [b0] + lf + key + data;
    assert f[1] == lf[0];
    if |data| > 125 {
      assert f[2..1 + |lf|] == lf[1..];
    }
  }

  /** Every frame `seal` builds is a well-formed unmasked final text frame
      carrying exactly the payload. */
  lemma SealDecodes(socketData: Bytes)
    requires |socketData| <= MaxShortPayload
    ensures Seal(socketData).Success?
    ensures DecodeFrame(Seal(socketData).value) == Some(Frame(true, 0x1, None, socketData))
  {
    SealMatchesIntended(socketData);
    SealIntendedDecodes(socketData);
  }

  /** The intended frame is well formed for every payload RFC 6455 allows. */
  lemma SealIntendedDecodes(socketData: Bytes)
    requires |socketData| <= MaxLongPayload
    ensures DecodeFrame(SealIntended(socketData)) == Some(Frame(true, 0x1, None, socketData))
  {
    DecodeAssembled(FinText, 0x00, [], socketData);
    assert SealIntended(socketData) == [FinText] + LengthField(|socketData|, 0x00) + [] + socketData;
  }

  // ---------------------------------------------------------------------
  // unseal (src/socketeer.php:258-276)
  // ---------------------------------------------------------------------

  /** `substr($s, $start)`: the octets from `start` on, empty past the end. */
  function Suffix(s: Bytes, start: nat): (r: Bytes)
  {
    if start <= |s| then s[start..] else []
  }

  /** `substr($s, $start, $length)`: at most `length` octets from `start`. */
  function Substr(s: Bytes, start: nat, length: nat): (r: Bytes)
  {
    if start <= |s| then s[start..if start + length <= |s| then start + length else |s|] else []
  }

  /** Where `unseal` takes the payload from: it reads only the low seven bits
      of the second octet (an absent octet reads as 0). 126 puts the mask at
      4..7 and the payload at 8, 127 the mask at 10..13 and the payload at
      14, anything else the mask at 2..5 and the payload at 6. */
  function PayloadOffset(socketData: Bytes): (offset: nat)
    ensures offset == 6 || offset == 8 || offset == 14
  {
    var length := (if |socketData| >= 2 then socketData[1] else 0) & 127;
    if length == 126 then 8 else if length == 127 then 14 else 6
  }

  /** What `unseal` returns: everything from the payload offset on, XORed
      with the four octets before it. */
  function Unsealed(socketData: Bytes): (payload: Bytes)
  {
    var offset := PayloadOffset(socketData);
    if |socketData| <= offset then []
    else Mask(socketData[offset..], socketData[offset - 4..offset])
  }

  /** `unseal`: slice out mask and data as the source does, then build the
      result one octet at a time. */
  method Unseal(socketData: Bytes) returns (payload: Bytes)
    ensures payload == Unsealed(socketData)
  {
    var length := (if |socketData| >= 2 then socketData[1] else 0) & 127;
    var masks, data;
    if length == 126 {
      masks := Substr(socketData, 4, 4);
      data := Suffix(socketData, 8);
    } else if length == 127 {
      masks := Substr(socketData, 10, 4);
      data := Suffix(socketData, 14);
    } else {
      masks := Substr(socketData, 2, 4);
      data := Suffix(socketData, 6);
    }
    payload := [];
    var i := 0;
    while i < |data|
      invariant 0 <= i <= |data|
      invariant |data| > 0 ==> |masks| == 4
      invariant |payload| == i
      invariant forall j :: 0 <= j < i ==> payload[j] == data[j] ^ masks[j % 4]
    {
      payload := payload + [data[i] ^ masks[i % 4]];
      i := i + 1;
    }
  }

  /** The result is as long as what follows the payload offset. */
  lemma UnsealedLength(socketData: Bytes)
    ensures |Unsealed(socketData)| == if |socketData| <= PayloadOffset(socketData) then 0 else |socketData| - PayloadOffset(socketData)
  {
  }

  /** Only the low seven bits of octet 1, the masking key and the data
      matter: octet 0, the MASK bit and the extended length octets never
      change the result. */
  lemma UnsealedIgnoresHeader(f: Bytes, g: Bytes)
    requires |f| == |g| >= 2
    requires f[1] & 0x7f == g[1] & 0x7f
    requires forall i :: PayloadOffset(f) - 4 <= i < |f| ==> f[i] == g[i]
    ensures Unsealed(f) == Unsealed(g)
  {
    assert PayloadOffset(f) == PayloadOffset(g);
    var k := PayloadOffset(f);
    if |f| > k {
      assert f[k..] == g[k..];
      assert f[k - 4..k] == g[k - 4..k];
    }
  }

  /** Unmasking agrees with the reference reader on every well-formed masked
      frame: whatever its length encoding, `unseal` finds the key and the
      payload where section 5.2 of RFC 6455 puts them. */
  lemma UnsealAgreesWithDecode(f: Bytes)
    requires DecodeFrame(f).Some? && DecodeFrame(f).value.maskKey.Some?
    ensures Unsealed(f) == DecodeFrame(f).value.payload
  {
  }

  /** The frame a conforming client sends for a final text message: MASK bit
      set, the key, the payload masked with it (sections 5.2 and 5.3 of
      RFC 6455). */
  function MaskedTextFrame(payload: Bytes, key: Bytes): (frame: Bytes)
    requires |key| == 4
    ensures |frame| == |payload| + (if |payload| <= 125 then 6 else if |payload| <= MaxShortPayload then 8 else 14)
  {
    [FinText] + LengthField(|payload|, 0x80) + key + Mask(payload, key)
  }

  /** A client frame is well formed and carries its payload. */
  lemma MaskedTextFrameDecodes(payload: Bytes, key: Bytes)
    requires |key| == 4 && |payload| <= MaxLongPayload
    ensures DecodeFrame(MaskedTextFrame(payload, key)) == Some(Frame(true, 0x1, Some(key), payload))
  {
    DecodeAssembled(FinText, 0x80, key, Mask(payload, key));
    MaskInvolution(payload, key);
  }

  /** `unseal` recovers the payload of every frame a conforming client sends
      for a final text message, whichever length encoding it needs. */
  lemma UnsealMaskedTextFrame(payload: Bytes, key: Bytes)
    requires |key| == 4 && |payload| <= MaxLongPayload
    ensures Unsealed(MaskedTextFrame(payload, key)) == payload
  {
    MaskedTextFrameDecodes(payload, key);
    UnsealAgreesWithDecode(MaskedTextFrame(payload, key));
  }

  /** With a 7-bit length indicator below 126, whatever octet 0 and the MASK
      bit are, `unseal` undoes the client's masking. */
  lemma UnsealShortFrame(b0: bv8, b1: bv8, key: Bytes, payload: Bytes)
    requires |key| == 4 && b1 & 0x7f < 126
    ensures Unsealed([b0, b1] + key + Mask(payload, key)) == payload
  {
    var f := [b0, b1] + key + Mask(payload, key);
    assert PayloadOffset(f) == 6;
    if |payload| > 0 {
      assert f[2..6] == key;
      assert f[6..] == Mask(payload, key);
      MaskInvolution(payload, key);
    }
  }

  /** `unseal` is not the inverse of `seal`: a server frame carries no
      masking key, so `unseal` takes the first four payload octets for one
      and returns four octets fewer, unmasked with them. No non-empty short
      payload survives the round trip. */
  lemma UnsealOfSeal(p: Bytes)
    requires |p| <= 125
    ensures Unsealed(Seal(p).value) == (if |p| <= 4 then [] else Mask(p[4..], p[..4]))
    ensures p != [] ==> Unsealed(Seal(p).value) != p
  {
    var f := Seal(p).value;
    assert f == [FinText, |p| as bv8] + p;
    assert PayloadOffset(f) == 6;
    if |p| > 4 {
      assert f[6..] == p[4..];
      assert f[2..6] == p[..4];
    }
  }

  /** The server frame for the text "world": FIN and text opcode, length 5,
      the five octets unmasked. */
  lemma SealWorld()
    ensures Seal([0x77, 0x6f, 0x72, 0x6c, 0x64]) == Success([0x81, 0x05, 0x77, 0x6f, 0x72, 0x6c, 0x64])
  {
    var text: Bytes := [0x77, 0x6f, 0x72, 0x6c, 0x64];
    assert FinText == 0x81;
    assert |text| as bv8 == 0x05;
    assert Seal(text) == Success([FinText, |text| as bv8] + text);
    assert [FinText, |text| as bv8] + text == [0x81, 0x05, 0x77, 0x6f, 0x72, 0x6c, 0x64];
  }
}
