/** The value of a single octet, kept apart from the multi-octet integers
    below so that its proof sees no nonlinear arithmetic. */
module OctetValues {
  /** An octet converted from a value below 256 converts back to that value. */
  lemma ByteOfValue(v: int)
    requires 0 <= v < 256
    ensures (v as bv8) as int == v
  {
  }
}

/** Byte strings and the big-endian integers of the WebSocket length fields. */
module Octets {
  import opened OctetValues

  /** A PHP string seen as what it is on the wire: a sequence of octets. */
  type Bytes = seq<bv8>

  /** 256 to the power `width`: one more than the largest `width`-octet value. */
  function Pow256(width: nat): (p: nat)
    ensures p >= 1
  {
    if width == 0 then 1 else 256 * Pow256(width - 1)
  }

  /** The unsigned integer whose big-endian ("network order") encoding is `bs`. */
  function BigEndian(bs: Bytes): (n: nat)
    ensures n < Pow256(|bs|)
  {
    if bs == [] then 0 else BigEndian(bs[..|bs| - 1]) * 256 + bs[|bs| - 1] as nat
  }

  /** The `width` low-order octets of `n`, most significant first. */
  function ToBigEndian(n: nat, width: nat): (bs: Bytes)
    ensures |bs| == width
  {
    if width == 0 then [] else ToBigEndian(n / 256, width - 1) + [(n % 256) as bv8]
  }

  /** A value below 256 is one octet. */
  lemma OneOctet(q: nat)
    requires q < 256
    ensures ToBigEndian(q, 1) == [q as bv8]
  {
    assert q % 256 == q;
    assert ToBigEndian(q / 256, 0) == [];
  }

  /** A value below 65536 is its high octet, then its low octet. */
  lemma TwoOctets(n: nat)
    requires n < 65536
    ensures ToBigEndian(n, 2) == [(n / 256) as bv8, (n % 256) as bv8]
  {
    OneOctet(n / 256);
  }

  /** Encoding a value that fits in `width` octets and reading it back gives the value. */
  lemma {:induction false} BigEndianRoundTrip(n: nat, width: nat)
    requires n < Pow256(width)
    ensures BigEndian(ToBigEndian(n, width)) == n
  {
    if width > 0 {
      var bs := ToBigEndian(n, width);
      var q, r := n / 256, n % 256;
      assert n == q * 256 + r;
      assert q < Pow256(width - 1) by {
        assert Pow256(width) == 256 * Pow256(width - 1);
      }
      BigEndianRoundTrip(q, width - 1);
      assert bs == ToBigEndian(q, width - 1) + [r as bv8];
      assert bs[..width - 1] == ToBigEndian(q, width - 1);
      ByteOfValue(r);
      assert BigEndian(bs) == BigEndian(bs[..width - 1]) * 256 + bs[width - 1] as nat;
    }
  }
}
