/**
  Fixed-width big-endian encoding of natural numbers as byte sequences:
  the behaviour that `U2048::to_be_bytes` and `U2048::from_be_slice`
  supply to the RSA layer. The most significant byte comes first and
  no leading zero byte is ever trimmed.
*/
module BigEndian {
  import opened Arith

  type Byte = b: int | 0 <= b < 256

  /** The value of a big-endian byte string. */
  function FromBytes(bs: seq<Byte>): (v: nat)
    ensures v < Pow256(|bs|)
  {
    if |bs| == 0 then 0
    else
      var init := bs[..|bs| - 1];
      var rest := FromBytes(init);
      assert rest + 1 <= Pow256(|init|);
      assert rest * 256 + 256 <= Pow256(|init|) * 256;
      rest * 256 + bs[|bs| - 1]
  }

  /** The `n`-byte big-endian encoding of `x`; `x` must fit in `n` bytes. */
  function Encode(x: nat, n: nat): (bs: seq<Byte>)
    requires x < Pow256(n)
    ensures |bs| == n
    ensures FromBytes(bs) == x
  {
    if n == 0 then []
    else
      assert x / 256 < Pow256(n - 1) by {
        DivModUnique(Pow256(n), 256, Pow256(n - 1), 0);
        DivMonotone(x, Pow256(n) - 1, 256);
      }
      var hi := Encode(x / 256, n - 1);
      var bs := hi + [x % 256];
      assert bs[..|bs| - 1] == hi;
      bs
  }

  lemma DivMonotone(x: nat, y: nat, d: nat)
    requires x <= y && d > 0
    ensures x / d <= y / d
  {
    var qx, qy := x / d, y / d;
    assert x == qx * d + x % d && y == qy * d + y % d;
    if qx > qy {
      MulAtLeast(qx - qy, d);
    }
  }

  /** Every byte string is the encoding of its own value at its own width. */
  lemma {:induction false} DecodeEncode(bs: seq<Byte>)
    ensures Encode(FromBytes(bs), |bs|) == bs
  {
    if |bs| > 0 {
      var init := bs[..|bs| - 1];
      var last := bs[|bs| - 1];
      var v := FromBytes(bs);
      DivModUnique(v, 256, FromBytes(init), last);
      DecodeEncode(init);
      assert bs == init + [last];
    }
  }

  /** Equal-width byte strings with the same value are the same string. */
  lemma FromBytesInjective(a: seq<Byte>, b: seq<Byte>)
    requires |a| == |b|
    ensures FromBytes(a) == FromBytes(b) <==> a == b
  {
    if FromBytes(a) == FromBytes(b) {
      DecodeEncode(a);
      DecodeEncode(b);
    }
  }

  /** Byte i of the encoding is digit n-1-i of x in base 256: most significant first. */
  lemma {:induction false} EncodeDigit(x: nat, n: nat, i: nat)
    requires x < Pow256(n)
    requires i < n
    ensures Encode(x, n)[i] == (x / Pow256(n - 1 - i)) % 256
  {
    DivModUnique(Pow256(n), 256, Pow256(n - 1), 0);
    DivMonotone(x, Pow256(n) - 1, 256);
    if i < n - 1 {
      EncodeDigit(x / 256, n - 1, i);
      DivDiv(x, 256, Pow256(n - 2 - i));
      assert Pow256(n - 1 - i) == 256 * Pow256(n - 2 - i);
    }
  }

  /** Zero encodes as all zero bytes, at every width. */
  lemma EncodeZero(n: nat)
    ensures Encode(0, n) == seq(n, _ => 0)
  {
    var z := Encode(0, n);
    forall i | 0 <= i < n
      ensures z[i] == 0
    {
      EncodeDigit(0, n, i);
    }
  }
}
