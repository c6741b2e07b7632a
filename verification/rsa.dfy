/**
  The 2048-bit integer layer of the RSA group of unknown order used by the
  Wesolowski VDF: `BigInteger` over `U2048`, its wrapping subtraction of one,
  its 256-byte big-endian encoding and decoding, the totient derived from the
  two secret primes, and the byte serialisation of the public and secret
  parameters.
*/
module Rsa {
  import opened Arith
  import opened BigEndian

  /** Width in bytes of every key and every serialised parameter. */
  const KEY_LENGTH: nat := 256

  /** 2^2048: one more than the largest `U2048`. */
  const MODULUS: int := Pow256(KEY_LENGTH)

  type U2048 = x: nat | x < MODULUS

  /** A byte array of exactly `KEY_LENGTH` bytes, as `[u8; KEY_LENGTH]`. */
  type KeyBytes = s: seq<Byte> | |s| == KEY_LENGTH witness seq(KEY_LENGTH, _ => 0)

  datatype BigInteger = BigInteger(value: U2048)

  datatype RSASecretKey = RSASecretKey(bytes: KeyBytes)

  datatype RSAPublicKey = RSAPublicKey(bytes: KeyBytes)

  /** The two secret primes. */
  datatype RSASecretParam = RSASecretParam(p: BigInteger, q: BigInteger)

  /** The public modulus. */
  datatype RSAPublicParam = RSAPublicParam(n: BigInteger)

  lemma ModulusIs2To2048()
    ensures MODULUS == Pow2(2048)
  {
    Pow256IsPow2(KEY_LENGTH);
  }

  // ---------------------------------------------------------------------------
  // Wrapping arithmetic on U2048 (the `Wrapping<U2048>` operators)
  // ---------------------------------------------------------------------------

  /** Subtraction modulo 2^2048: below zero it wraps round from the top. */
  function WrappingSub(a: U2048, b: U2048): (r: U2048)
    ensures a >= b ==> r == a - b
    ensures a < b ==> r == MODULUS + a - b
  {
    ReduceOnce(a - b);
    (a - b) % MODULUS
  }

  /** Multiplication modulo 2^2048. */
  function WrappingMul(a: U2048, b: U2048): (r: U2048)
  {
    (a * b) % MODULUS
  }

  /** Addition modulo 2^2048: past the top it wraps round to zero. */
  function WrappingAdd(a: U2048, b: U2048): (r: U2048)
    ensures a + b < MODULUS ==> r == a + b
    ensures a + b >= MODULUS ==> r == a + b - MODULUS
  {
    ReduceOnce(a + b);
    (a + b) % MODULUS
  }

  /** Reducing a value at most one wrap away from [0, 2^2048) adds or removes one 2^2048. */
  lemma ReduceOnce(x: int)
    requires -MODULUS <= x < 2 * MODULUS
    ensures x < 0 ==> x % MODULUS == x + MODULUS
    ensures 0 <= x < MODULUS ==> x % MODULUS == x
    ensures MODULUS <= x ==> x % MODULUS == x - MODULUS
  {
    if x < 0 {
      DivModUnique(x, MODULUS, -1, x + MODULUS);
    } else if x < MODULUS {
      DivModUnique(x, MODULUS, 0, x);
    } else {
      DivModUnique(x, MODULUS, 1, x - MODULUS);
    }
  }

  // ---------------------------------------------------------------------------
  // BigInteger
  // ---------------------------------------------------------------------------

  /** `subtract_one`: one less, wrapping 0 round to 2^2048 - 1. */
  function SubtractOne(x: BigInteger): (r: BigInteger)
    ensures x.value >= 1 ==> r.value == x.value - 1
    ensures x.value == 0 ==> r.value == MODULUS - 1
  {
    BigInteger(WrappingSub(x.value, 1))
  }

  /** Adding one back undoes `SubtractOne`, so it never loses information. */
  lemma SubtractOneInverse(x: BigInteger)
    ensures WrappingAdd(SubtractOne(x).value, 1) == x.value
  {
  }

  /** `to_bytes`: the 256-byte big-endian encoding. */
  function ToBytes(x: BigInteger): (r: KeyBytes)
    ensures FromBytes(r) == x.value
  {
    BigEndian.Encode(x.value, KEY_LENGTH)
  }

  /** Byte i of `to_bytes` is digit 255 - i of the integer in base 256. */
  lemma ToBytesBigEndian(x: BigInteger, i: nat)
    requires i < KEY_LENGTH
    ensures ToBytes(x)[i] == (x.value / Pow256(KEY_LENGTH - 1 - i)) % 256
  {
    EncodeDigit(x.value, KEY_LENGTH, i);
  }

  /** Integers with equal encodings are equal. */
  lemma ToBytesInjective(x: BigInteger, y: BigInteger)
    ensures ToBytes(x) == ToBytes(y) <==> x == y
  {
  }

  /** The integer a 256-byte array denotes. */
  function Decode(bytes: KeyBytes): (x: BigInteger)
    ensures ToBytes(x) == bytes
  {
    DecodeEncode(bytes);
    BigInteger(FromBytes(bytes))
  }

  /** `From<RSASecretKey> for BigInteger`. */
  function FromSecretKey(key: RSASecretKey): (x: BigInteger)
    ensures ToBytes(x) == key.bytes
  {
    Decode(key.bytes)
  }

  /** `From<RSAPublicKey> for BigInteger`. */
  function FromPublicKey(key: RSAPublicKey): (x: BigInteger)
    ensures ToBytes(x) == key.bytes
  {
    Decode(key.bytes)
  }

  /** Encoding and then decoding as a secret key gives the integer back. */
  lemma SecretKeyRoundTrip(x: BigInteger)
    ensures FromSecretKey(RSASecretKey(ToBytes(x))) == x
  {
    ToBytesInjective(FromSecretKey(RSASecretKey(ToBytes(x))), x);
  }

  /** Encoding and then decoding as a public key gives the integer back. */
  lemma PublicKeyRoundTrip(x: BigInteger)
    ensures FromPublicKey(RSAPublicKey(ToBytes(x))) == x
  {
    ToBytesInjective(FromPublicKey(RSAPublicKey(ToBytes(x))), x);
  }

  // ---------------------------------------------------------------------------
  // Totient
  // ---------------------------------------------------------------------------

  /** The totient the documentation promises: (p-1)(q-1), over the integers. */
  ghost function DocumentedTotient(p: BigInteger, q: BigInteger): int
  {
    (p.value - 1) * (q.value - 1)
  }

  /**
    `Totient::from_primes` as written: the wrapping DIFFERENCE of p - 1 and
    q - 1, which is p - q reduced modulo 2^2048.
  */
  function FromPrimes(p: BigInteger, q: BigInteger): (t: BigInteger)
    ensures t.value == (p.value - q.value) % MODULUS
  {
    ReduceOnce(p.value - q.value);
    BigInteger(WrappingSub(SubtractOne(p).value, SubtractOne(q).value))
  }

  /** Two equal primes give a zero totient. */
  lemma FromPrimesEqual(p: BigInteger)
    ensures FromPrimes(p, p).value == 0
  {
  }

  /**
    For any two candidates of at least 2 whose product N = p * q fits in
    2048 bits, in either order, the code's result differs from the
    documented (p-1)(q-1).
  */
  lemma FromPrimesDisagrees(p: BigInteger, q: BigInteger)
    requires p.value >= 2 && q.value >= 2
    requires p.value * q.value < MODULUS
    ensures FromPrimes(p, q).value != DocumentedTotient(p, q)
  {
    if q.value <= p.value {
      FromPrimesNoWrap(p, q);
      ProductExceedsDifference(p.value, q.value);
    } else {
      FromPrimesWraps(p, q);
      WrapExceedsProduct(p.value, q.value, MODULUS);
    }
  }

  /** With q <= p the code's subtraction does not wrap. */
  lemma FromPrimesNoWrap(p: BigInteger, q: BigInteger)
    requires q.value <= p.value
    ensures FromPrimes(p, q).value == p.value - q.value
  {
    ReduceOnce(p.value - q.value);
  }

  /** With p < q the code's subtraction wraps round to 2^2048 - (q - p). */
  lemma FromPrimesWraps(p: BigInteger, q: BigInteger)
    requires p.value < q.value
    ensures FromPrimes(p, q).value == MODULUS + p.value - q.value
  {
    ReduceOnce(p.value - q.value);
  }

  /** (a-1)(b-1) = a(b-2) + (a-b) + 1 > a - b when a, b >= 2. */
  lemma ProductExceedsDifference(a: int, b: int)
    requires a >= 2 && b >= 2
    ensures (a - 1) * (b - 1) > a - b
  {
    assert (a - 1) * (b - 1) == a * (b - 2) + (a - b) + 1;
    assert a * (b - 2) >= 0;
  }

  /** When a < b and a * b < m, the wrapped difference m + a - b exceeds (a-1)(b-1). */
  lemma WrapExceedsProduct(a: int, b: int, m: int)
    requires 2 <= a < b
    requires a * b < m
    ensures m + a - b > (a - 1) * (b - 1)
  {
    assert (a - 1) * (b - 1) == a * b - a - b + 1;
  }

  /** p = 5, q = 3: the code yields 2, the documented product is 8. */
  lemma FromPrimesCounterexample()
    ensures FromPrimes(BigInteger(5), BigInteger(3)).value == 2
    ensures DocumentedTotient(BigInteger(5), BigInteger(3)) == 8
  {
    DivModUnique(2, MODULUS, 0, 2);
  }

  /** The totient as documented: the wrapping PRODUCT of p - 1 and q - 1. */
  function FromPrimesCorrected(p: BigInteger, q: BigInteger): (t: BigInteger)
    ensures p.value >= 1 && q.value >= 1 ==> t.value == DocumentedTotient(p, q) % MODULUS
  {
    BigInteger(WrappingMul(SubtractOne(p).value, SubtractOne(q).value))
  }

  /**
    For two primes whose product N = p * q fits in 2048 bits, the corrected
    totient is exactly (p-1)(q-1), and it is below N.
  */
  lemma FromPrimesCorrectedExact(p: BigInteger, q: BigInteger)
    requires p.value >= 2 && q.value >= 2
    requires p.value * q.value < MODULUS
    ensures FromPrimesCorrected(p, q).value == DocumentedTotient(p, q)
    ensures FromPrimesCorrected(p, q).value < p.value * q.value
  {
    var a, b := p.value, q.value;
    ProductBelow(a, b);
    DivModUnique(DocumentedTotient(p, q), MODULUS, 0, DocumentedTotient(p, q));
  }

  /** 0 <= (a-1)(b-1) < a * b when a, b >= 1. */
  lemma ProductBelow(a: int, b: int)
    requires a >= 1 && b >= 1
    ensures 0 <= (a - 1) * (b - 1) < a * b
  {
    assert (a - 1) * (b - 1) == a * b - (a + b - 1);
    assert (a - 1) * (b - 1) >= 0;
  }

  // ---------------------------------------------------------------------------
  // Secret parameters
  // ---------------------------------------------------------------------------

  /** `From<RSASecretParam> for RSASecretKey`: the encoded totient of the primes. */
  function SecretKeyFromParam(sp: RSASecretParam): (k: RSASecretKey)
    ensures FromSecretKey(k) == FromPrimes(sp.p, sp.q)
  {
    SecretKeyRoundTrip(FromPrimes(sp.p, sp.q));
    RSASecretKey(ToBytes(FromPrimes(sp.p, sp.q)))
  }

  /** `VDFSecretParam::to_vec` for `RSASecretParam`. */
  function SecretParamToVec(sp: RSASecretParam): (v: seq<Byte>)
    ensures |v| == KEY_LENGTH
    ensures FromBytes(v) == (sp.p.value - sp.q.value) % MODULUS
  {
    SecretKeyFromParam(sp).bytes
  }

  /**
    The secret serialisation is a function of the totient alone: two secret
    parameters serialise alike exactly when their totients are equal.
  */
  lemma SecretParamToVecOnlyTotient(a: RSASecretParam, b: RSASecretParam)
    ensures SecretParamToVec(a) == SecretParamToVec(b)
        <==> FromPrimes(a.p, a.q) == FromPrimes(b.p, b.q)
  {
    ToBytesInjective(FromPrimes(a.p, a.q), FromPrimes(b.p, b.q));
  }

  /** The primes cannot be recovered: (5, 3) and (7, 5) serialise alike. */
  lemma SecretParamToVecLosesPrimes()
    ensures SecretParamToVec(RSASecretParam(BigInteger(5), BigInteger(3)))
         == SecretParamToVec(RSASecretParam(BigInteger(7), BigInteger(5)))
  {
    DivModUnique(2, MODULUS, 0, 2);
    SecretParamToVecOnlyTotient(RSASecretParam(BigInteger(5), BigInteger(3)),
                                RSASecretParam(BigInteger(7), BigInteger(5)));
  }

  /** Equal primes serialise to 256 zero bytes. */
  lemma SecretParamToVecEqualPrimes(p: BigInteger)
    ensures SecretParamToVec(RSASecretParam(p, p)) == seq(KEY_LENGTH, _ => 0)
  {
    EncodeZero(KEY_LENGTH);
  }

  /** The secret serialisation with the documented totient. */
  function SecretParamToVecCorrected(sp: RSASecretParam): (v: seq<Byte>)
    ensures |v| == KEY_LENGTH
    ensures sp.p.value >= 1 && sp.q.value >= 1 ==>
              FromBytes(v) == DocumentedTotient(sp.p, sp.q) % MODULUS
  {
    ToBytes(FromPrimesCorrected(sp.p, sp.q))
  }

  // ---------------------------------------------------------------------------
  // Public parameters
  // ---------------------------------------------------------------------------

  /** `From<RSAPublicParam> for RSAPublicKey`: the encoded modulus. */
  function PublicKeyFromParam(pp: RSAPublicParam): (k: RSAPublicKey)
    ensures FromPublicKey(k) == pp.n
  {
    PublicKeyRoundTrip(pp.n);
    RSAPublicKey(ToBytes(pp.n))
  }

  /** `VDFPublicParam::to_vec` for `RSAPublicParam`. */
  function PublicParamToVec(pp: RSAPublicParam): (v: seq<Byte>)
    ensures |v| == KEY_LENGTH
    ensures FromBytes(v) == pp.n.value
  {
    PublicKeyFromParam(pp).bytes
  }

  /** The modulus is the only input to the public serialisation, and it is recoverable. */
  lemma PublicParamToVecInjective(a: RSAPublicParam, b: RSAPublicParam)
    ensures PublicParamToVec(a) == PublicParamToVec(b) <==> a == b
  {
    ToBytesInjective(a.n, b.n);
  }
}
