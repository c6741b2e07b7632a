# 2048-bit integer layer of the RSA group for a Wesolowski VDF

This project models the fixed-width integer layer of an RSA group of unknown
order, written for a Wesolowski Verifiable Delay Function that is meant to run
in ink smart contracts. That layer is `src/groups/rsa.rs`. It contains:

- `BigInteger`, a newtype over the 2048-bit unsigned integer `U2048`. It
  supports wrapping subtraction of one (`subtract_one`) and encoding to a
  256-byte big-endian array (`to_bytes`).
- `RSASecretKey` and `RSAPublicKey`, 256-byte arrays that decode back to a
  `BigInteger`.
- `Totient::from_primes`, which derives the secret value from the two primes.
- `RSASecretParam` (the primes p and q) and `RSAPublicParam` (the modulus n),
  with the `From` conversions to keys and the `to_vec` serialisers that the
  VDF traits require.

In the model, `U2048` is a natural number below `MODULUS` = 256^256. Lemma
`ModulusIs2To2048` proves this equals 2^2048. Bytes are integers 0..255.
Key arrays are byte sequences of length exactly `KEY_LENGTH` = 256.
Everything is a pure function.

There are three modules:

- `Arith`: powers of two and 256, plus division facts.
- `BigEndian`: the fixed-width big-endian codec. It stands in for
  `U2048::to_be_bytes` and `U2048::from_be_slice` from `crypto_bigint`.
- `Rsa`: everything `src/groups/rsa.rs` defines.

`Wrapping<U2048>` and `BigInteger::wrap` have no separate type. Their `-`
operator is `Rsa.WrappingSub`, which is subtraction modulo 2^2048.

## Model

| member | source | states |
|---|---|---|
| `Rsa.ModulusIs2To2048` | src/groups/rsa.rs:10-20 | The integer type has 2048 bits: 256^256, the bound on every `U2048`, equals 2^2048 |
| `Rsa.WrappingSub` | src/groups/rsa.rs:28-33 | `Wrapping` subtraction gives a - b when a >= b. Otherwise it wraps to 2^2048 + a - b. The result is always below 2^2048 |
| `Rsa.SubtractOne` | src/groups/rsa.rs:31-34 | `subtract_one` gives x - 1 for x >= 1 and wraps 0 to 2^2048 - 1 |
| `Rsa.SubtractOneInverse` | src/groups/rsa.rs:31-34 | Wrapping addition of one undoes `subtract_one`, so no input loses information |
| `BigEndian.FromBytes` | src/groups/rsa.rs:44 | The value of an n-byte big-endian string is below 256^n. So a 256-byte key always decodes to a valid `U2048` |
| `BigEndian.Encode` | src/groups/rsa.rs:36-38 | The n-byte big-endian encoding has exactly n bytes, and its value is the encoded integer |
| `BigEndian.EncodeDigit` | src/groups/rsa.rs:35-37 | Byte i of the encoding is base-256 digit n-1-i of the integer: the most significant byte comes first |
| `BigEndian.DecodeEncode` | src/groups/rsa.rs:44 | Decoding a byte string and re-encoding it at the same width returns the same bytes, leading zeros included |
| `BigEndian.FromBytesInjective` | src/groups/rsa.rs:44 | Two byte strings of equal width decode to the same value exactly when they are equal |
| `BigEndian.EncodeZero` | src/groups/rsa.rs:36-38 | Zero encodes as all zero bytes, at any width |
| `Rsa.ToBytes` | src/groups/rsa.rs:35-38 | `to_bytes` yields exactly `KEY_LENGTH` = 256 bytes, and their big-endian value equals the integer |
| `Rsa.ToBytesBigEndian` | src/groups/rsa.rs:35-38 | Byte i of `to_bytes` is base-256 digit 255-i of the integer |
| `Rsa.ToBytesInjective` | src/groups/rsa.rs:35-38 | Two integers have the same `to_bytes` exactly when they are equal |
| `Rsa.Decode` | src/groups/rsa.rs:44 | Decoding any 256-byte array gives the integer whose `to_bytes` is that array |
| `Rsa.FromSecretKey` | src/groups/rsa.rs:41-46 | For every 256-byte secret key, `to_bytes` of the decoded integer is the key's bytes |
| `Rsa.FromPublicKey` | src/groups/rsa.rs:48-53 | For every 256-byte public key, `to_bytes` of the decoded integer is the key's bytes |
| `Rsa.SecretKeyRoundTrip` | src/groups/rsa.rs:36-46 | Encoding an integer with `to_bytes` and decoding it as a secret key gives the integer back |
| `Rsa.PublicKeyRoundTrip` | src/groups/rsa.rs:48-53 | Encoding an integer with `to_bytes` and decoding it as a public key gives the integer back |
| `Rsa.FromPrimes` | src/groups/rsa.rs:56-59 | `Totient::from_primes(p, q)` as written is the wrapping difference of p-1 and q-1. This equals (p - q) mod 2^2048 |
| `Rsa.FromPrimesEqual` | src/groups/rsa.rs:57-58 | `from_primes(p, p)` is 0 |
| `Rsa.FromPrimesDisagrees` | src/groups/rsa.rs:55-58 | Take p, q >= 2, in either order, whose product N = p*q is below 2^2048. Then `from_primes(p, q)` as written never equals the documented (p-1)(q-1) |
| `Rsa.FromPrimesNoWrap` | src/groups/rsa.rs:57-58 | When q <= p, `from_primes(p, q)` is exactly p - q |
| `Rsa.FromPrimesWraps` | src/groups/rsa.rs:57-58 | When p < q, `from_primes(p, q)` wraps round to 2^2048 - (q - p) |
| `Rsa.FromPrimesCounterexample` | src/groups/rsa.rs:55-58 | For p = 5 and q = 3, the code yields 2 and the documented product is 8 |
| `Rsa.FromPrimesCorrected` | src/groups/rsa.rs:55 | The documented totient, a wrapping product of p-1 and q-1. For p, q >= 1 it equals (p-1)(q-1) mod 2^2048 |
| `Rsa.FromPrimesCorrectedExact` | src/groups/rsa.rs:55 | Take p, q >= 2 with p*q below 2^2048. Then the corrected totient is exactly (p-1)(q-1), and it is below p*q |
| `Rsa.SecretKeyFromParam` | src/groups/rsa.rs:77-83 | The secret key made from the secret parameters decodes to `from_primes(p, q)` |
| `Rsa.SecretParamToVec` | src/groups/rsa.rs:70-75 | The secret `to_vec` has 256 bytes, and their big-endian value is (p - q) mod 2^2048 |
| `Rsa.SecretParamToVecOnlyTotient` | src/groups/rsa.rs:70-83 | Two secret parameters serialise alike exactly when their `from_primes` results are equal. The serialisation depends on the totient alone |
| `Rsa.SecretParamToVecLosesPrimes` | src/groups/rsa.rs:77-83 | (5, 3) and (7, 5) serialise to the same bytes, so the primes cannot be recovered from `to_vec` |
| `Rsa.SecretParamToVecEqualPrimes` | src/groups/rsa.rs:77-83 | Secret parameters with p = q serialise to 256 zero bytes |
| `Rsa.SecretParamToVecCorrected` | src/groups/rsa.rs:77-83 | With the documented totient, the secret serialisation has 256 bytes. For p, q >= 1 their value is (p-1)(q-1) mod 2^2048 |
| `Rsa.PublicKeyFromParam` | src/groups/rsa.rs:98-103 | The public key made from the public parameters decodes back to the modulus n |
| `Rsa.PublicParamToVec` | src/groups/rsa.rs:91-96 | The public `to_vec` has 256 bytes, and their big-endian value is n |
| `Rsa.PublicParamToVecInjective` | src/groups/rsa.rs:91-103 | Two public parameters serialise alike exactly when they are equal. Only n contributes, and n is recoverable |

## Left out

- `CustomPRNG::from_salt` in `src/groups/mod.rs` is not modelled. It wraps HKDF extract and expand from the `ring` crate, whose code is not part of this model. It also uses a `BytesWrapper` type that `src/groups/rsa.rs` does not define.
- The `My<T>` newtype and its `hkdf::KeyType` adapter are not modelled. They only adapt foreign traits.
- `RSA::setup` is not modelled. Its body is `todo!()`, so there is no prime sampling, modulus product or primality test to model. `RSASetupSecret` and the `RSA` struct are not modelled for the same reason.
- The `VDF` trait and the marker traits in `src/lib.rs` are not modelled. They are signatures without bodies, so there is no evaluate, trapdoor, prove or verify logic.
- The ink `Vec` alias, the `no_std` configuration and the smart-contract storage concerns are not modelled. They belong to the host environment.
- `U2048::from_be_slice` panics when the slice length differs from 256. No error path is modelled, because `src/groups/rsa.rs` only ever passes fixed `[u8; 256]` arrays, so the panic cannot occur.
- The `Debug`, `Clone` and `Copy` derives are not modelled. Model values are immutable, so `clone()` is the identity.

## Findings

| source | as written | input that shows it | evidently intended | confidence | as-written member | corrected member |
|---|---|---|---|---|---|---|
| src/groups/rsa.rs:55-58 | `from_primes` subtracts: the wrapping difference (p-1) - (q-1), which is (p - q) mod 2^2048 | p = 5, q = 3 gives 2. The doc comment's (p-1)(q-1) is 8. Any p = q gives 0 | the product (p-1)(q-1), the totient of N = p*q | high; not executed | `Rsa.FromPrimesCounterexample` | `Rsa.FromPrimesCorrectedExact` |

`Rsa.FromPrimes` and `Rsa.SecretParamToVec` follow the code as written. The
code itself never calls anything but the subtraction. `Rsa.FromPrimesDisagrees`
shows the two results differ for every pair p, q >= 2, in either order,
whose product N = p*q fits in 2048 bits. The corrected
`Rsa.FromPrimesCorrected` is used by `Rsa.SecretParamToVecCorrected`, which
serialises the secret parameters with the documented totient.
