/**
 The JWK form of an RSA public key: written by the IAM service, read back by the
 journey service. Integers travel as big-endian bytes in base64url (RFC 7518,
 sections 2 and 6.3.1).
 */
module Jwk {
  import opened Wrappers
  import Base64Url
  import opened Bytes

  const TWO_63 := 0x8000_0000_0000_0000
  const TWO_64 := 0x1_0000_0000_0000_0000

  /** Go's int on the services' platforms. */
  newtype int64 = x: int | -0x8000_0000_0000_0000 <= x < 0x8000_0000_0000_0000

  /** rsa.PublicKey: the modulus is a signed big integer, the exponent a machine integer. */
  datatype PublicKey = PublicKey(n: int, e: int64)

  datatype Key = Key(kty: string, use: string, alg: string, kid: string, n: string, e: string)

  function Abs(x: int): nat { if x < 0 then -x else x }

  /** big.Int.Bytes: the magnitude, big-endian, without leading zeros. */
  function ToBytes(n: nat): (b: seq<bv8>) {
    if n == 0 then [] else ToBytes(n / 256) + [(n % 256) as bv8]
  }

  /** big.Int.SetBytes. */
  function FromBytes(b: seq<bv8>): nat {
    if b == [] then 0 else FromBytes(b[..|b| - 1]) * 256 + b[|b| - 1] as int
  }

  /** big.Int.Int64 keeps the low 64 bits and reads them as a signed integer. */
  function Int64(m: nat): int64 {
    var low := m % TWO_64;
    (if low >= TWO_63 then low - TWO_64 else low) as int64
  }

  function PubKeyToJwk(pub: PublicKey, kid: string): Key {
    Key("RSA", "sig", "RS256", kid, Base64Url.Encode(ToBytes(Abs(pub.n))), Base64Url.Encode(ToBytes(Abs(pub.e as int))))
  }

  ghost function RsaPublicKeyFromJwk(k: Key): Result<PublicKey> {
    match (Base64Url.Decode(k.n), Base64Url.Decode(k.e))
    case (None, _) => Err("decode N")
    case (_, None) => Err("decode E")
    case (Some(nBytes), Some(eBytes)) =>
      var e := Int64(FromBytes(eBytes));
      if e == 0 then Err("invalid exponent (0)") else Ok(PublicKey(FromBytes(nBytes), e))
  }

  /** The key is described as an RSA key for RS256 signatures, under the given id. */
  lemma JwkDescribesRs256(pub: PublicKey, kid: string)
    ensures var k := PubKeyToJwk(pub, kid); k.kty == "RSA" && k.use == "sig" && k.alg == "RS256" && k.kid == kid
  {
  }

  /** Reading a key fails exactly where a part is no base64url, or the exponent comes out as zero. */
  lemma ReadingFailsExactly(k: Key)
    ensures var n, e, r := Base64Url.Decode(k.n), Base64Url.Decode(k.e), RsaPublicKeyFromJwk(k);
      && (r == Err("decode N") <==> n.None?)
      && (r == Err("decode E") <==> n.Some? && e.None?)
      && (r.Ok? <==> n.Some? && e.Some? && FromBytes(e.value) % 18_446_744_073_709_551_616 != 0)
      && (r.Ok? ==> r.value.n == FromBytes(n.value))
  {
  }

  lemma {:induction false} FromBytesOfToBytes(n: nat)
    ensures FromBytes(ToBytes(n)) == n
    ensures ToBytes(n) == [] || ToBytes(n)[0] != 0
  {
    if n > 0 {
      var init, last := ToBytes(n / 256), (n % 256) as bv8;
      FromBytesOfToBytes(n / 256);
      ByteOfInt(n % 256);
      assert (init + [last])[..|init|] == init;
    }
  }

  /** The other direction: without leading zeros, the bytes are the only ones for their value. */
  lemma {:induction false} ToBytesOfFromBytes(b: seq<bv8>)
    requires b == [] || b[0] != 0
    ensures ToBytes(FromBytes(b)) == b
    ensures b != [] ==> FromBytes(b) > 0
  {
    if b != [] {
      var init, last := b[..|b| - 1], b[|b| - 1];
      ToBytesOfFromBytes(init);
      IntOfByte(last);
      LastByte(FromBytes(init), last as int);
      assert b == init + [last];
    }
  }

  lemma LastByte(n: nat, k: nat)
    requires k < 256
    ensures (n * 256 + k) / 256 == n && (n * 256 + k) % 256 == k
  {
  }

  lemma Int64OfMagnitude(e: int64)
    ensures Int64(Abs(e as int)) == e <==> e >= 0 || e as int == -TWO_63
    ensures Int64(Abs(e as int)) == 0 <==> e == 0
  {
  }

  lemma ReadBack(pub: PublicKey, kid: string)
    ensures var e := Int64(Abs(pub.e as int));
      RsaPublicKeyFromJwk(PubKeyToJwk(pub, kid))
        == if e == 0 then Err("invalid exponent (0)") else Ok(PublicKey(Abs(pub.n), e))
  {
    var n, e := Abs(pub.n), Abs(pub.e as int);
    Base64Url.DecodeOfEncode(ToBytes(n));
    Base64Url.DecodeOfEncode(ToBytes(e));
    FromBytesOfToBytes(n);
    FromBytesOfToBytes(e);
  }

  /**
   A key survives the trip exactly when its modulus is not negative and its exponent
   is positive; the one negative exponent that survives is the smallest int64,
   whose magnitude wraps back to it.
   */
  lemma KeyRoundTrip(pub: PublicKey, kid: string)
    ensures RsaPublicKeyFromJwk(PubKeyToJwk(pub, kid)) == Ok(pub)
        <==> pub.n >= 0 && (pub.e > 0 || pub.e as int == -TWO_63)
  {
    ReadBack(pub, kid);
    Int64OfMagnitude(pub.e);
  }

  /** Distinct keys have distinct JWK members, so no reader confuses two keys. */
  lemma JwkDeterminesKey(a: PublicKey, b: PublicKey, kid: string)
    requires a.n > 0 && a.e > 0 && b.n > 0 && b.e > 0
    requires PubKeyToJwk(a, kid) == PubKeyToJwk(b, kid)
    ensures a == b
  {
    KeyRoundTrip(a, kid);
    KeyRoundTrip(b, kid);
  }
}
