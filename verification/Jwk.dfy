// Integers inside a JWK: big-endian bytes without leading zeros, in unpadded base64url.
module Jwk {
  import opened Wrappers
  import opened Base64
  import opened EcSignature

  /** big.Int.Bytes. */
  function Minimal(v: nat): (b: seq<Byte>)
    ensures b == [] <==> v == 0
    ensures b != [] ==> b[0] != 0
  {
    if v == 0 then [] else Minimal(v / 256) + [v % 256]
  }

  function WriteInteger(v: nat): string { EncodeRawUrl(Minimal(v)) }

  /** decodeB64 and SetBytes: None for a field that is not base64url. */
  function ReadInteger(field: string): Option<nat> {
    match DecodeRawUrl(field)
    case Some(b) => Some(FromBytes(b))
    case None => None
  }

  lemma DivideBound(v: nat, p: nat)
    ensures v < 256 * p <==> v / 256 < p
  {
  }

  lemma {:induction false} FromMinimal(v: nat)
    ensures FromBytes(Minimal(v)) == v
  {
    if v > 0 {
      var b := Minimal(v);
      FromMinimal(v / 256);
      assert b[..|b| - 1] == Minimal(v / 256) && b[|b| - 1] == v % 256;
    }
  }

  /** The fixed width of a number in its top byte's range is its minimal form; a smaller number
      has a shorter one. */
  lemma {:induction false} MinimalWidth(v: nat, size: nat)
    requires size > 0 && v < Pow256(size)
    ensures if v >= Pow256(size - 1) then Minimal(v) == ToBytes(v, size) else |Minimal(v)| < size
    decreases size
  {
    if size == 1 {
      assert Pow256(0) == 1 && Pow256(1) == 256;
      assert v / 256 == 0;
      assert ToBytes(v, 1) == ToBytes(v / 256, 0) + [v % 256];
    } else {
      DivideBound(v, Pow256(size - 1));
      DivideBound(v, Pow256(size - 2));
      MinimalWidth(v / 256, size - 1);
    }
  }

  /** Every non-negative integer written into a JWK is read back. */
  lemma IntegerRoundTrip(v: nat)
    ensures ReadInteger(WriteInteger(v)) == Some(v)
  {
    FromMinimal(v);
    RawUrlRoundTrip(Minimal(v));
  }

  /** Section 6.2.1.2 of RFC 7518 asks for the full width of the curve; what is written has it
      exactly when the coordinate fills its top byte. Either text is read back the same. */
  lemma FullWidthIffTopByte(v: nat, size: nat)
    requires 0 < size && v < Pow256(size)
    ensures WriteInteger(v) == EncodeRawUrl(ToBytes(v, size)) <==> v >= Pow256(size - 1)
    ensures ReadInteger(EncodeRawUrl(ToBytes(v, size))) == ReadInteger(WriteInteger(v)) == Some(v)
  {
    MinimalWidth(v, size);
    FromMinimal(v);
    RawUrlRoundTrip(Minimal(v));
    RawUrlRoundTrip(ToBytes(v, size));
    FromToBytes(v, size);
  }
}
