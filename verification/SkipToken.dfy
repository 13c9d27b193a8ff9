// The opaque $skiptoken of a paged listing: a decimal offset in unpadded base64url.
module SkipToken {
  import opened Wrappers
  import opened Decimal
  import Base64

  // ---- []byte(string) and string([]byte) on the bytes a token can hold ----

  function Bytes(s: string): (b: seq<Base64.Byte>)
    requires forall i :: 0 <= i < |s| ==> s[i] < 128 as char
    ensures |b| == |s| && forall i :: 0 <= i < |s| ==> b[i] == s[i] as int
  {
    seq(|s|, i requires 0 <= i < |s| => s[i] as int)
  }

  /** One character per byte. A byte outside ASCII is no digit and no sign, however decoded. */
  function Chars(b: seq<Base64.Byte>): (s: string)
    ensures |s| == |b| && forall i :: 0 <= i < |b| ==> s[i] as int == b[i]
  {
    seq(|b|, i requires 0 <= i < |b| => b[i] as char)
  }

  // ---- the token ----

  function Encode(offset: int): string {
    ItoaIsAscii(offset);
    Base64.EncodeRawUrl(Bytes(Itoa(offset)))
  }

  /** Total: anything that is not a token this module issued reads as some int. */
  function Decode(token: string): Int {
    if token == "" then 0
    else match Base64.DecodeRawUrl(token)
         case None => 0
         case Some(b) => Atoi(Chars(b))
  }

  /** Decoding gives back every int, and no issued token reads as "no more pages". */
  lemma RoundTrip(offset: Int)
    ensures Decode(Encode(offset)) == offset
    ensures Encode(offset) != ""
  {
    ItoaIsAscii(offset);
    var s := Itoa(offset);
    Base64.RawUrlRoundTrip(Bytes(s));
    assert Chars(Bytes(s)) == s;
    AtoiOfItoa(offset);
    assert |Base64.ToSextets(Bytes(s))| > 0;
  }

  /** What is not base64url starts a listing over, and so does what holds anything but a sign and digits. */
  lemma BrokenIsZero(token: string, i: nat)
    requires Base64.DecodeRawUrl(token).Some? ==>
               var s := Chars(Base64.DecodeRawUrl(token).value);
               i < |s| && !IsDigit(s[i]) && (i == 0 ==> s[0] != '-' && s[0] != '+')
    ensures Decode(token) == 0
  {
    if token != "" && Base64.DecodeRawUrl(token).Some? {
      AtoiOfOther(Chars(Base64.DecodeRawUrl(token).value), i);
    }
  }

  /** So two offsets never share a token. */
  lemma Injective(a: Int, b: Int)
    ensures Encode(a) == Encode(b) <==> a == b
  {
    RoundTrip(a);
    RoundTrip(b);
  }
}
