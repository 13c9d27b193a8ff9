// Base64 as Go's encoding/base64 does it (RFC 4648, sections 4 and 5): the padded
// standard alphabet and the unpadded URL alphabet. Decoding skips CR and LF.
module Base64 {
  import opened Wrappers
  import opened Text

  type Byte = b: int | 0 <= b < 256
  type Sextet = v: int | 0 <= v < 64

  datatype Alphabet = Standard | Url

  const PAD: char := '='

  // ---- bytes to 6-bit groups ----

  function First(x: Byte): Sextet { x / 4 }
  function Second(x: Byte, y: Byte): Sextet { x % 4 * 16 + y / 16 }
  function Third(y: Byte, z: Byte): Sextet { y % 16 * 4 + z / 64 }
  function Fourth(z: Byte): Sextet { z % 64 }

  function Byte0(p: Sextet, q: Sextet): Byte { p * 4 + q / 16 }
  function Byte1(q: Sextet, r: Sextet): Byte { q % 16 * 16 + r / 4 }
  function Byte2(r: Sextet, s: Sextet): Byte { r % 4 * 64 + s }

  /** The four groups are the 24 bits of the three bytes, in order (section 4 of RFC 4648). */
  lemma QuantumValue(x: Byte, y: Byte, z: Byte)
    ensures x * 0x1_0000 + y * 0x100 + z == First(x) * 0x4_0000 + Second(x, y) * 0x1000 + Third(y, z) * 0x40 + Fourth(z)
  {
  }

  function ToSextets(b: seq<Byte>): (s: seq<Sextet>)
    decreases |b|
  {
    if |b| == 0 then []
    else if |b| == 1 then [First(b[0]), Second(b[0], 0)]
    else if |b| == 2 then [First(b[0]), Second(b[0], b[1]), Third(b[1], 0)]
    else [First(b[0]), Second(b[0], b[1]), Third(b[1], b[2]), Fourth(b[2])] + ToSextets(b[3..])
  }

  // A lone trailing group carries fewer than eight bits: corrupt input.
  function FromSextets(s: seq<Sextet>): Option<seq<Byte>>
    decreases |s|
  {
    if |s| == 0 then Some([])
    else if |s| == 1 then None
    else if |s| == 2 then Some([Byte0(s[0], s[1])])
    else if |s| == 3 then Some([Byte0(s[0], s[1]), Byte1(s[1], s[2])])
    else match FromSextets(s[4..])
         case None => None
         case Some(rest) => Some([Byte0(s[0], s[1]), Byte1(s[1], s[2]), Byte2(s[2], s[3])] + rest)
  }

  lemma QuantumRoundTrip(s: seq<Sextet>, x: Byte, y: Byte, z: Byte)
    requires |s| >= 4
    requires s[0] == First(x) && s[1] == Second(x, y)
    ensures Byte0(s[0], s[1]) == x
    ensures s[2] == Third(y, z) ==> Byte1(s[1], s[2]) == y
    ensures s[2] == Third(y, z) && s[3] == Fourth(z) ==> Byte2(s[2], s[3]) == z
  {
  }

  lemma {:induction false} SextetRoundTrip(b: seq<Byte>)
    ensures FromSextets(ToSextets(b)) == Some(b)
    decreases |b|
  {
    var s := ToSextets(b);
    if |b| >= 3 {
      var rest := ToSextets(b[3..]);
      SextetRoundTrip(b[3..]);
      assert s[4..] == rest;
      assert s[0] == First(b[0]) && s[1] == Second(b[0], b[1]) && s[2] == Third(b[1], b[2]) && s[3] == Fourth(b[2]);
      QuantumRoundTrip(s, b[0], b[1], b[2]);
      assert b == [b[0], b[1], b[2]] + b[3..];
    } else if |b| == 2 {
      QuantumRoundTrip(s + [0], b[0], b[1], 0);
      assert b == [b[0], b[1]];
    } else if |b| == 1 {
      QuantumRoundTrip(s + [0, 0], b[0], 0, 0);
      assert b == [b[0]];
    }
  }

  // A text is never one character over a whole number of quanta.
  lemma {:induction false} SextetCount(b: seq<Byte>)
    ensures |ToSextets(b)| % 4 != 1
    decreases |b|
  {
    if |b| >= 3 {
      SextetCount(b[3..]);
      assert |ToSextets(b)| == 4 + |ToSextets(b[3..])|;
    }
  }

  // ---- 6-bit groups to characters ----

  function EncodeChar(a: Alphabet, v: Sextet): (c: char)
    ensures c != PAD && c != '\n' && c != '\r'
    ensures c < 128 as char
  {
    if v < 26 then ('A' as int + v) as char
    else if v < 52 then ('a' as int + v - 26) as char
    else if v < 62 then ('0' as int + v - 52) as char
    else if v == 62 then (if a.Standard? then '+' else '-')
    else (if a.Standard? then '/' else '_')
  }

  function DecodeChar(a: Alphabet, c: char): Option<Sextet> {
    if 'A' <= c <= 'Z' then Some(c as int - 'A' as int)
    else if 'a' <= c <= 'z' then Some(c as int - 'a' as int + 26)
    else if '0' <= c <= '9' then Some(c as int - '0' as int + 52)
    else if c == (if a.Standard? then '+' else '-') then Some(62)
    else if c == (if a.Standard? then '/' else '_') then Some(63)
    else None
  }

  const UPPER: string := "ABCDEFGHIJKLMNOPQRSTUVWXYZ"
  const LOWER: string := "abcdefghijklmnopqrstuvwxyz"
  const DIGITS: string := "0123456789"

  /** The alphabets as tables 1 and 2 of RFC 4648 print them. */
  function Letters(a: Alphabet): string {
    UPPER + LOWER + DIGITS + (if a.Standard? then "+/" else "-_")
  }

  // Consecutive letters have consecutive codes.
  predicate Consecutive(s: string, first: char) {
    forall i :: 0 <= i < |s| ==> s[i] as int == first as int + i
  }

  lemma UpperConsecutive()
    ensures Consecutive(UPPER, 'A') && |UPPER| == 26
  {
  }

  lemma LowerConsecutive()
    ensures Consecutive(LOWER, 'a') && |LOWER| == 26
  {
  }

  lemma DigitsConsecutive()
    ensures Consecutive(DIGITS, '0') && |DIGITS| == 10
  {
  }

  lemma LettersEncode(a: Alphabet, v: Sextet)
    ensures |Letters(a)| == 64 && EncodeChar(a, v) == Letters(a)[v]
  {
    UpperConsecutive();
    LowerConsecutive();
    DigitsConsecutive();
    SameCode(EncodeChar(a, v), Letters(a)[v]);
  }

  /** Exactly the letters of the alphabet decode, each to the number it stands for. */
  lemma CharRoundTrip(a: Alphabet, v: Sextet, c: char)
    ensures DecodeChar(a, c) == Some(v) <==> c == EncodeChar(a, v)
  {
    if DecodeChar(a, c) == Some(v) {
      SameCode(c, EncodeChar(a, v));
    }
  }

  lemma SameCode(c: char, d: char)
    ensures c as int == d as int <==> c == d
  {
    assert (c as int) as char == c;
    assert (d as int) as char == d;
  }

  function EncodeChars(a: Alphabet, s: seq<Sextet>): (t: string)
    ensures |t| == |s|
    ensures PAD !in t && '\n' !in t && '\r' !in t
  {
    if s == [] then "" else [EncodeChar(a, s[0])] + EncodeChars(a, s[1..])
  }

  function DecodeChars(a: Alphabet, t: string): Option<seq<Sextet>> {
    if t == "" then Some([])
    else match (DecodeChar(a, t[0]), DecodeChars(a, t[1..]))
         case (Some(v), Some(rest)) => Some([v] + rest)
         case _ => None
  }

  lemma {:induction false} CharsRoundTrip(a: Alphabet, s: seq<Sextet>)
    ensures DecodeChars(a, EncodeChars(a, s)) == Some(s)
  {
    if s != [] {
      CharRoundTrip(a, s[0], EncodeChar(a, s[0]));
      CharsRoundTrip(a, s[1..]);
      var t := EncodeChars(a, s);
      assert t[1..] == EncodeChars(a, s[1..]);
      assert s == [s[0]] + s[1..];
    }
  }

  // ---- whole strings ----

  function SkipBreaks(t: string): string {
    Without(Without(t, '\n'), '\r')
  }

  /** RawURLEncoding.EncodeToString. */
  function EncodeRawUrl(b: seq<Byte>): string {
    EncodeChars(Url, ToSextets(b))
  }

  /** RawURLEncoding.DecodeString; None stands for CorruptInputError. */
  function DecodeRawUrl(t: string): Option<seq<Byte>> {
    match DecodeChars(Url, SkipBreaks(t))
    case None => None
    case Some(s) => FromSextets(s)
  }

  lemma RawUrlRoundTrip(b: seq<Byte>)
    ensures DecodeRawUrl(EncodeRawUrl(b)) == Some(b)
  {
    CharsRoundTrip(Url, ToSextets(b));
    SextetRoundTrip(b);
  }

  function Padding(n: nat): (p: string)
    ensures (n % 4 == 0 ==> p == "") && (n % 4 == 2 ==> p == "==") && (n % 4 == 3 ==> p == "=")
  {
    if n % 4 == 2 then "==" else if n % 4 == 3 then "=" else ""
  }

  /** StdEncoding.EncodeToString. */
  function EncodeStd(b: seq<Byte>): (t: string)
    ensures '\n' !in t && '\r' !in t
  {
    var chars := EncodeChars(Standard, ToSextets(b));
    chars + Padding(|chars|)
  }

  function PadCount(t: string): (p: nat)
    ensures p <= |t|
  {
    if |t| >= 2 && t[|t| - 1] == PAD && t[|t| - 2] == PAD then 2
    else if |t| >= 1 && t[|t| - 1] == PAD then 1
    else 0
  }

  /** StdEncoding.DecodeString: whole quanta of four characters, padding only at the end. */
  function DecodeStd(text: string): Option<seq<Byte>> {
    var t := SkipBreaks(text);
    if |t| % 4 != 0 then None
    else match DecodeChars(Standard, t[..|t| - PadCount(t)])
         case None => None
         case Some(s) => FromSextets(s)
  }

  lemma PaddingFound(chars: string)
    requires |chars| % 4 != 1 && PAD !in chars
    ensures PadCount(chars + Padding(|chars|)) == |Padding(|chars|)|
    ensures |chars + Padding(|chars|)| % 4 == 0
  {
  }

  lemma StdRoundTrip(b: seq<Byte>)
    ensures DecodeStd(EncodeStd(b)) == Some(b)
  {
    var s := ToSextets(b);
    var chars := EncodeChars(Standard, s);
    var pad := Padding(|chars|);
    var t := chars + pad;
    SextetRoundTrip(b);
    SextetCount(b);
    CharsRoundTrip(Standard, s);
    assert SkipBreaks(t) == t;
    PaddingFound(chars);
    assert t[..|t| - PadCount(t)] == chars;
  }

  /** Line breaks anywhere in the text do not change what it decodes to. */
  lemma DecodeStdIgnoresNewlines(text: string, bare: string)
    requires Without(text, '\n') == bare
    ensures DecodeStd(text) == DecodeStd(bare)
  {
  }
}
