// ECDSA signatures as the two integers of fixed width, one after the other (section 3.4 of
// RFC 7518). Curve arithmetic is foreign: signing takes the pair (r, s) it produced,
// verifying takes the check it performs on such a pair.
module EcSignature {
  import opened Base64

  function Pow256(n: nat): (p: nat)
    ensures p >= 1
  {
    if n == 0 then 1 else 256 * Pow256(n - 1)
  }

  function Pow2(n: nat): (p: nat)
    ensures p >= 1
  {
    if n == 0 then 1 else 2 * Pow2(n - 1)
  }

  // ---- unsigned big-endian numbers ----

  /** Big-endian bytes of `v` in exactly `size` places. */
  function ToBytes(v: nat, size: nat): (b: seq<Byte>)
    requires v < Pow256(size)
    ensures |b| == size
  {
    if size == 0 then [] else ToBytes(v / 256, size - 1) + [v % 256]
  }

  /** big.Int.SetBytes. */
  function FromBytes(b: seq<Byte>): (v: nat)
    ensures v < Pow256(|b|)
  {
    if b == [] then 0 else FromBytes(b[..|b| - 1]) * 256 + b[|b| - 1]
  }

  lemma {:induction false} FromToBytes(v: nat, size: nat)
    requires v < Pow256(size)
    ensures FromBytes(ToBytes(v, size)) == v
  {
    if size > 0 {
      FromToBytes(v / 256, size - 1);
      var b := ToBytes(v, size);
      assert b[..|b| - 1] == ToBytes(v / 256, size - 1);
    }
  }

  lemma {:induction false} ToFromBytes(b: seq<Byte>)
    ensures ToBytes(FromBytes(b), |b|) == b
  {
    if b != [] {
      var front := b[..|b| - 1];
      ToFromBytes(front);
      assert FromBytes(b) / 256 == FromBytes(front);
      assert b == front + [b[|b| - 1]];
    }
  }

  /** Big-endian: the first byte weighs most. */
  lemma {:induction false} FirstByteWeighsMost(b: seq<Byte>)
    requires b != []
    ensures FromBytes(b) == b[0] * Pow256(|b| - 1) + FromBytes(b[1..])
  {
    var front := b[..|b| - 1];
    if front == [] {
      assert b[1..] == [];
    } else {
      FirstByteWeighsMost(front);
      assert b[1..][..|b| - 2] == front[1..];
      assert Pow256(|b| - 1) == 256 * Pow256(|b| - 2);
      Shift(b[0], Pow256(|b| - 2), FromBytes(front[1..]));
    }
  }

  lemma Shift(x: nat, p: nat, y: nat)
    ensures (x * p + y) * 256 == x * (256 * p) + y * 256
  {
  }

  /** big.Int.FillBytes on buf[lo..hi]: last byte first, the rest zeroed, nothing else touched. */
  method FillBytes(v: nat, buf: array<Byte>, lo: nat, hi: nat)
    requires lo <= hi <= buf.Length
    requires v < Pow256(hi - lo)
    modifies buf
    ensures buf[lo..hi] == ToBytes(v, hi - lo)
    ensures buf[..lo] == old(buf[..lo]) && buf[hi..] == old(buf[hi..])
  {
    var i, rest: nat := hi, v;
    while i > lo
      invariant lo <= i <= hi
      invariant rest < Pow256(i - lo)
      invariant ToBytes(rest, i - lo) + buf[i..hi] == ToBytes(v, hi - lo)
      invariant buf[..lo] == old(buf[..lo]) && buf[hi..] == old(buf[hi..])
    {
      i := i - 1;
      ghost var done := buf[i + 1..hi];
      buf[i] := rest % 256;
      assert buf[i..hi] == [rest % 256] + done;
      assert ToBytes(rest, i + 1 - lo) + done == ToBytes(rest / 256, i - lo) + ([rest % 256] + done);
      rest := rest / 256;
    }
  }

  // ---- signatures ----

  function CoordinateSize(bitSize: nat): nat { (bitSize + 7) / 8 }

  lemma {:induction false} PowersAgree(n: nat)
    ensures Pow2(8 * n) == Pow256(n)
  {
    if n > 0 {
      PowersAgree(n - 1);
      assert 8 * n == 8 * (n - 1) + 8;
      assert Pow2(8 * n) == 2 * Pow2(8 * n - 1) == 4 * Pow2(8 * n - 2) == 8 * Pow2(8 * n - 3);
      assert Pow2(8 * n - 3) == 2 * Pow2(8 * n - 4) == 4 * Pow2(8 * n - 5) == 8 * Pow2(8 * n - 6);
      assert Pow2(8 * n - 6) == 2 * Pow2(8 * n - 7) == 4 * Pow2(8 * n - 8);
    }
  }

  lemma {:induction false} Pow2Monotone(a: nat, b: nat)
    requires a <= b
    ensures Pow2(a) <= Pow2(b)
    decreases b
  {
    if a < b {
      Pow2Monotone(a, b - 1);
    }
  }

  /** A number below 2^bitSize, as every coordinate is, fits the fixed width. */
  lemma CoordinateFits(v: nat, bitSize: nat)
    requires v < Pow2(bitSize)
    ensures v < Pow256(CoordinateSize(bitSize))
  {
    PowersAgree(CoordinateSize(bitSize));
    Pow2Monotone(bitSize, 8 * CoordinateSize(bitSize));
  }

  /** The width is the least one in bytes. */
  lemma CoordinateSizeIsLeast(bitSize: nat)
    ensures var size := CoordinateSize(bitSize); bitSize <= 8 * size && (size > 0 ==> 8 * (size - 1) < bitSize)
  {
  }

  /** Both numbers fit the fixed width of the curve. */
  predicate Fits(r: nat, s: nat, bitSize: nat) {
    r < Pow256(CoordinateSize(bitSize)) && s < Pow256(CoordinateSize(bitSize))
  }

  /** The wire form of (r, s) on a curve of the given bit size. */
  function Signature(r: nat, s: nat, bitSize: nat): (sig: seq<Byte>)
    requires Fits(r, s, bitSize)
    ensures |sig| == 2 * CoordinateSize(bitSize)
  {
    ToBytes(r, CoordinateSize(bitSize)) + ToBytes(s, CoordinateSize(bitSize))
  }

  method EcSign(r: nat, s: nat, bitSize: nat) returns (sig: array<Byte>)
    requires r < Pow2(bitSize) && s < Pow2(bitSize)
    ensures fresh(sig)
    ensures Fits(r, s, bitSize) && sig[..] == Signature(r, s, bitSize)
  {
    CoordinateFits(r, bitSize);
    CoordinateFits(s, bitSize);
    var size := CoordinateSize(bitSize);
    sig := new Byte[2 * size](_ => 0);
    FillBytes(r, sig, 0, size);
    FillBytes(s, sig, size, 2 * size);
    assert sig[..] == sig[..size] + sig[size..];
    assert sig[0..size] == sig[..size] && sig[size..2 * size] == sig[size..];
  }

  /** ecVerify around the curve's own check. */
  predicate EcVerify(sig: seq<Byte>, bitSize: nat, check: (nat, nat) -> bool) {
    var size := CoordinateSize(bitSize);
    |sig| == 2 * size && check(FromBytes(sig[..size]), FromBytes(sig[size..]))
  }

  /** Verifying the bytes of (r, s) is checking exactly (r, s). */
  lemma SignThenVerify(r: nat, s: nat, bitSize: nat, check: (nat, nat) -> bool)
    requires Fits(r, s, bitSize)
    ensures EcVerify(Signature(r, s, bitSize), bitSize, check) <==> check(r, s)
  {
    var size := CoordinateSize(bitSize);
    var sig := Signature(r, s, bitSize);
    assert sig[..size] == ToBytes(r, size) && sig[size..] == ToBytes(s, size);
    FromToBytes(r, size);
    FromToBytes(s, size);
  }

  /** The first half is r, the second s, each as wide as the other. */
  lemma SignatureHalves(r: nat, s: nat, bitSize: nat)
    requires Fits(r, s, bitSize)
    ensures var size, sig := CoordinateSize(bitSize), Signature(r, s, bitSize);
            |sig| == 2 * size && FromBytes(sig[..size]) == r && FromBytes(sig[size..]) == s
  {
    var size, sig := CoordinateSize(bitSize), Signature(r, s, bitSize);
    assert sig[..size] == ToBytes(r, size) && sig[size..] == ToBytes(s, size);
    FromToBytes(r, size);
    FromToBytes(s, size);
  }

  lemma SignatureInjective(r: nat, s: nat, r': nat, s': nat, bitSize: nat)
    requires Fits(r, s, bitSize) && Fits(r', s', bitSize)
    ensures Signature(r, s, bitSize) == Signature(r', s', bitSize) <==> r == r' && s == s'
  {
    SignThenVerify(r, s, bitSize, (x, y) => x == r && y == s);
    SignThenVerify(r', s', bitSize, (x, y) => x == r && y == s);
  }

  /** A byte string verifies exactly when it is the wire form of a pair that passes the check;
      in particular every other length is rejected. */
  lemma VerifiesIffWireForm(sig: seq<Byte>, bitSize: nat, check: (nat, nat) -> bool)
    ensures EcVerify(sig, bitSize, check) <==>
            exists r: nat, s: nat :: Fits(r, s, bitSize) && check(r, s) && sig == Signature(r, s, bitSize)
  {
    var size := CoordinateSize(bitSize);
    if EcVerify(sig, bitSize, check) {
      var r, s := FromBytes(sig[..size]), FromBytes(sig[size..]);
      ToFromBytes(sig[..size]);
      ToFromBytes(sig[size..]);
      assert sig == sig[..size] + sig[size..];
      assert Fits(r, s, bitSize) && check(r, s) && sig == Signature(r, s, bitSize);
    }
    forall r: nat, s: nat | Fits(r, s, bitSize) && check(r, s) && sig == Signature(r, s, bitSize)
      ensures EcVerify(sig, bitSize, check)
    {
      SignThenVerify(r, s, bitSize, check);
    }
  }
}
