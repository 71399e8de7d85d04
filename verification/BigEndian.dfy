/**
 * Fixed-width big-endian layouts: the signature octets exchanged with a PKCS#11 token
 * (bccsp/pkcs11/pkcs11.go) and the padded EC private key of bccsp/utils/keys.go.
 */
module BigEndian {
  import opened Wrappers

  /** A slice expression or copy with a negative bound. */
  datatype Panic = SliceOutOfRange

  function Pow256(k: nat): (r: nat)
    ensures r > 0
  {
    if k == 0 then 1 else 256 * Pow256(k - 1)
  }

  function Pow2(k: nat): (r: nat)
    ensures r > 0
  {
    if k == 0 then 1 else 2 * Pow2(k - 1)
  }

  /** big.Int.SetBytes: the number a big-endian byte string denotes. */
  function SetBytes(bs: Bytes): (x: nat)
  {
    if bs == [] then 0 else 256 * SetBytes(bs[..|bs| - 1]) + bs[|bs| - 1]
  }

  /** big.Int.Bytes: the shortest big-endian byte string for a number. */
  function ToBytes(x: nat): (bs: Bytes)
  {
    if x == 0 then [] else ToBytes(x / 256) + [x % 256]
  }

  lemma {:induction false} ToBytesDecodes(x: nat)
    ensures SetBytes(ToBytes(x)) == x
  {
    if x > 0 {
      ToBytesDecodes(x / 256);
      assert ToBytes(x)[..|ToBytes(x)| - 1] == ToBytes(x / 256);
    }
  }

  /** A number fits in k bytes exactly when it is below 256^k. */
  lemma {:induction false} ToBytesWidth(x: nat, k: nat)
    ensures |ToBytes(x)| <= k <==> x < Pow256(k)
  {
    if x > 0 && k > 0 {
      ToBytesWidth(x / 256, k - 1);
    }
  }

  lemma {:induction false} SetBytesBound(bs: Bytes)
    ensures SetBytes(bs) < Pow256(|bs|)
  {
    if bs != [] { SetBytesBound(bs[..|bs| - 1]); }
  }

  function Zeros(n: nat): (z: Bytes)
    ensures |z| == n
  {
    seq(n, _ => 0)
  }

  lemma {:induction false} LeadingZeros(n: nat, bs: Bytes)
    ensures SetBytes(Zeros(n) + bs) == SetBytes(bs)
    decreases |bs|, n
  {
    if bs == [] {
      assert Zeros(n) + bs == Zeros(n);
      if n > 0 {
        assert Zeros(n)[..n - 1] == Zeros(n - 1) + [];
        LeadingZeros(n - 1, []);
      }
    } else {
      var padded := Zeros(n) + bs;
      assert padded[..|padded| - 1] == Zeros(n) + bs[..|bs| - 1];
      LeadingZeros(n, bs[..|bs| - 1]);
    }
  }

  /** The bytes of x, zero-padded on the left to the given width. */
  function Padded(x: nat, width: nat): (bs: Bytes)
    requires x < Pow256(width)
  {
    ToBytesWidth(x, width);
    Zeros(width - |ToBytes(x)|) + ToBytes(x)
  }

  lemma PaddedDecodes(x: nat, width: nat)
    requires x < Pow256(width)
    ensures |Padded(x, width)| == width && SetBytes(Padded(x, width)) == x
  {
    ToBytesWidth(x, width);
    ToBytesDecodes(x);
    LeadingZeros(width - |ToBytes(x)|, ToBytes(x));
  }

  // ------------------------------------------------------ signature octets

  /** signP11ECDSA: the first half of the token's signature is R, the second half S. */
  function SplitSignature(sig: Bytes): (nat, nat) {
    (SetBytes(sig[..|sig| / 2]), SetBytes(sig[|sig| / 2..]))
  }

  function Overlay(buf: Bytes, at: nat, src: Bytes): (r: Bytes)
    requires at + |src| <= |buf|
    ensures |r| == |buf|
  {
    buf[..at] + src + buf[at + |src|..]
  }

  /** The signature verifyP11ECDSA lays out, or the panic it runs into. */
  function JoinedSignature(r: nat, s: nat, byteSize: nat): Result<Bytes, Panic> {
    var rb, sb := ToBytes(r), ToBytes(s);
    if |rb| > byteSize || |sb| > 2 * byteSize then Failure(SliceOutOfRange)
    else Success(Overlay(Overlay(Zeros(2 * byteSize), byteSize - |rb|, rb), 2 * byteSize - |sb|, sb))
  }

  /** copy(buf[at:], src). */
  method Copy(buf: array<byte>, at: nat, src: Bytes)
    requires at + |src| <= buf.Length
    modifies buf
    ensures buf[..] == Overlay(old(buf[..]), at, src)
  {
    for k := 0 to |src|
      invariant forall i :: 0 <= i < buf.Length ==>
                  buf[i] == if at <= i < at + k then src[i - at] else old(buf[i])
    {
      buf[at + k] := src[k];
    }
  }

  method JoinSignature(r: nat, s: nat, byteSize: nat) returns (res: Result<Bytes, Panic>)
    ensures res == JoinedSignature(r, s, byteSize)
  {
    var rb, sb := ToBytes(r), ToBytes(s);
    var sig := new byte[2 * byteSize](_ => 0);
    assert sig[..] == Zeros(2 * byteSize);
    if byteSize - |rb| < 0 { return Failure(SliceOutOfRange); }
    Copy(sig, byteSize - |rb|, rb);
    if 2 * byteSize - |sb| < 0 { return Failure(SliceOutOfRange); }
    Copy(sig, 2 * byteSize - |sb|, sb);
    res := Success(sig[..]);
  }

  lemma JoinFits(r: nat, s: nat, byteSize: nat)
    requires r < Pow256(byteSize) && s < Pow256(byteSize)
    ensures JoinedSignature(r, s, byteSize) == Success(Padded(r, byteSize) + Padded(s, byteSize))
  {
    ToBytesWidth(r, byteSize);
    ToBytesWidth(s, byteSize);
    var rb, sb := ToBytes(r), ToBytes(s);
    var one := Overlay(Zeros(2 * byteSize), byteSize - |rb|, rb);
    assert one[..byteSize] == Padded(r, byteSize);
    assert one[byteSize..] == Zeros(byteSize);
    var two := Overlay(one, 2 * byteSize - |sb|, sb);
    assert two[..byteSize] == one[..byteSize];
    assert two[byteSize..] == Padded(s, byteSize);
    assert two == two[..byteSize] + two[byteSize..];
  }

  /** The pair survives the trip through the token's signature layout. */
  predicate RoundTrips(r: nat, s: nat, byteSize: nat) {
    var joined := JoinedSignature(r, s, byteSize);
    joined.Success? && SplitSignature(joined.value) == (r, s)
  }

  /**
   * Splitting undoes joining exactly when both numbers fit in their half.  A wider R panics; a
   * wider S panics or is truncated over the half of R.
   */
  lemma JoinSplitIff(r: nat, s: nat, byteSize: nat)
    ensures RoundTrips(r, s, byteSize) <==> r < Pow256(byteSize) && s < Pow256(byteSize)
  {
    var joined := JoinedSignature(r, s, byteSize);
    if r < Pow256(byteSize) && s < Pow256(byteSize) {
      JoinFits(r, s, byteSize);
      SplitPadded(r, s, byteSize);
    } else if joined.Success? {
      HalvesBound(joined.value, byteSize);
    }
  }

  lemma SplitPadded(r: nat, s: nat, byteSize: nat)
    requires r < Pow256(byteSize) && s < Pow256(byteSize)
    ensures SplitSignature(Padded(r, byteSize) + Padded(s, byteSize)) == (r, s)
  {
    PaddedDecodes(r, byteSize);
    PaddedDecodes(s, byteSize);
    var sig := Padded(r, byteSize) + Padded(s, byteSize);
    assert sig[..byteSize] == Padded(r, byteSize) && sig[byteSize..] == Padded(s, byteSize);
  }

  lemma HalvesBound(sig: Bytes, byteSize: nat)
    requires |sig| == 2 * byteSize
    ensures SplitSignature(sig).0 < Pow256(byteSize) && SplitSignature(sig).1 < Pow256(byteSize)
  {
    SetBytesBound(sig[..byteSize]);
    SetBytesBound(sig[byteSize..]);
  }

  lemma {:induction false} Pow256IsPow2(k: nat)
    ensures Pow256(k) == Pow2(8 * k)
  {
    if k > 0 {
      Pow256IsPow2(k - 1);
      Pow2Step8(8 * (k - 1));
    }
  }

  lemma Pow2Step8(k: nat)
    ensures Pow2(k + 8) == 256 * Pow2(k)
  {
    assert Pow2(k + 4) == 16 * Pow2(k) by { assert Pow2(k + 2) == 4 * Pow2(k); }
    assert Pow2(k + 8) == 16 * Pow2(k + 4) by { assert Pow2(k + 6) == 4 * Pow2(k + 4); }
  }

  lemma {:induction false} Pow2Monotone(a: nat, b: nat)
    requires a <= b
    ensures Pow2(a) <= Pow2(b)
    decreases b - a
  {
    if a < b { Pow2Monotone(a, b - 1); }
  }

  /**
   * With halves of bitSize/8 bytes, every pair below the group order n survives the trip through
   * the token's layout exactly when n <= 256^(bitSize/8).
   */
  lemma LayoutWideEnoughIff(n: nat, bitSize: nat)
    requires n > 0
    ensures (forall r: nat, s: nat :: r < n && s < n ==> RoundTrips(r, s, bitSize / 8)) <==> n <= Pow256(bitSize / 8)
  {
    forall r: nat, s: nat ensures RoundTrips(r, s, bitSize / 8) <==> r < Pow256(bitSize / 8) && s < Pow256(bitSize / 8) {
      JoinSplitIff(r, s, bitSize / 8);
    }
    assert RoundTrips(n - 1, 0, bitSize / 8) ==> n - 1 < Pow256(bitSize / 8);
  }

  /** A bit size that is a multiple of 8 is wide enough for any order below 2^bitSize. */
  lemma WholeByteCurves(n: nat, bitSize: nat)
    requires bitSize % 8 == 0 && n <= Pow2(bitSize)
    ensures n <= Pow256(bitSize / 8)
  {
    Pow256IsPow2(bitSize / 8);
  }

  /** A bit size that is no multiple of 8 is too narrow for every order of that many bits. */
  lemma PartialByteCurves(n: nat, bitSize: nat)
    requires bitSize % 8 != 0 && Pow2(bitSize - 1) < n
    ensures !RoundTrips(n - 1, 0, bitSize / 8)
  {
    Pow256IsPow2(bitSize / 8);
    Pow2Monotone(8 * (bitSize / 8), bitSize - 1);
    JoinSplitIff(n - 1, 0, bitSize / 8);
  }

  /** In particular the order of P-521, which has 521 bits. */
  lemma P521TooNarrow(n: nat, bitSize: nat)
    requires bitSize == 521 && Pow2(bitSize - 1) < n <= Pow2(bitSize)
    ensures bitSize / 8 == 65 && !RoundTrips(n - 1, 0, 65)
  {
    PartialByteCurves(n, bitSize);
  }

  // --------------------------------------------------- padded private keys

  function BitLen(n: nat): (k: nat) {
    if n == 0 then 0 else 1 + BitLen(n / 2)
  }

  lemma {:induction false} BitLenBounds(n: nat)
    ensures n < Pow2(BitLen(n))
    ensures n > 0 ==> Pow2(BitLen(n) - 1) <= n
  {
    if n > 1 { BitLenBounds(n / 2); }
  }

  function KeyWidth(n: nat): nat {
    (BitLen(n) + 7) / 8
  }

  /** PrivateKeyToPEM: D copied into the tail of a zeroed buffer as wide as the order. */
  method PadPrivateKey(d: nat, n: nat) returns (res: Result<Bytes, Panic>)
    ensures d < Pow256(KeyWidth(n)) <==> res.Success?
    ensures res.Success? ==> res.value == Padded(d, KeyWidth(n))
  {
    var raw := ToBytes(d);
    var padded := new byte[(BitLen(n) + 7) / 8](_ => 0);
    assert padded[..] == Zeros(KeyWidth(n));
    ToBytesWidth(d, KeyWidth(n));
    if padded.Length - |raw| < 0 { return Failure(SliceOutOfRange); }
    Copy(padded, padded.Length - |raw|, raw);
    res := Success(padded[..]);
  }

  /** Every key below the order fits: no panic, ceil(bitlen/8) bytes, and decoding gives D back. */
  lemma PrivateKeyRoundTrip(d: nat, n: nat)
    requires d < n
    ensures d < Pow256(KeyWidth(n))
    ensures |Padded(d, KeyWidth(n))| == KeyWidth(n)
    ensures SetBytes(Padded(d, KeyWidth(n))) == d
  {
    BitLenBounds(n);
    Pow2Monotone(BitLen(n), 8 * KeyWidth(n));
    Pow256IsPow2(KeyWidth(n));
    PaddedDecodes(d, KeyWidth(n));
  }

  /** The buffer has exactly the width of the order itself. */
  lemma KeyWidthIsOrderWidth(n: nat)
    requires n > 0
    ensures |ToBytes(n)| == KeyWidth(n)
  {
    var w := KeyWidth(n);
    BitLenBounds(n);
    Pow2Monotone(8 * (w - 1), BitLen(n) - 1);
    Pow2Monotone(BitLen(n), 8 * w);
    Pow256IsPow2(w - 1);
    Pow256IsPow2(w);
    ToBytesWidth(n, w - 1);
    ToBytesWidth(n, w);
  }
}
