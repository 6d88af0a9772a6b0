/** The message encoder `checksummedMessageHash`: the 32-byte message hash
    followed by a 16-bit little-endian checksum of the distances of its bytes
    from the chain top. */
module MessageEncoder {
  import opened Primitives

  /** Go's `uint16`. */
  type uint16 = x: int | 0 <= x < 0x1_0000

  /** The checksum as a mathematical sum: `Σ (255 − d[k])`. */
  function Checksum(d: seq<byte>): (c: nat)
    ensures c <= 255 * |d|
  {
    if d == [] then 0 else Checksum(d[..|d| - 1]) + (255 - d[|d| - 1])
  }

  /** The checksum as the Go code accumulates it: `cksum += 255 - uint16(b)`
      in a `uint16`, which wraps modulo 2^16. */
  function WrappedChecksum(d: seq<byte>): (c: uint16)
    ensures c == Checksum(d) % 0x1_0000
  {
    if d == [] then 0 else (WrappedChecksum(d[..|d| - 1]) + (255 - d[|d| - 1])) % 0x1_0000
  }

  /** The `uint16` accumulator never wraps for inputs up to 257 bytes (so in
      particular for a 32-byte digest): it equals the mathematical sum, since
      that sum is at most 255 * 257 = 65535. */
  lemma ChecksumNeverWraps(d: seq<byte>)
    requires |d| <= 257
    ensures WrappedChecksum(d) == Checksum(d)
  {
  }

  /** Reading two bytes as a little-endian `uint16`. */
  function Uint16LE(b: seq<byte>): (x: uint16)
    requires |b| == 2
  {
    b[0] as int + 0x100 * b[1] as int
  }

  /** `binary.LittleEndian.PutUint16`: low byte first. */
  function PutUint16LE(x: uint16): (r: seq<byte>)
    ensures |r| == 2
    ensures Uint16LE(r) == x
  {
    [x % 0x100, x / 0x100]
  }

  /** The 34-byte vector of chain positions for a message with digest `d`. */
  function Encode(d: Digest): (v: seq<byte>)
    ensures |v| == Chains
    ensures v[..BlockSize] == d
    ensures Uint16LE(v[BlockSize..]) == Checksum(d)
    ensures v[33] <= 31
  {
    d + PutUint16LE(Checksum(d))
  }

  /** `checksummedMessageHash(m)`: copies the hash into bytes 0..31, sums the
      checksum in a `uint16` and stores it little-endian in bytes 32 and 33. */
  method ChecksummedMessageHash(hash: Hash, m: seq<byte>) returns (v: seq<byte>)
    ensures v == Encode(hash(m))
    ensures |v| == Chains && v[..BlockSize] == hash(m)
    ensures v[32] == Checksum(hash(m)) % 0x100 && v[33] == Checksum(hash(m)) / 0x100
  {
    var messageHashChecksum := new byte[Chains];
    var messageHash := hash(m);
    forall k | 0 <= k < BlockSize {
      messageHashChecksum[k] := messageHash[k];
    }
    var cksum: uint16 := 0;
    for k := 0 to BlockSize
      invariant cksum == WrappedChecksum(messageHash[..k])
    {
      assert messageHash[..k + 1][..k] == messageHash[..k];
      cksum := (cksum + (255 - messageHash[k])) % 0x1_0000;
    }
    assert messageHash[..BlockSize] == messageHash;
    ChecksumNeverWraps(messageHash);
    var le := PutUint16LE(cksum);
    messageHashChecksum[32], messageHashChecksum[33] := le[0], le[1];
    v := messageHashChecksum[..];
    assert v == messageHash + le;
  }

  /** Componentwise order on vectors of equal length. */
  predicate Dominates(hi: seq<byte>, lo: seq<byte>)
  {
    |hi| == |lo| && forall k :: 0 <= k < |lo| ==> lo[k] <= hi[k]
  }

  /** The checksum is anti-monotone: raising digest bytes lowers the
      checksum, strictly when any byte changes. */
  lemma {:induction false} ChecksumAntiMonotone(d: seq<byte>, d': seq<byte>)
    requires Dominates(d', d)
    ensures Checksum(d') <= Checksum(d)
    ensures d' != d ==> Checksum(d') < Checksum(d)
  {
    if d != [] {
      var n := |d| - 1;
      ChecksumAntiMonotone(d[..n], d'[..n]);
      assert d == d[..n] + [d[n]];
      assert d' == d'[..n] + [d'[n]];
    }
  }

  /** No encoded vector dominates the encoding of a different digest: a
      signature reveals chain elements at positions `Encode(d)`, and only
      positions at or above them can be computed from it by hashing, so the
      checksum rules out every other digest. */
  lemma NoDominatingEncoding(d: Digest, d': Digest)
    requires Dominates(Encode(d'), Encode(d))
    ensures d' == d
  {
    var v, v' := Encode(d), Encode(d');
    assert Dominates(d', d) by {
      forall k | 0 <= k < BlockSize
        ensures d[k] <= d'[k]
      {
        assert v[k] == d[k] && v'[k] == d'[k];
      }
    }
    ChecksumAntiMonotone(d, d');
    assert v[32] <= v'[32] && v[33] <= v'[33];
    assert Checksum(d) <= Checksum(d');
  }
}
