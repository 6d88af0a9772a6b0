/** Fixed-size byte types of the Winternitz package and the two primitives it
    consumes as black boxes: the Blake2b-256 hash and the ChaCha20 keystream
    expander.  Both primitives are parameters of every operation, so nothing
    is assumed about them beyond their result sizes. */
module Primitives {

  /** An unsigned 8-bit value, Go's `byte`. */
  type byte = b: int | 0 <= b < 256

  /** A 32-byte value: a Blake2b-256 digest, a chain element, a key. */
  type Digest = s: seq<byte> | |s| == 32 witness seq(32, k => 0)

  /** `SecretKey` and `PublicKey` are both `[32]byte` in the Go code. */
  type SecretKey = Digest
  type PublicKey = Digest

  /** Number of hash chains: 32 digest bytes plus 2 checksum bytes. */
  const Chains: nat := 34
  /** Bytes of one chain element. */
  const BlockSize: nat := 32
  /** Length of the expanded seed material and of a `Signature`. */
  const SignatureSize: nat := 1088

  /** The 1088 bytes read from the keystream expander. */
  type Material = s: seq<byte> | |s| == 1088 witness seq(1088, k => 0)

  /** Blake2b-256: any total function from a byte string to 32 bytes. */
  type Hash = seq<byte> -> Digest

  /** `chacha20prng.New(sk[:], 0).Read(y[:])` with a 1088-byte `y`: a
      deterministic function of the seed alone (the nonce is the constant 0). */
  type Expander = SecretKey -> Material

  datatype Option<+T> = None | Some(value: T)

  /** `s` with the bytes from `off` on replaced by `h`. */
  function Overwrite(s: seq<byte>, off: nat, h: seq<byte>): (r: seq<byte>)
    requires off + |h| <= |s|
    ensures |r| == |s|
    ensures r[..off] == s[..off] && r[off + |h|..] == s[off + |h|..]
    ensures r[off..off + |h|] == h
  {
    s[..off] + h + s[off + |h|..]
  }

  /** Go's `copy(dst[off:off+len(src)], src[:])` on a byte array. */
  method Copy(dst: array<byte>, off: nat, src: seq<byte>)
    requires off + |src| <= dst.Length
    modifies dst
    ensures dst[..] == Overwrite(old(dst[..]), off, src)
  {
    forall k | 0 <= k < |src| {
      dst[off + k] := src[k];
    }
    assert dst[..] == Overwrite(old(dst[..]), off, src);
  }
}
