/** Key generation, signing and verification of the Winternitz one-time
    signature with w = 256.  Each operation works on a local 1088-byte buffer
    `y` of 34 chain elements, overwriting element `i` with the element `n`
    steps further along its hash chain. */
module Winternitz {
  import opened Primitives
  import opened HashChain
  import opened MessageEncoder

  /** The error an `io.Reader` returns; its content is opaque here. */
  datatype ReadError = ReadError(reason: string)

  /** What `rand.Read(sk[:])` did: whatever bytes it left in `sk` (the Go
      code ignores the count, so after a short read these are unspecified)
      and its error. */
  datatype ReadOutcome = ReadOutcome(filled: SecretKey, err: Option<ReadError>)

  /** Number of hashes from a chain seed to its chain top, as the key
      generation loop runs them (`i = 0 .. 255`). */
  const ChainLength: nat := 256

  /** Steps per block for key generation: every chain walked to its top. */
  function FullChain(): (r: seq<nat>)
    ensures |r| == Chains
    ensures forall i :: 0 <= i < |r| ==> r[i] == ChainLength
  {
    seq(Chains, i => ChainLength)
  }

  /** Steps per block for signing: block `i` walked `v[i]` steps. */
  function Positions(v: seq<byte>): (r: seq<nat>)
    ensures |r| == |v|
    ensures forall i :: 0 <= i < |v| ==> r[i] == v[i]
  {
    seq(|v|, i requires 0 <= i < |v| => v[i] as nat)
  }

  /** Steps per block for verification: the rest of each chain, which is at
      least one hash for every byte value. */
  function Remaining(v: seq<byte>): (r: seq<nat>)
    ensures |r| == |v|
    ensures forall i :: 0 <= i < |v| ==> 1 <= r[i] <= ChainLength && v[i] + r[i] == ChainLength
  {
    seq(|v|, i requires 0 <= i < |v| => ChainLength - v[i])
  }

  /** The 1088-byte list of chain tops of a secret key: block `i` is chain
      seed `i` (bytes `32i .. 32i+31` of the expanded seed) hashed 256 times. */
  function ChainTops(hash: Hash, expand: Expander, sk: SecretKey): (y: seq<byte>)
    ensures |y| == SignatureSize
    ensures forall i :: 0 <= i < Chains ==>
              Block(y, i) == Iter(hash, Block(expand(sk), i), ChainLength)
  {
    WalkIsWalked(hash, expand(sk), FullChain());
    Walk(hash, expand(sk), FullChain())
  }

  /** The public key of `sk`: the fingerprint of the buffer of its chain tops. */
  function PublicKeyOf(hash: Hash, expand: Expander, sk: SecretKey): (pk: PublicKey)
    ensures exists y :: Walked(hash, y, expand(sk), FullChain()) && pk == hash(y)
  {
    WalkIsWalked(hash, expand(sk), FullChain());
    hash(ChainTops(hash, expand, sk))
  }

  /** The signature of `message` under `sk`: chain `i` walked to position
      `v[i]` of the encoded message, so a zero position reveals the chain
      seed itself. */
  function SignatureOf(hash: Hash, expand: Expander, sk: SecretKey, message: seq<byte>): (sig: seq<byte>)
    ensures |sig| == SignatureSize
    ensures forall i :: 0 <= i < Chains ==>
              Block(sig, i) == Iter(hash, Block(expand(sk), i), Encode(hash(message))[i])
    ensures forall i :: 0 <= i < Chains && Encode(hash(message))[i] == 0 ==>
              Block(sig, i) == Block(expand(sk), i)
  {
    WalkIsWalked(hash, expand(sk), Positions(Encode(hash(message))));
    Walk(hash, expand(sk), Positions(Encode(hash(message))))
  }

  /** Whether completing every chain of `sig` to its top reproduces `pk`. */
  predicate Verifies(hash: Hash, pk: PublicKey, message: seq<byte>, sig: seq<byte>)
    requires |sig| == SignatureSize
    ensures Verifies(hash, pk, message, sig) <==>
              exists y :: Walked(hash, y, sig, Remaining(Encode(hash(message)))) && hash(y) == pk
  {
    WalkIsWalked(hash, sig, Remaining(Encode(hash(message))));
    hash(Walk(hash, sig, Remaining(Encode(hash(message))))) == pk
  }

  /** Completing a signature's chains reaches exactly the chain tops of the
      key that signed it. */
  lemma CompletedSignatureIsChainTops(hash: Hash, expand: Expander, sk: SecretKey, message: seq<byte>)
    ensures Walk(hash, SignatureOf(hash, expand, sk, message), Remaining(Encode(hash(message))))
            == ChainTops(hash, expand, sk)
  {
    var v := Encode(hash(message));
    WalkAdd(hash, expand(sk), Positions(v), Remaining(v));
    assert AddSteps(Positions(v), Remaining(v)) == FullChain();
  }

  /** Every message, the empty one included, verifies under the public key of
      the secret key that signed it. */
  lemma SignThenVerify(hash: Hash, expand: Expander, sk: SecretKey, message: seq<byte>)
    ensures Verifies(hash, PublicKeyOf(hash, expand, sk), message, SignatureOf(hash, expand, sk, message))
  {
    CompletedSignatureIsChainTops(hash, expand, sk, message);
  }

  /** `GenerateKey(rand)`: reads the seed; on a read error returns it with no
      public key; otherwise hashes every chain seed 256 times in place and
      fingerprints the resulting 1088 bytes. */
  method GenerateKey(hash: Hash, expand: Expander, read: ReadOutcome)
    returns (pk: Option<PublicKey>, sk: SecretKey, err: Option<ReadError>)
    ensures sk == read.filled && err == read.err
    ensures err.Some? ==> pk == None
    ensures err.None? ==> pk == Some(PublicKeyOf(hash, expand, sk))
  {
    sk, err := read.filled, read.err;
    if err.Some? {
      pk := None;
      return;
    }
    var material := expand(sk);
    var y := new byte[SignatureSize](k requires 0 <= k < SignatureSize => material[k]);
    var off, blk := 0, 0;
    while off < SignatureSize
      invariant 0 <= blk <= Chains && off == BlockSize * blk
      invariant y[..off] == Walk(hash, material[..off], FullChain()[..blk])
      invariant y[off..] == material[off..]
    {
      var h := y[off..off + BlockSize];
      assert h == Block(material, blk);
      for i := 0 to ChainLength
        invariant h == Iter(hash, Block(material, blk), i)
      {
        h := hash(h);
      }
      WalkStep(hash, material, FullChain(), blk, y[..], h);
      Copy(y, off, h);
      off, blk := off + BlockSize, blk + 1;
    }
    assert y[..] == y[..off];
    assert material[..off] == material && FullChain()[..blk] == FullChain();
    pk := Some(hash(y[..]));
  }

  /** `Sign(sk, message)`: re-expands the seed and hashes chain `i` forward
      `v[i]` times with a `byte` counter, in place; the buffer is the
      signature. */
  method Sign(hash: Hash, expand: Expander, sk: SecretKey, message: seq<byte>) returns (sig: array<byte>)
    ensures fresh(sig)
    ensures sig.Length == SignatureSize
    ensures sig[..] == SignatureOf(hash, expand, sk, message)
  {
    var messageHash := ChecksummedMessageHash(hash, message);
    var material := expand(sk);
    var y := new byte[SignatureSize](k requires 0 <= k < SignatureSize => material[k]);
    ghost var steps := Positions(messageHash);
    for i := 0 to Chains
      invariant y[..BlockSize * i] == Walk(hash, material[..BlockSize * i], steps[..i])
      invariant y[BlockSize * i..] == material[BlockSize * i..]
    {
      var b := messageHash[i];
      var h := y[BlockSize * i..BlockSize * i + BlockSize];
      assert h == Block(material, i);
      var j: byte := 0;
      while j < b
        invariant j <= b
        invariant h == Iter(hash, Block(material, i), j)
      {
        h := hash(h);
        j := j + 1;
      }
      WalkStep(hash, material, steps, i, y[..], h);
      Copy(y, BlockSize * i, h);
    }
    assert y[..] == y[..BlockSize * Chains];
    assert material[..BlockSize * Chains] == material && steps[..Chains] == steps;
    sig := y;
  }

  /** `Verify(pk, message, sig)`: on a copy of `*sig`, completes every chain
      to its top, then compares the fingerprint of the result with `pk`. The
      caller's signature is not modified. */
  method Verify(hash: Hash, pk: PublicKey, message: seq<byte>, sig: array<byte>) returns (ok: bool)
    requires sig.Length == SignatureSize
    ensures ok == Verifies(hash, pk, message, sig[..])
  {
    var messageHash := ChecksummedMessageHash(hash, message);
    var y := new byte[SignatureSize];
    forall k | 0 <= k < SignatureSize {
      y[k] := sig[k];
    }
    assert y[..] == sig[..];
    CompleteChains(hash, messageHash, y);
    var fingerprint := hash(y[..]);
    ok := pk == fingerprint;
  }

  /** The loop of `Verify` over its copy `y`: hashes chain `i`
      `256 - v[i]` more times (`j = 255 - v[i] .. 0`), in place. */
  method CompleteChains(hash: Hash, messageHash: seq<byte>, y: array<byte>)
    requires |messageHash| == Chains && y.Length == SignatureSize
    modifies y
    ensures y[..] == Walk(hash, old(y[..]), Remaining(messageHash))
  {
    ghost var s := y[..];
    ghost var steps := Remaining(messageHash);
    for i := 0 to Chains
      invariant y[..BlockSize * i] == Walk(hash, s[..BlockSize * i], steps[..i])
      invariant y[BlockSize * i..] == s[BlockSize * i..]
    {
      var b := messageHash[i];
      var h := y[BlockSize * i..BlockSize * i + BlockSize];
      assert h == Block(s, i);
      var j := 255 - b as int;
      while j >= 0
        invariant -1 <= j <= 255 - b
        invariant h == Iter(hash, Block(s, i), 255 - b - j)
      {
        h := hash(h);
        j := j - 1;
      }
      WalkStep(hash, s, steps, i, y[..], h);
      Copy(y, BlockSize * i, h);
    }
    assert y[..] == y[..BlockSize * Chains];
    assert s[..BlockSize * Chains] == s && steps[..Chains] == steps;
  }

  /** The round trip of the package test: generate a key from a reader that
      does not fail, sign a message with it and verify the signature under
      the generated public key. */
  method GenerateSignVerify(hash: Hash, expand: Expander, read: ReadOutcome, message: seq<byte>)
    returns (ok: bool)
    requires read.err == None
    ensures ok
  {
    var pk, sk, err := GenerateKey(hash, expand, read);
    var sig := Sign(hash, expand, sk, message);
    ok := Verify(hash, pk.value, message, sig);
    SignThenVerify(hash, expand, sk, message);
  }
}
