/** The hash-chain engine: repeated application of the hash to a 32-byte
    value, and the same walk applied block by block to a buffer made of
    34 consecutive 32-byte chain elements. */
module HashChain {
  import opened Primitives

  /** `x` hashed `n` times: the element at position `n` of the chain that
      starts at `x`.  The inner loops of GenerateKey, Sign and Verify all
      reassign `h = blake2b.Sum256(h)`, which is one step of this chain. */
  function Iter(hash: Hash, x: seq<byte>, n: nat): (r: seq<byte>)
    requires |x| == BlockSize
    ensures |r| == BlockSize
  {
    if n == 0 then x else hash(Iter(hash, x, n - 1))
  }

  /** Walking `a` steps and then `b` more steps reaches position `a + b`. */
  lemma {:induction false} IterAdd(hash: Hash, x: seq<byte>, a: nat, b: nat)
    requires |x| == BlockSize
    ensures Iter(hash, Iter(hash, x, a), b) == Iter(hash, x, a + b)
  {
    if b > 0 {
      IterAdd(hash, x, a, b - 1);
    }
  }

  /** Block `i` of a buffer of 32-byte blocks: bytes `32i .. 32i+31`. */
  function Block(s: seq<byte>, i: nat): (r: seq<byte>)
    requires BlockSize * i + BlockSize <= |s|
    ensures |r| == BlockSize
  {
    s[BlockSize * i .. BlockSize * i + BlockSize]
  }

  /** `y` is `s` with every block walked along its own chain: block `i` of
      `y` is block `i` of `s` hashed `steps[i]` times. */
  predicate Walked(hash: Hash, y: seq<byte>, s: seq<byte>, steps: seq<nat>)
    requires |s| == BlockSize * |steps|
  {
    |y| == |s| &&
    forall i :: 0 <= i < |steps| ==> Block(y, i) == Iter(hash, Block(s, i), steps[i])
  }

  /** The walked buffer, built block by block as the outer loops of
      GenerateKey, Sign and Verify build it. */
  function Walk(hash: Hash, s: seq<byte>, steps: seq<nat>): (r: seq<byte>)
    requires |s| == BlockSize * |steps|
    ensures |r| == |s|
    decreases |steps|
  {
    if steps == [] then []
    else
      var n := |steps| - 1;
      Walk(hash, s[..BlockSize * n], steps[..n]) + Iter(hash, s[BlockSize * n..], steps[n])
  }

  /** Each block of a walked buffer is its own chain walked its own number of
      steps; no block is affected by another block's walk. */
  lemma {:induction false} WalkBlock(hash: Hash, s: seq<byte>, steps: seq<nat>, i: nat)
    requires |s| == BlockSize * |steps|
    requires i < |steps|
    ensures Block(Walk(hash, s, steps), i) == Iter(hash, Block(s, i), steps[i])
  {
    var n := |steps| - 1;
    var prefix := Walk(hash, s[..BlockSize * n], steps[..n]);
    assert Walk(hash, s, steps) == prefix + Iter(hash, s[BlockSize * n..], steps[n]);
    if i < n {
      var t := s[..BlockSize * n];
      assert BlockSize * i + BlockSize <= |t|;
      WalkBlock(hash, t, steps[..n], i);
      assert Block(t, i) == Block(s, i) by {
        forall k | 0 <= k < BlockSize
          ensures Block(t, i)[k] == Block(s, i)[k]
        {
          assert Block(t, i)[k] == t[BlockSize * i + k] == s[BlockSize * i + k];
        }
      }
      assert Block(Walk(hash, s, steps), i) == Block(prefix, i);
      assert steps[..n][i] == steps[i];
    } else {
      assert |s| == BlockSize * n + BlockSize;
      assert Block(s, i) == s[BlockSize * n..];
    }
  }

  /** `Walk` is a walked buffer, and the only one: a buffer is determined by
      its blocks. */
  lemma WalkIsWalked(hash: Hash, s: seq<byte>, steps: seq<nat>)
    requires |s| == BlockSize * |steps|
    ensures Walked(hash, Walk(hash, s, steps), s, steps)
    ensures forall y :: Walked(hash, y, s, steps) ==> y == Walk(hash, s, steps)
  {
    var w := Walk(hash, s, steps);
    forall i | 0 <= i < |steps|
      ensures Block(w, i) == Iter(hash, Block(s, i), steps[i])
    {
      WalkBlock(hash, s, steps, i);
    }
    forall y | Walked(hash, y, s, steps)
      ensures y == w
    {
      BlocksDetermine(y, w, |steps|);
    }
  }

  /** Two buffers of `n` blocks that agree on every block are equal. */
  lemma BlocksDetermine(a: seq<byte>, b: seq<byte>, n: nat)
    requires |a| == |b| == BlockSize * n
    requires forall i :: 0 <= i < n ==> Block(a, i) == Block(b, i)
    ensures a == b
  {
    forall k | 0 <= k < |a|
      ensures a[k] == b[k]
    {
      var i := k / 32;
      assert 32 * i <= k < 32 * i + 32;
      assert a[k] == Block(a, i)[k - 32 * i] == Block(b, i)[k - 32 * i] == b[k];
    }
  }

  /** Pointwise sum of two step vectors. */
  function AddSteps(a: seq<nat>, b: seq<nat>): (r: seq<nat>)
    requires |a| == |b|
    ensures |r| == |a|
    ensures forall i :: 0 <= i < |r| ==> r[i] == a[i] + b[i]
  {
    seq(|a|, i requires 0 <= i < |a| => a[i] + b[i])
  }

  /** Walking every block `a[i]` steps and then `b[i]` more steps is the same
      as walking every block `a[i] + b[i]` steps. */
  lemma {:induction false} WalkAdd(hash: Hash, s: seq<byte>, a: seq<nat>, b: seq<nat>)
    requires |s| == BlockSize * |a|
    requires |a| == |b|
    ensures Walk(hash, Walk(hash, s, a), b) == Walk(hash, s, AddSteps(a, b))
  {
    if a != [] {
      var n := |a| - 1;
      var head, tail := s[..BlockSize * n], s[BlockSize * n..];
      var w := Walk(hash, s, a);
      assert w == Walk(hash, head, a[..n]) + Iter(hash, tail, a[n]);
      assert w[..BlockSize * n] == Walk(hash, head, a[..n]);
      assert w[BlockSize * n..] == Iter(hash, tail, a[n]);
      WalkAdd(hash, head, a[..n], b[..n]);
      IterAdd(hash, tail, a[n], b[n]);
      assert AddSteps(a, b)[..n] == AddSteps(a[..n], b[..n]);
    }
  }

  /** One outer-loop iteration over a buffer of chain elements: if blocks
      before `i` are walked and the rest are untouched, overwriting block `i`
      with its walked element keeps that shape for `i + 1`. */
  lemma WalkStep(hash: Hash, s: seq<byte>, steps: seq<nat>, i: nat, y: seq<byte>, h: seq<byte>)
    requires |s| == BlockSize * |steps|
    requires i < |steps|
    requires |y| == |s|
    requires y[..BlockSize * i] == Walk(hash, s[..BlockSize * i], steps[..i])
    requires y[BlockSize * i..] == s[BlockSize * i..]
    requires h == Iter(hash, Block(s, i), steps[i])
    ensures Overwrite(y, BlockSize * i, h)[..BlockSize * (i + 1)]
            == Walk(hash, s[..BlockSize * (i + 1)], steps[..i + 1])
    ensures Overwrite(y, BlockSize * i, h)[BlockSize * (i + 1)..] == s[BlockSize * (i + 1)..]
  {
    var t := s[..BlockSize * (i + 1)];
    assert t[..BlockSize * i] == s[..BlockSize * i];
    assert t[BlockSize * i..] == Block(s, i);
    assert steps[..i + 1][..i] == steps[..i];
    assert Walk(hash, t, steps[..i + 1])
           == Walk(hash, s[..BlockSize * i], steps[..i]) + Iter(hash, Block(s, i), steps[i]);
  }
}
