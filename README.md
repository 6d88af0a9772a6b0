# Winternitz one-time signature (w = 256) in Dafny

This project models `signature.go` of the Go package `winternitz`: a
Winternitz one-time signature built from Blake2b-256 and a ChaCha20
keystream expander. A 32-byte secret seed expands into 34 chain seeds of
32 bytes each. The public key is the fingerprint of the 34 chain tops. A
signature reveals chain `i` at the position given by byte `i` of the
checksummed message hash. Verification walks each revealed element up to
its chain top and compares the fingerprint with the public key.

Modules:

- `Primitives` (`primitives.dfy`): the fixed-size byte types (`SecretKey`,
  `PublicKey`, 1088-byte material) and Go's `copy` into a byte array. The
  hash and the expander are function-typed parameters (`Hash`, `Expander`),
  so every result holds for every choice of them.
- `HashChain` (`hash_chain.dfy`): `Iter(hash, x, n)`, the element `n` hashes
  along the chain from `x`, and `Walk`, which applies `Iter` to every
  32-byte block of a buffer with its own step count.
- `MessageEncoder` (`message_encoder.dfy`): `checksummedMessageHash`, the
  mathematical checksum, the `uint16` accumulator the code runs, and the
  anti-monotonicity argument behind the checksum.
- `Winternitz` (`winternitz.dfy`): `GenerateKey`, `Sign` and `Verify` as
  methods over a local 1088-byte array updated in place. Their contracts
  tie them to the specification functions `ChainTops`, `PublicKeyOf`,
  `SignatureOf` and `Verifies`. The lemma `SignThenVerify` is the round
  trip.

Iteration counts follow the code, not its comments. The comments at
`signature.go:29` and `signature.go:69` say each chain seed is hashed 255
times. The loop at `signature.go:77` runs 256 times. The verify loop at
`signature.go:149` runs `256 - b` times and `Sign` runs `b` times, so the
three pieces agree on a chain top of `Iter(seed, 256)`. The model uses 256
(`Winternitz.ChainLength`).

## Model

| member | source | states |
|---|---|---|
| `HashChain.Iter` | signature.go:77-79 | The `h = blake2b.Sum256(h)` loop run `n` times; the same loop appears at lines 130-132 and 149-151. Its contract states only that a 32-byte value stays 32 bytes. Chain facts are stated by `IterAdd` and the methods' loop invariants. |
| `HashChain.IterAdd` | signature.go:130-151 | Hashing `a` times and then `b` more times equals hashing `a + b` times. This is what lets verification finish the chains that signing started. |
| `HashChain.Walk` | signature.go:74-81 | The buffer the outer loop builds block by block; the same loop shape appears at lines 126-134 and 145-153. Its contract states only that the buffer keeps its length. `WalkBlock` and `WalkIsWalked` state what each block holds. |
| `HashChain.WalkBlock` | signature.go:74-81 | Block `i` of a walked buffer is block `i` of the input hashed `steps[i]` times. Other blocks' walks do not affect it. |
| `HashChain.WalkIsWalked` | signature.go:74-81 | `Walk` has every block walked by its own count, and it is the only buffer of that length that does. So the block-wise description determines the buffer. |
| `HashChain.WalkAdd` | signature.go:126-153 | Walking all blocks by `a` and then by `b` equals walking them by `a + b` pointwise. |
| `HashChain.WalkStep` | signature.go:74-81 | One outer-loop iteration extends the walked prefix by one block. Every byte after that block keeps its expanded value. |
| `Primitives.Overwrite` | signature.go:80 | Overwriting bytes `off ..` with `h` leaves the bytes before and after unchanged and puts `h` in between. |
| `Primitives.Copy` | signature.go:80 | Go's `copy` into the array sets the array to the overwritten sequence and changes nothing else. |
| `MessageEncoder.Checksum` | signature.go:107-110 | The mathematical checksum `Σ (255 − d[k])` is at most `255·|d|`, so at most 8160 for a digest. |
| `MessageEncoder.WrappedChecksum` | signature.go:107-110 | The accumulator as the code runs it, `cksum += 255 - uint16(b)` in a `uint16`, equals the mathematical checksum modulo 2^16. |
| `MessageEncoder.ChecksumNeverWraps` | signature.go:107-110 | The wrapping accumulator equals the mathematical sum for every input up to 257 bytes. So it never wraps for a 32-byte digest. |
| `MessageEncoder.PutUint16LE` | signature.go:111 | The two little-endian bytes read back as the same `uint16`. |
| `MessageEncoder.Encode` | signature.go:101-113 | The vector has 34 bytes. Bytes 0..31 are the digest. Bytes 32..33 read little-endian give the checksum. Byte 33 is at most 31. |
| `MessageEncoder.ChecksummedMessageHash` | signature.go:101-113 | The loop's result is the encoding of `H(m)`. Byte 32 is `checksum mod 256` and byte 33 is `checksum / 256`. |
| `MessageEncoder.ChecksumAntiMonotone` | signature.go:94-100 | Raising digest bytes never raises the checksum. If any byte changes, the checksum drops strictly. |
| `MessageEncoder.NoDominatingEncoding` | signature.go:94-100 | If the encoding of `d'` is componentwise at least the encoding of `d`, then `d' == d`. So hashing revealed chain elements forward cannot produce a signature for another digest. |
| `Winternitz.Remaining` | signature.go:145-151 | Verification walks chain `i` exactly `256 − v[i]` steps. That is between 1 and 256, so always at least one hash, and it completes the chain to 256. |
| `Winternitz.ChainTops` | signature.go:72-81 | `y` after the key-generation loops: 1088 bytes whose block `i` is chain seed `i` (bytes `32i..32i+31` of the expanded seed) hashed exactly 256 times. |
| `Winternitz.PublicKeyOf` | signature.go:83-85 | The public key is the fingerprint `H(y)` of the buffer whose every block is walked 256 steps from the expanded seed. |
| `Winternitz.SignatureOf` | signature.go:124-136 | A signature is 1088 bytes. Block `i` is chain seed `i` hashed exactly `v[i]` times, and a zero byte reveals the chain seed unchanged. |
| `Winternitz.Verifies` | signature.go:158-159 | Verification holds iff `pk` equals `H(y)` for the buffer `y` whose block `i` is signature block `i` hashed `256 − v[i]` more times. |
| `Winternitz.CompletedSignatureIsChainTops` | signature.go:145-153 | Completing every chain of an honest signature reproduces exactly the signer's chain tops. |
| `Winternitz.SignThenVerify` | signature_test.go:18-22 | For every secret key and every message, including the empty one, the signature verifies under the key's public key. |
| `Winternitz.GenerateKey` | signature.go:57-88 | `sk` holds what the reader wrote, and the reader's error is returned unchanged. On an error there is no public key. Otherwise the inner loop runs exactly 256 hashes per chain (line 77), and `pk` is `PublicKeyOf(sk)`: `H` of the 34 chain seeds each hashed 256 times in place. |
| `Winternitz.Sign` | signature.go:121-137 | The returned array is newly allocated (the function's own buffer `y`) and holds `SignatureOf(sk, m)`. Chain seed `i` is hashed exactly `v[i]` times, counted by a `byte` counter that cannot overflow. |
| `Winternitz.Verify` | signature.go:141-160 | The method returns true iff `H` of the signature's blocks, each hashed `256 − v[i]` more times, equals `pk`. It works on a copy: `sig` is not in its frame, so the caller's signature is unchanged. |
| `Winternitz.CompleteChains` | signature.go:145-153 | The loop of `Verify` over its private buffer: afterwards block `i` of the buffer is its old block `i` hashed `256 − v[i]` more times (the `j = 255 − b .. 0` loop), and nothing but the buffer changes. |
| `Winternitz.GenerateSignVerify` | signature_test.go:10-22 | Generating a key from a reader that does not fail, signing any message and verifying the signature returns true. |

## Left out

- Blake2b-256 (RFC 7693) is not modelled. It is the parameter `hash`, any total function from bytes to 32 bytes. No result depends on its internals.
- The ChaCha20 CSPRNG (`chacha20prng.New(sk[:], 0)`) is not modelled. It is the parameter `expand`, a deterministic function from the 32-byte seed to the 1088 bytes the code reads. The rest of the unbounded stream is never read.
- The `io.Reader` is modelled only as its outcome: whatever 32 bytes it left in `sk` and an optional error. The byte count `n` is ignored, as the code ignores it. Blocking and partial-read semantics are not modelled.
- `GenerateKey` is deterministic and re-derivation in `Sign` gives the same chain seeds. Both hold by construction, because `hash` and `expand` are functions. No separate lemma states them.
- Security claims are not stated, because they are probabilistic or computational. These include unforgeability, rejection of tampered signatures or messages "with overwhelming probability", and the damage from signing twice with one key. Only the combinatorial core, `NoDominatingEncoding`, is proved.
- The benchmarks and `nopReader` in `signature_test.go` are test harness code and are not modelled.
- The pointer types (`*PublicKey`, `*SecretKey`) are modelled as 32-byte values. Only the signature is an array, because `Verify` copies it and `Sign` returns its own buffer.
- Nil pointers are not modelled. The Go code panics on a nil `sk`, `pk` or `sig` at `sk[:]`, `pk[:]` or `*sig`; here keys are values and the signature array is never null.

