# skull: the aggregate Schnorr proof, modelled in Dafny

The `skull` library (`src/lib.rs`) backs a card game in which each card is hidden behind a
Pedersen commitment `C = g·v + h·r`. The fairness check is an aggregate Schnorr proof:

- the signer folds the blinding factors `rs` into a key;
- the signer signs with a Fiat-Shamir challenge `e = H(h·k)` and response `s = k - key·e`;
- the verifier folds the commitments, subtracts `g` once to get `y`, rebuilds `h·s + y·e`, and
  accepts when its hash equals `e`.

This project models that protocol over an abstract group and proves what it guarantees.

- `scalars.dfy` (module `Scalars`): scalars are the integers modulo the Ristretto255 group
  order `L = 2^252 + 27742317777372353535851937790883648493`. It holds the ring laws, and
  Euclid's lemma for any prime, which gives "no zero divisors" once `L` is prime.
- `points.dfy` (module `Points`): a group point is the pair of its coefficients over the two
  generators, `Point(a, b) = a·g + b·h`. `g = (1, 0)` and `h = (0, 1)` are independent by
  construction.
- `protocol.dfy` (module `Protocol`): the library's records (`Card`, `Revelation`, `Commitment`,
  `SchnorrSignature`), `init_gh`, the card mapping, `DEFAULT_DECK`, the two folds,
  `schnorr_sign` and `check_schnorr_signature`.
- `properties.dfy` (module `SchnorrProperties`): completeness, the point the verifier rebuilds
  from Pedersen commitments, the converse (a cheating value sum needs a hash collision), and
  facts about the default deck.

The Fiat-Shamir hash ("compress the point, SHA-512, `Scalar::from_hash`") is the function
parameter `hash: Point -> Scalar`, about which nothing is assumed. The nonce drawn by
`Scalar::random` is the parameter `k`. Both Rust functions index `[0]` and slice `[1..]`, so they
panic on an empty slice. The model therefore requires at least one blinding factor or
commitment.

Where the code and the usual description of this protocol differ, the model follows the code:

- Both folds start from element 0 (`src/lib.rs:40`, `src/lib.rs:57`), so nothing is excluded.
  The key is the sum of every blinding factor, and `y` is the sum of every commitment minus `g`.
  `SigningKeyIncludesFirst` and `VerifierKeyIncludesFirst` prove that position 0 counts.
- The card mapping is Rose ↦ 0 and Skull ↦ 255 (`src/lib.rs:70-73`), not 0/1.
- `commit_deck` builds a lazy `map` that is never consumed and returns `()`. No commitment is
  ever built by the library. `Pedersen` and `Commitments` in `properties.dfy` state the
  commitment form `g·v + h·r` so that the lemmas can speak about it.
- Under the mapping, `DEFAULT_DECK` sums to 255, not to the value 1 that the check needs.
  `DefaultDeckNeedsHashCollision` proves that, when the challenge is non-zero, committing and
  signing the default deck makes the rebuilt point differ from `h·k`.

## Model

| member | source | states |
|---|---|---|
| Protocol.InitGH | src/lib.rs:27-32 | the two generators are distinct and neither is the identity |
| Points.GeneratorsIndependent | src/lib.rs:27-32 | `a·g + b·h` has coefficients `(a, b)`, and it is the identity only when `a = b = 0` (g and h are independent) |
| Protocol.CardValueInjective | src/lib.rs:70-73 | the card mapping (Rose 0, Skull 255) gives the two cards different values |
| Protocol.DeckValues | src/lib.rs:69-73 | mapping a deck keeps its length and gives position `i` the value of card `i` |
| SchnorrProperties.DefaultDeckValueSum | src/lib.rs:70-76 | under the mapping, the values of `DEFAULT_DECK` sum to 255 |
| Protocol.FoldScalarsIsSum | src/lib.rs:40 | the scalar fold from `acc` equals `acc` plus the sum of all the elements |
| Protocol.FoldPointsIsSum | src/lib.rs:57 | the commitment fold from `acc` equals `acc` plus the point sum of all the commitments |
| Protocol.SigningKey | src/lib.rs:39-40 | for a non-empty `rs`, the key is the sum of every blinding factor, `rs[0]` included |
| SchnorrProperties.SigningKeyIncludesFirst | src/lib.rs:39-40 | changing only `rs[0]` changes the key, so the first blinding factor is not excluded |
| Protocol.SchnorrSign | src/lib.rs:34-48 | the challenge is `e = hash(h·k)`, and the response satisfies `s + (Σ rs)·e = k` (mod L) |
| Protocol.VerifierKey | src/lib.rs:55-57 | for a non-empty `cs`, `y` is the sum of every commitment point with `g` subtracted once |
| SchnorrProperties.VerifierKeyIncludesFirst | src/lib.rs:56-57 | changing only `cs[0]` changes `y`, so the first commitment is not excluded |
| Protocol.CheckSchnorrSignature | src/lib.rs:50-61 | accepts if and only if `hash(h·s + (Σ cs - g)·e) == e` |
| SchnorrProperties.Completeness | src/lib.rs:34-61 | if `y = h·(Σ rs)`, the verifier rebuilds exactly `h·k` and accepts the signature made with any nonce `k` |
| SchnorrProperties.CommitmentSumOfOpenings | src/lib.rs:56-57 | the commitments `g·v_i + h·r_i` sum to `(Σ v_i)·g + (Σ r_i)·h` |
| SchnorrProperties.ReconstructedFromOpenings | src/lib.rs:40-58 | signing over the `r_i` of commitments `g·v_i + h·r_i`, the verifier rebuilds `h·k + g·((Σ v_i - 1)·e)` |
| SchnorrProperties.OffsetNoncePoint | src/lib.rs:42-58 | the rebuilt point `h·k + g·d` equals the signer's nonce point `h·k` if and only if `d = 0` |
| SchnorrProperties.AcceptsWhenValuesSumToOne | src/lib.rs:34-60 | when the committed values sum to 1 (mod L), the check accepts the signature over the matching blinding factors |
| SchnorrProperties.CheatingNeedsHashCollision | src/lib.rs:41-60 | for prime L, values not summing to 1 with a non-zero challenge make the rebuilt point differ from `h·k`; the check accepts if and only if the hash collides on those two points |
| SchnorrProperties.DefaultDeckNeedsHashCollision | src/lib.rs:63-76 | revelations of `DEFAULT_DECK` committed under the card mapping, with a non-zero challenge, rebuild a point other than `h·k` (their value sum minus 1 is 254, which is invertible modulo L); acceptance then needs a hash collision |

## Left out

- Ristretto255 arithmetic, point compression, SHA-512 and `Scalar::from_hash` are foreign library code. The group is the coefficient-pair group over Z/L, and the hash is an uninterpreted function parameter.
- The hash-to-curve in `init_gh` (`hash_from_bytes` over the labels "AMONI" and "SAGOD") is replaced by the fixed independent generators `g = (1, 0)` and `h = (0, 1)`.
- `Scalar::random` and the `CryptoRng` it draws from: the nonce `k` is a parameter.
- The primality of L is a published property of the curve and is not proved here. `CheatingNeedsHashCollision` takes `IsPrime(L)` as a hypothesis. Its proof rests on Euclid's lemma, which is proved for every prime. `DefaultDeckNeedsHashCollision` does not need the hypothesis: it uses the explicit inverse of 254 modulo L.
- Security notions are computational or probabilistic claims and are not stated: binding, hiding, unforgeability, and the freshness of nonces across calls.
- `commit_deck`'s iterator pipeline and its unused `pc_gens` and `tscript` arguments have no observable effect. Only the card mapping inside it is modelled, as `CardValue`.
- The `bulletproof` test (`src/lib.rs:83-117`) exercises only the external range-proof library.
- `src/_main.rs` is a threaded TCP echo server plus RNG buffer fills, with no protocol logic, and is not part of this model.
- The panics on an empty `rs` or `cs` are modelled as preconditions (`|rs| >= 1`, `|cs| >= 1`), not as an error result.
