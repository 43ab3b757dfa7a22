/**
 * The entities and operations of the skull library: the two cards and their values, the
 * commitment and revelation records, the generator setup, and the aggregate Schnorr proof
 * (signing over blinding factors, checking against commitments).
 *
 * Two library calls are not modelled and become parameters: the random nonce `k` drawn by
 * `Scalar::random`, and the Fiat-Shamir hash "compress the point, SHA-512, `Scalar::from_hash`",
 * which is the uninterpreted `hash: Point -> Scalar`.
 */
module Protocol {
  import opened Scalars
  import opened Points

  datatype Card = Skull | Rose

  /** An opening of a commitment: its blinding factor and the card. */
  datatype Revelation = Revelation(r: Scalar, c: Card)

  /** A commitment is a single group point. */
  datatype Commitment = Commitment(point: Point)

  /** The Fiat-Shamir response `s` and challenge `e`. */
  datatype SchnorrSignature = SchnorrSignature(s: Scalar, e: Scalar)

  /** The two generators (g, h), hashed from two distinct fixed labels. */
  function InitGH(): (gh: (Point, Point))
    ensures gh.0 != Identity && gh.1 != Identity && gh.0 != gh.1
  {
    (G, H)
  }

  /** The value the card mapping inside `commit_deck` gives each card. */
  function CardValue(c: Card): (v: Scalar)
    ensures v < 256
  {
    match c
    case Rose => 0
    case Skull => 255
  }

  /** The mapping tells the two cards apart. */
  lemma CardValueInjective(a: Card, b: Card)
    ensures CardValue(a) == CardValue(b) <==> a == b
  {
  }

  /** The card mapping applied position by position to a deck. */
  function DeckValues(deck: seq<Card>): (vs: seq<Scalar>)
    ensures |vs| == |deck|
    ensures forall i :: 0 <= i < |deck| ==> vs[i] == CardValue(deck[i])
  {
    if deck == [] then [] else [CardValue(deck[0])] + DeckValues(deck[1..])
  }

  const DefaultDeck: seq<Card> := [Skull, Rose, Rose, Rose]

  /** The point sum of all commitments, the reference the verifier's fold is compared with. */
  function CommitmentSum(cs: seq<Commitment>): Point
  {
    if cs == [] then Identity else PAdd(cs[0].point, CommitmentSum(cs[1..]))
  }

  /** `xs.fold(acc, |acc, x| acc + x)` over scalars. */
  function FoldScalars(acc: Scalar, xs: seq<Scalar>): Scalar
    decreases |xs|
  {
    if xs == [] then acc else FoldScalars(Add(acc, xs[0]), xs[1..])
  }

  /** `cs.fold(acc, |acc, x| acc + x.0)` over commitments. */
  function FoldPoints(acc: Point, cs: seq<Commitment>): Point
    decreases |cs|
  {
    if cs == [] then acc else FoldPoints(PAdd(acc, cs[0].point), cs[1..])
  }

  lemma {:induction false} FoldScalarsIsSum(acc: Scalar, xs: seq<Scalar>)
    ensures FoldScalars(acc, xs) == Add(acc, Sum(xs))
    decreases |xs|
  {
    if xs != [] {
      FoldScalarsIsSum(Add(acc, xs[0]), xs[1..]);
      AddAssoc(acc, xs[0], Sum(xs[1..]));
    }
  }

  lemma {:induction false} FoldPointsIsSum(acc: Point, cs: seq<Commitment>)
    ensures FoldPoints(acc, cs) == PAdd(acc, CommitmentSum(cs))
    decreases |cs|
  {
    if cs == [] {
      assert PAdd(acc, Identity) == acc;
    } else {
      FoldPointsIsSum(PAdd(acc, cs[0].point), cs[1..]);
      PAddAssoc(acc, cs[0].point, CommitmentSum(cs[1..]));
    }
  }

  /** The signer's key: the fold over `rs[1..]` starts at `rs[0]`, so it is the sum of every blinding factor. */
  function SigningKey(rs: seq<Scalar>): (key: Scalar)
    requires |rs| >= 1
    ensures key == Sum(rs)
  {
    FoldScalarsIsSum(rs[0], rs[1..]);
    FoldScalars(rs[0], rs[1..])
  }

  /** Sign with nonce `k`: challenge e = hash(h·k), response s = k - key·e. */
  function SchnorrSign(hash: Point -> Scalar, h: Point, rs: seq<Scalar>, k: Scalar): (sig: SchnorrSignature)
    requires |rs| >= 1
    ensures sig.e == hash(Scale(h, k))
    ensures Add(sig.s, Mul(Sum(rs), sig.e)) == k
  {
    var key := SigningKey(rs);
    var e := hash(Scale(h, k));
    SubAddCancel(k, Mul(key, e));
    SchnorrSignature(Sub(k, Mul(key, e)), e)
  }

  /** The verifier's public key y: the fold over `cs[1..]` starts at `cs[0]`, then g is subtracted once. */
  function VerifierKey(g: Point, cs: seq<Commitment>): (y: Point)
    requires |cs| >= 1
    ensures y == PSub(CommitmentSum(cs), g)
  {
    FoldPointsIsSum(cs[0].point, cs[1..]);
    PSub(FoldPoints(cs[0].point, cs[1..]), g)
  }

  /** The nonce point h·s + y·e the verifier rebuilds, with y the sum of all commitments minus g. */
  function Reconstructed(gh: (Point, Point), cs: seq<Commitment>, sig: SchnorrSignature): Point
  {
    PAdd(Scale(gh.1, sig.s), Scale(PSub(CommitmentSum(cs), gh.0), sig.e))
  }

  function CheckSchnorrSignature(hash: Point -> Scalar, gh: (Point, Point), cs: seq<Commitment>, sig: SchnorrSignature): (ok: bool)
    requires |cs| >= 1
    ensures ok <==> hash(Reconstructed(gh, cs, sig)) == sig.e
  {
    var (g, h) := gh;
    var y := VerifierKey(g, cs);
    hash(PAdd(Scale(h, sig.s), Scale(y, sig.e))) == sig.e
  }
}
