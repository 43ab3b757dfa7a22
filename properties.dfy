/**
 * What the aggregate Schnorr proof guarantees: completeness, the exact point the verifier
 * rebuilds from Pedersen commitments, and the converse (a value sum other than 1 can only be
 * accepted through a hash collision). Also: no position is excluded from either fold, and the
 * default deck under the card mapping sums to 255.
 */
module SchnorrProperties {
  import opened Scalars
  import opened Points
  import opened Protocol

  /** The Pedersen commitment g·v + h·r. */
  function Pedersen(gh: (Point, Point), v: Scalar, r: Scalar): Commitment
  {
    Commitment(PAdd(Scale(gh.0, v), Scale(gh.1, r)))
  }

  /** Commitments to values `vs` under blinding factors `rs`, index by index. */
  function Commitments(gh: (Point, Point), vs: seq<Scalar>, rs: seq<Scalar>): (cs: seq<Commitment>)
    requires |vs| == |rs|
    ensures |cs| == |vs|
    ensures forall i :: 0 <= i < |vs| ==> cs[i] == Pedersen(gh, vs[i], rs[i])
  {
    if vs == [] then [] else [Pedersen(gh, vs[0], rs[0])] + Commitments(gh, vs[1..], rs[1..])
  }

  /** The signing key includes `rs[0]`: changing only the first blinding factor changes the key. */
  lemma SigningKeyIncludesFirst(rs: seq<Scalar>, x: Scalar)
    requires |rs| >= 1
    requires x != rs[0]
    ensures SigningKey(rs[0 := x]) != SigningKey(rs)
  {
  }

  /** The verifier key includes `cs[0]`: changing only the first commitment changes y. */
  lemma VerifierKeyIncludesFirst(g: Point, cs: seq<Commitment>, c: Commitment)
    requires |cs| >= 1
    requires c != cs[0]
    ensures VerifierKey(g, cs[0 := c]) != VerifierKey(g, cs)
  {
  }

  /** Completeness: whenever y = h·key, the verifier rebuilds h·k and accepts the signature. */
  lemma Completeness(hash: Point -> Scalar, gh: (Point, Point), cs: seq<Commitment>, rs: seq<Scalar>, k: Scalar)
    requires |cs| >= 1 && |rs| >= 1
    requires VerifierKey(gh.0, cs) == Scale(gh.1, Sum(rs))
    ensures Reconstructed(gh, cs, SchnorrSign(hash, gh.1, rs, k)) == Scale(gh.1, k)
    ensures CheckSchnorrSignature(hash, gh, cs, SchnorrSign(hash, gh.1, rs, k))
  {
    var sig := SchnorrSign(hash, gh.1, rs, k);
    var key := Sum(rs);
    ScaleScale(gh.1, key, sig.e);
    ScaleAdd(gh.1, sig.s, Mul(key, sig.e));
  }

  /** With g, h from InitGH, the commitments sum to the pair (sum of values, sum of blinding factors). */
  lemma {:induction false} CommitmentSumOfOpenings(vs: seq<Scalar>, rs: seq<Scalar>)
    requires |vs| == |rs|
    ensures CommitmentSum(Commitments(InitGH(), vs, rs)) == Point(Sum(vs), Sum(rs))
  {
    if vs != [] {
      var cs := Commitments(InitGH(), vs, rs);
      assert cs[1..] == Commitments(InitGH(), vs[1..], rs[1..]);
      CommitmentSumOfOpenings(vs[1..], rs[1..]);
      GeneratorsIndependent(vs[0], rs[0]);
    }
  }

  /**
   * Signing over the blinding factors of commitments g·v_i + h·r_i, the verifier rebuilds
   * h·k + g·((Σv_i - 1)·e).
   */
  lemma ReconstructedFromOpenings(hash: Point -> Scalar, vs: seq<Scalar>, rs: seq<Scalar>, k: Scalar)
    requires |vs| == |rs| >= 1
    ensures var sig := SchnorrSign(hash, H, rs, k);
      Reconstructed(InitGH(), Commitments(InitGH(), vs, rs), sig)
      == PAdd(Scale(H, k), Scale(G, Mul(Sub(Sum(vs), 1), sig.e)))
  {
    var sig := SchnorrSign(hash, H, rs, k);
    CommitmentSumOfOpenings(vs, rs);
    var d := Sub(Sum(vs), 1);
    assert PSub(Point(Sum(vs), Sum(rs)), G) == Point(d, Sum(rs));
    MulOne(sig.s); MulZero(sig.s); MulOne(k); MulZero(k);
    MulZero(sig.e); MulOne(Mul(d, sig.e)); MulZero(Mul(d, sig.e));
    assert Scale(H, sig.s) == Point(0, sig.s);
    assert Scale(H, k) == Point(0, k);
    assert Scale(G, Mul(d, sig.e)) == Point(Mul(d, sig.e), 0);
  }

  /** h·k + g·d is the nonce point h·k exactly when d is zero. */
  lemma OffsetNoncePoint(k: Scalar, d: Scalar)
    ensures PAdd(Scale(H, k), Scale(G, d)) == Scale(H, k) <==> d == 0
  {
    MulOne(k); MulZero(k); MulOne(d); MulZero(d);
  }

  /** Values summing to 1 (mod L): the signature over the matching blinding factors is accepted. */
  lemma AcceptsWhenValuesSumToOne(hash: Point -> Scalar, vs: seq<Scalar>, rs: seq<Scalar>, k: Scalar)
    requires |vs| == |rs| >= 1
    requires Sum(vs) == 1
    ensures CheckSchnorrSignature(hash, InitGH(), Commitments(InitGH(), vs, rs), SchnorrSign(hash, H, rs, k))
  {
    var sig := SchnorrSign(hash, H, rs, k);
    ReconstructedFromOpenings(hash, vs, rs, k);
    MulZero(sig.e);
    OffsetNoncePoint(k, 0);
  }

  /**
   * The converse, for the prime L: values not summing to 1 with a non-zero challenge make the
   * rebuilt point differ from h·k, so the check accepts only if the hash collides on those two points.
   */
  lemma CheatingNeedsHashCollision(hash: Point -> Scalar, vs: seq<Scalar>, rs: seq<Scalar>, k: Scalar)
    requires IsPrime(L)
    requires |vs| == |rs| >= 1
    requires Sum(vs) != 1
    requires hash(Scale(H, k)) != 0
    ensures var sig := SchnorrSign(hash, H, rs, k);
      var r := Reconstructed(InitGH(), Commitments(InitGH(), vs, rs), sig);
      r != Scale(H, k)
      && (CheckSchnorrSignature(hash, InitGH(), Commitments(InitGH(), vs, rs), sig) <==> hash(r) == hash(Scale(H, k)))
  {
    var sig := SchnorrSign(hash, H, rs, k);
    var d := Mul(Sub(Sum(vs), 1), sig.e);
    ReconstructedFromOpenings(hash, vs, rs, k);
    NoZeroDivisors(Sub(Sum(vs), 1), sig.e);
    OffsetNoncePoint(k, d);
  }

  /** Under the card mapping (Rose 0, Skull 255) the default deck's values sum to 255, not 1. */
  lemma DefaultDeckValueSum()
    ensures Sum(DeckValues(DefaultDeck)) == 255
  {
    var vs := DeckValues(DefaultDeck);
    assert vs == [255, 0, 0, 0];
    assert vs[1..] == [0, 0, 0];
    assert vs[2..] == [0, 0];
    assert vs[3..] == [0];
    assert Sum(vs[3..]) == Add(0, Sum([])) == 0;
    assert Sum(vs[2..]) == Add(0, Sum(vs[3..])) == 0;
    assert Sum(vs[1..]) == Add(0, Sum(vs[2..])) == 0;
    assert Sum(vs) == Add(255, Sum(vs[1..])) == 255;
  }

  /** The inverse of 254 modulo L: 254 · Inv254 = 1 + 87·L. */
  const Inv254: int := 2478816870976011073290028468443860232104602847504141581583345400121395747386

  /** 254 is invertible modulo L, so it is not a zero divisor. */
  lemma Times254NonZero(e: Scalar)
    requires e != 0
    ensures Mul(254, e) != 0
  {
    assert Inv254 * 254 == 1 + 87 * L;
    assert e * (Inv254 * 254) == e + (e * 87) * L;
  }

  /** The blinding factors of a sequence of revelations, in order. */
  function Blindings(revs: seq<Revelation>): (rs: seq<Scalar>)
    ensures |rs| == |revs|
    ensures forall i :: 0 <= i < |revs| ==> rs[i] == revs[i].r
  {
    if revs == [] then [] else [revs[0].r] + Blindings(revs[1..])
  }

  /** The cards of a sequence of revelations, in order. */
  function Cards(revs: seq<Revelation>): (deck: seq<Card>)
    ensures |deck| == |revs|
    ensures forall i :: 0 <= i < |revs| ==> deck[i] == revs[i].c
  {
    if revs == [] then [] else [revs[0].c] + Cards(revs[1..])
  }

  /**
   * Revelations of the default deck, committed as g·value(card) + h·r and signed over their
   * blinding factors: with a non-zero challenge the rebuilt point is not h·k, so the check
   * accepts only through a hash collision.
   */
  lemma DefaultDeckNeedsHashCollision(hash: Point -> Scalar, revs: seq<Revelation>, k: Scalar)
    requires Cards(revs) == DefaultDeck
    requires hash(Scale(H, k)) != 0
    ensures var cs := Commitments(InitGH(), DeckValues(Cards(revs)), Blindings(revs));
      var sig := SchnorrSign(hash, H, Blindings(revs), k);
      Reconstructed(InitGH(), cs, sig) != Scale(H, k)
      && (CheckSchnorrSignature(hash, InitGH(), cs, sig) <==> hash(Reconstructed(InitGH(), cs, sig)) == hash(Scale(H, k)))
  {
    var vs := DeckValues(DefaultDeck);
    var sig := SchnorrSign(hash, H, Blindings(revs), k);
    DefaultDeckValueSum();
    assert Sub(Sum(vs), 1) == 254;
    ReconstructedFromOpenings(hash, vs, Blindings(revs), k);
    Times254NonZero(sig.e);
    OffsetNoncePoint(k, Mul(254, sig.e));
  }
}
