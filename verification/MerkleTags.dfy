/**
 What a merkle root says of its leaves. Before two digests are hashed, libraries/chain/merkle.cpp
 overwrites one bit of each to tell the left one from the right one, so that bit of a leaf is lost.
 */
module MerkleTags {
  import opened Merkle

  /** The four words of a SHA-256 digest. */
  datatype Digest = Digest(word0: bv64, word1: bv64, word2: bv64, word3: bv64)

  function Cleared(word: bv64): bv64 { word & 0xFFFF_FFFF_FFFF_FF7F }

  function Marked(word: bv64): bv64 { word | 0x80 }

  predicate HasMark(word: bv64) { word & 0x80 != 0 }

  function CanonicalLeft(d: Digest): Digest { d.(word0 := Cleared(d.word0)) }

  function CanonicalRight(d: Digest): Digest { d.(word0 := Marked(d.word0)) }

  predicate IsCanonicalLeft(d: Digest) { !HasMark(d.word0) }

  predicate IsCanonicalRight(d: Digest) { HasMark(d.word0) }

  function OtherWords(d: Digest): seq<bv64> { [d.word1, d.word2, d.word3] }

  /** Equal but for the bit that the tags overwrite. */
  predicate Alike(x: Digest, y: Digest) { CanonicalLeft(x) == CanonicalLeft(y) }

  type Pair = (Digest, Digest)

  /** The pair hash of the merkle tree, for any hash of two digests. */
  function Tagged(g: PairHash<Digest>): PairHash<Digest> { (a, b) => g(CanonicalLeft(a), CanonicalRight(b)) }

  /** The tags mark the two sides, and forget the same bit on both. */
  lemma TagsMark(x: Digest, y: Digest)
    ensures IsCanonicalLeft(CanonicalLeft(x)) && IsCanonicalRight(CanonicalRight(x))
    ensures CanonicalRight(x) == CanonicalRight(y) <==> Alike(x, y)
    ensures Alike(x, y) && (IsCanonicalLeft(x) <==> IsCanonicalLeft(y)) ==> x == y
    ensures IsCanonicalLeft(x) ==> CanonicalLeft(x) == x
    ensures IsCanonicalRight(x) ==> CanonicalRight(x) == x
    ensures OtherWords(CanonicalLeft(x)) == OtherWords(x) == OtherWords(CanonicalRight(x))
  {
    hide Cleared, Marked, HasMark;
    MarkedBit(x.word0, y.word0);
    MarkTells(x.word0);
  }

  lemma MarkedBit(a: bv64, b: bv64)
    ensures !HasMark(Cleared(a)) && HasMark(Marked(a))
    ensures Marked(a) == Marked(b) <==> Cleared(a) == Cleared(b)
    ensures Cleared(a) == Cleared(b) && (HasMark(a) <==> HasMark(b)) ==> a == b
  {
    hide Cleared, Marked, HasMark;
    MarkAndClear(a);
    MarkAndClear(b);
    MarkTells(a);
    MarkTells(b);
  }

  lemma MarkAndClear(a: bv64)
    ensures Marked(Cleared(a)) == Marked(a) && Cleared(Marked(a)) == Cleared(a)
  {}

  lemma MarkTells(a: bv64)
    ensures a == if HasMark(a) then Marked(a) else Cleared(a)
    ensures !HasMark(Cleared(a)) && HasMark(Marked(a))
  {}

  predicate AllAlike(s: seq<Digest>, t: seq<Digest>)
  {
    |s| == |t| && forall i | 0 <= i < |s| :: Alike(s[i], t[i])
  }

  /** The pairs that are hashed for one level of an even number of digests. */
  function PairsOf(level: seq<Digest>): set<Pair>
  {
    set i | 0 <= i < |level| / 2 :: (CanonicalLeft(level[2 * i]), CanonicalRight(level[2 * i + 1]))
  }

  /** All pairs that are hashed on the way to the root. */
  function Hashed(g: PairHash<Digest>, s: seq<Digest>): set<Pair>
    decreases |s|
  {
    if |s| <= 1 then {} else PairsOf(Completed(s)) + Hashed(g, Level(Tagged(g), s))
  }

  /** No two of the pairs have hashes that are alike. */
  predicate CollisionFree(g: PairHash<Digest>, pairs: set<Pair>)
  {
    forall p, q | p in pairs && q in pairs && Alike(g(p.0, p.1), g(q.0, q.1)) :: p == q
  }

  // --------------------------------------------------------------------- levels

  lemma CompletedAlike(s: seq<Digest>, t: seq<Digest>)
    requires |s| == |t|
    ensures AllAlike(s, t) <==> AllAlike(Completed(s), Completed(t))
  {
    hide Alike;
    assert forall i | 0 <= i < |s| :: Completed(s)[i] == s[i] && Completed(t)[i] == t[i];
  }

  /** Levels that are alike have the same level above them. */
  lemma AlikeSameLevel(g: PairHash<Digest>, s: seq<Digest>, t: seq<Digest>)
    requires AllAlike(s, t)
    ensures Level(Tagged(g), s) == Level(Tagged(g), t)
  {
    hide Alike, CanonicalLeft, CanonicalRight;
    CompletedAlike(s, t);
    var c, d := Completed(s), Completed(t);
    forall i | 0 <= i < |c| / 2 ensures Paired(Tagged(g), c)[i] == Paired(Tagged(g), d)[i] {
      AlikeSameHash(g, c[2 * i], c[2 * i + 1], d[2 * i], d[2 * i + 1]);
    }
  }

  lemma AlikeSameHash(g: PairHash<Digest>, a: Digest, b: Digest, c: Digest, d: Digest)
    requires Alike(a, c) && Alike(b, d)
    ensures Tagged(g)(a, b) == Tagged(g)(c, d)
  {
    TagsMark(b, d);
  }

  /** Without collisions, levels below levels that are alike are alike. */
  lemma AlikeLevelBelow(g: PairHash<Digest>, s: seq<Digest>, t: seq<Digest>)
    requires |s| == |t| && AllAlike(Level(Tagged(g), s), Level(Tagged(g), t))
    requires CollisionFree(g, PairsOf(Completed(s)) + PairsOf(Completed(t)))
    ensures AllAlike(s, t)
  {
    hide Alike, CollisionFree, PairsOf, Paired;
    var c, d := Completed(s), Completed(t);
    forall i | 0 <= i < |c| ensures Alike(c[i], d[i]) {
      assert Alike(Paired(Tagged(g), c)[i / 2], Paired(Tagged(g), d)[i / 2]);
      AlikePair(g, c, d, i / 2);
    }
    CompletedAlike(s, t);
  }

  lemma AlikePair(g: PairHash<Digest>, c: seq<Digest>, d: seq<Digest>, k: nat)
    requires k < |c| / 2 && k < |d| / 2 && CollisionFree(g, PairsOf(c) + PairsOf(d))
    requires Alike(Paired(Tagged(g), c)[k], Paired(Tagged(g), d)[k])
    ensures Alike(c[2 * k], d[2 * k]) && Alike(c[2 * k + 1], d[2 * k + 1])
  {
    hide Alike, CanonicalLeft, CanonicalRight;
    var p := (CanonicalLeft(c[2 * k]), CanonicalRight(c[2 * k + 1]));
    var q := (CanonicalLeft(d[2 * k]), CanonicalRight(d[2 * k + 1]));
    assert p in PairsOf(c) && q in PairsOf(d);
    assert p == q;
    SidesAlike(c[2 * k], c[2 * k + 1], d[2 * k], d[2 * k + 1]);
  }

  lemma SidesAlike(a: Digest, b: Digest, c: Digest, d: Digest)
    requires CanonicalLeft(a) == CanonicalLeft(c) && CanonicalRight(b) == CanonicalRight(d)
    ensures Alike(a, c) && Alike(b, d)
  {
    TagsMark(b, d);
  }

  // ---------------------------------------------------------------------- roots

  /** Two leaves that differ only in the overwritten bit give the same root beside any third. */
  lemma TagForgotten(g: PairHash<Digest>, x: Digest, y: Digest, z: Digest)
    requires Alike(x, y)
    ensures Root(Tagged(g), [x, z]) == Root(Tagged(g), [y, z])
  {
    hide Alike, Root;
    assert Alike(z, z) by { AlikeSelf(z); }
    AlikeSameLevel(g, [x, z], [y, z]);
    RootStep(Tagged(g), [x, z]);
    RootStep(Tagged(g), [y, z]);
  }

  lemma AlikeSelf(x: Digest)
    ensures Alike(x, x)
  {}

  /** Two such leaves. */
  lemma Twins()
    ensures Digest(0, 0, 0, 0) != Digest(0x80, 0, 0, 0) && Alike(Digest(0, 0, 0, 0), Digest(0x80, 0, 0, 0))
  {}

  lemma {:induction false} AlikeRootsBelow(g: PairHash<Digest>, s: seq<Digest>, t: seq<Digest>)
    requires |s| == |t| > 0 && CollisionFree(g, Hashed(g, s) + Hashed(g, t))
    requires Alike(Root(Tagged(g), s), Root(Tagged(g), t))
    ensures AllAlike(s, t)
    decreases |s|
  {
    hide Alike, PairsOf;
    var h := Tagged(g);
    if |s| > 1 {
      RootStep(h, s);
      RootStep(h, t);
      AlikeRootsBelow(g, Level(h, s), Level(h, t));
      AlikeLevelBelow(g, s, t);
    }
  }

  /**
   Two lists of one length above one. If their leaves are alike they have the same root; and
   if they have the same root, or roots that are alike, then their leaves are alike unless two
   different pairs among those hashed for them collide.
   */
  lemma RootDetermines(g: PairHash<Digest>, s: seq<Digest>, t: seq<Digest>)
    requires |s| == |t| > 1
    ensures AllAlike(s, t) ==> Root(Tagged(g), s) == Root(Tagged(g), t)
    ensures Alike(Root(Tagged(g), s), Root(Tagged(g), t))
            ==> AllAlike(s, t) || !CollisionFree(g, Hashed(g, s) + Hashed(g, t))
  {
    hide Alike, Root, Hashed, CollisionFree;
    if AllAlike(s, t) {
      AlikeSameLevel(g, s, t);
      RootStep(Tagged(g), s);
      RootStep(Tagged(g), t);
    } else if Alike(Root(Tagged(g), s), Root(Tagged(g), t)) && CollisionFree(g, Hashed(g, s) + Hashed(g, t)) {
      AlikeRootsBelow(g, s, t);
    }
  }
}
