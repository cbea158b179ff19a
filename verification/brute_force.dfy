/** The brute-force oracle the test suite checks `FindIntersected()` against:
    every two registered values are compared, and a pair is reported, larger
    value first, when the boxes meet. Values are numbers (`std::size_t` in the
    tests), modelled as `nat`.

    `IntersectPairsBrute` is the double loop; `BrutePairs` is the set it
    computes. `TreeMatchesBrute` states that the tree's pairs, taken in
    either orientation, are the oracle's pairs, each exactly once. */
module BruteForce {
  import opened Wrappers
  import opened Boxes
  import opened Nodes
  import opened NodeQuery
  import opened Trees

  /** The pairs the oracle reports: two registered values, the first larger,
      whose boxes meet. */
  ghost function BrutePairs(m: map<nat, Box>): set<(nat, nat)> {
    set i, j | i in m && j in m && i > j && Overlap(Some(m[i]), Some(m[j])) :: (i, j)
  }

  /** `IntersectPairsBrute` over a map of boxes of dimension `dim`: for each
      entry, each entry with a smaller key whose box meets it. The order of
      the two traversals of the map is left open. */
  method IntersectPairsBrute(m: map<nat, Box>, dim: nat) returns (r: seq<(nat, nat)>)
    requires forall k | k in m :: m[k].Shaped() && |m[k].lo| == dim
    ensures forall p :: multiset(r)[p] == if p in BrutePairs(m) then 1 else 0
    ensures |r| == |BrutePairs(m)|
  {
    r := [];
    var outer := m.Keys;
    while outer != {}
      invariant outer <= m.Keys
      invariant forall p :: multiset(r)[p] == if p in BrutePairs(m) && p.0 !in outer then 1 else 0
      decreases |outer|
    {
      var i :| i in outer;
      outer := outer - {i};
      var inner := m.Keys;
      while inner != {}
        invariant inner <= m.Keys
        invariant forall p :: multiset(r)[p] == (if p in BrutePairs(m) && p.0 !in outer && (p.0 != i || p.1 !in inner) then 1 else 0)
        decreases |inner|
      {
        var j :| j in inner;
        inner := inner - {j};
        if i > j && Intersect(m[i], m[j]) {
          assert (i, j) in BrutePairs(m);
          r := r + [(i, j)];
        }
      }
    }
    assert multiset(r) == multiset(BrutePairs(m));
  }

  /** The oracle reports two values, in one orientation or the other, once
      when they are distinct registered values whose boxes meet, and never
      otherwise. */
  lemma BruteCount(m: map<nat, Box>, a: nat, b: nat)
    ensures Both(multiset(BrutePairs(m)), a, b) ==
      if a != b && a in m && b in m && Overlap(Some(m[a]), Some(m[b])) then 1 else 0
  {
    if a in m && b in m {
      OverlapSymmetric(Some(m[a]), Some(m[b]));
    }
    assert (a, b) in BrutePairs(m) <==> a in m && b in m && a > b && Overlap(Some(m[a]), Some(m[b]));
    assert (b, a) in BrutePairs(m) <==> a in m && b in m && b > a && Overlap(Some(m[b]), Some(m[a]));
  }

  /** The tree's `FindIntersected()` agrees with the oracle over
      `GetAllValues()`: every pair of values counts as often in the tree's
      result, in either orientation, as in the oracle's, which is once when
      their boxes meet and never otherwise. */
  lemma TreeMatchesBrute(t: Tree<nat>, a: nat, b: nat)
    requires TreeInv(t)
    ensures Both(FindAllPairs(t), a, b) == Both(multiset(BrutePairs(GetAllValues(t))), a, b)
    ensures Both(FindAllPairs(t), a, b) <= 1
  {
    FindAllPairsCount(t, a, b);
    BruteCount(t.registry, a, b);
    assert GetAllValues(t) == t.registry;
  }

  /** A multiset of pairs that counts every two values, in either
      orientation, as often as a set of pairs oriented larger-first has the
      same size as that set. */
  lemma {:induction false} SameCountsSameSize(pairs: multiset<(nat, nat)>, oracle: set<(nat, nat)>)
    requires forall p | p in oracle :: p.0 > p.1
    requires forall a, b :: Both(pairs, a, b) == Both(multiset(oracle), a, b)
    ensures |pairs| == |oracle|
    decreases |pairs|
  {
    if |pairs| == 0 {
      assert forall q | q in oracle :: Both(multiset(oracle), q.0, q.1) >= 1;
      assert oracle == {};
    } else {
      var p :| p in pairs;
      var (a, b) := p;
      assert Both(pairs, a, b) >= 1;
      var q := if a > b then (a, b) else (b, a);
      assert q in oracle;
      var pairs1, oracle1 := pairs - multiset{p}, oracle - {q};
      forall x, y
        ensures Both(pairs1, x, y) == Both(multiset(oracle1), x, y)
      {
        assert Both(pairs, x, y) == Both(multiset(oracle), x, y);
      }
      SameCountsSameSize(pairs1, oracle1);
    }
  }

  /** The tree reports as many pairs as the oracle, and the oracle's loop
      reports each of its pairs once. */
  lemma TreeMatchesBruteSize(t: Tree<nat>)
    requires TreeInv(t)
    ensures |FindAllPairs(t)| == |BrutePairs(GetAllValues(t))|
  {
    var m := GetAllValues(t);
    forall a, b
      ensures Both(FindAllPairs(t), a, b) == Both(multiset(BrutePairs(m)), a, b)
    {
      TreeMatchesBrute(t, a, b);
    }
    SameCountsSameSize(FindAllPairs(t), BrutePairs(m));
  }
}
