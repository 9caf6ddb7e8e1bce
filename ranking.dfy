/**
 * The ranking step of the search handler (`post_search`): score every name
 * of the corpus, keep those closer than the threshold in corpus order, sort
 * them stably by distance and return the first ten.
 *
 * A `Hit` carries the corpus position of its name beside the name and the
 * distance, so that the order among equal distances can be stated. The
 * reference answer `Ranking` lists the kept hits distance class by distance
 * class (0, then 1, then 2), each class in corpus order, and cuts the list
 * after ten; `Search` sorts in place and is proved to return exactly that.
 */
module SearchEngine {
  import opened Distance
  import opened TokenMatcher

  /** A name is kept when its score is below this. */
  const THRESHOLD: nat := 3

  /** At most this many hits are returned. */
  const MAX_RESULTS: nat := 10

  /** One result: the name, its score and its position in the corpus. */
  datatype Hit = Hit(name: seq<byte>, distance: nat, index: nat)

  /** The scoring and filtering pass over `corpus[from..]`: one hit per name
      that scores below the threshold, in corpus order. */
  function CandidatesFrom(query: seq<byte>, corpus: seq<seq<byte>>, from: nat): (hits: seq<Hit>)
    requires from <= |corpus|
    ensures forall k :: 0 <= k < |hits| ==>
              from <= hits[k].index < |corpus| && hits[k].name == corpus[hits[k].index]
              && hits[k].distance == FuzzyMatch(query, hits[k].name) && hits[k].distance < THRESHOLD
    ensures IndexIncreasing(hits)
    ensures forall i :: from <= i < |corpus| && FuzzyMatch(query, corpus[i]) < THRESHOLD ==>
              Hit(corpus[i], FuzzyMatch(query, corpus[i]), i) in hits
    decreases |corpus| - from
  {
    if from == |corpus| then []
    else
      var d := FuzzyMatch(query, corpus[from]);
      var rest := CandidatesFrom(query, corpus, from + 1);
      if d < THRESHOLD then [Hit(corpus[from], d, from)] + rest else rest
  }

  /** The `filter_map` and `collect` of the whole corpus. */
  function Candidates(query: seq<byte>, corpus: seq<seq<byte>>): seq<Hit> {
    CandidatesFrom(query, corpus, 0)
  }

  predicate IndexIncreasing(s: seq<Hit>) {
    forall k, l :: 0 <= k < l < |s| ==> s[k].index < s[l].index
  }

  predicate SortedByDistance(s: seq<Hit>) {
    forall k, l :: 0 <= k < l < |s| ==> s[k].distance <= s[l].distance
  }

  /** `x` ranks before `y`: a smaller distance, or the same distance and an
      earlier corpus position. */
  predicate Precedes(x: Hit, y: Hit) {
    x.distance < y.distance || (x.distance == y.distance && x.index < y.index)
  }

  predicate Ordered(s: seq<Hit>) {
    forall k, l :: 0 <= k < l < |s| ==> Precedes(s[k], s[l])
  }

  /** The hits of `s` at distance `d`, in their order in `s`. */
  function WithDistance(s: seq<Hit>, d: nat): seq<Hit> {
    if s == [] then []
    else if s[0].distance == d then [s[0]] + WithDistance(s[1..], d)
    else WithDistance(s[1..], d)
  }

  /** Two sequences with the same hits at every distance, in the same order. */
  ghost predicate SameClasses(s: seq<Hit>, t: seq<Hit>) {
    forall d :: WithDistance(s, d) == WithDistance(t, d)
  }

  /** The distance classes `k`, `k + 1`, ... below the threshold, one after
      the other. */
  function ByDistanceFrom(s: seq<Hit>, k: nat): seq<Hit>
    decreases THRESHOLD - k
  {
    if k >= THRESHOLD then [] else WithDistance(s, k) + ByDistanceFrom(s, k + 1)
  }

  /** The answer to a query: the kept hits by distance, ties in corpus
      order, cut after `MAX_RESULTS`. */
  function Ranking(query: seq<byte>, corpus: seq<seq<byte>>): seq<Hit> {
    var all := ByDistanceFrom(Candidates(query, corpus), 0);
    if |all| <= MAX_RESULTS then all else all[..MAX_RESULTS]
  }

  /** A class holds exactly the hits at its distance. */
  lemma {:induction false} WithDistanceMembers(s: seq<Hit>, d: nat)
    ensures forall x :: x in WithDistance(s, d) <==> x in s && x.distance == d
    decreases |s|
  {
    if s != [] {
      WithDistanceMembers(s[1..], d);
      assert s == [s[0]] + s[1..];
    }
  }

  /** The class layout from `k` on holds exactly the hits whose distance
      lies between `k` and the threshold. */
  lemma {:induction false} ByDistanceMembers(s: seq<Hit>, k: nat)
    ensures forall x :: x in ByDistanceFrom(s, k) <==> x in s && k <= x.distance < THRESHOLD
    decreases THRESHOLD - k
  {
    if k < THRESHOLD {
      WithDistanceMembers(s, k);
      ByDistanceMembers(s, k + 1);
    }
  }

  lemma {:induction false} WithDistanceAppend(u: seq<Hit>, v: seq<Hit>, d: nat)
    ensures WithDistance(u + v, d) == WithDistance(u, d) + WithDistance(v, d)
    decreases |u|
  {
    if u == [] {
      assert u + v == v;
    } else {
      assert (u + v)[0] == u[0] && (u + v)[1..] == u[1..] + v;
      WithDistanceAppend(u[1..], v, d);
    }
  }

  /** Exchanging two neighbours at different distances changes no class. */
  lemma SwapKeepsClasses(s: seq<Hit>, j: int)
    requires 0 < j < |s| && s[j - 1].distance != s[j].distance
    ensures SameClasses(s[j - 1 := s[j]][j := s[j - 1]], s)
  {
    var t := s[j - 1 := s[j]][j := s[j - 1]];
    var p, q := s[..j - 1], s[j + 1..];
    assert s == p + [s[j - 1], s[j]] + q;
    assert t == p + [s[j], s[j - 1]] + q;
    forall d: nat
      ensures WithDistance(t, d) == WithDistance(s, d)
    {
      WithDistanceAppend(p + [s[j - 1], s[j]], q, d);
      WithDistanceAppend(p, [s[j - 1], s[j]], d);
      WithDistanceAppend(p + [s[j], s[j - 1]], q, d);
      WithDistanceAppend(p, [s[j], s[j - 1]], d);
      assert [s[j - 1], s[j]][1..] == [s[j]];
      assert [s[j], s[j - 1]][1..] == [s[j - 1]];
    }
  }

  /** A class keeps every copy of each of its hits. */
  lemma {:induction false} WithDistanceCount(s: seq<Hit>, x: Hit)
    ensures multiset(WithDistance(s, x.distance))[x] == multiset(s)[x]
    decreases |s|
  {
    if s != [] {
      WithDistanceCount(s[1..], x);
      assert s == [s[0]] + s[1..];
    }
  }

  /** Equal classes make a permutation. */
  lemma SameClassesPermutation(s: seq<Hit>, t: seq<Hit>)
    requires SameClasses(s, t)
    ensures multiset(s) == multiset(t)
  {
    forall x: Hit
      ensures multiset(s)[x] == multiset(t)[x]
    {
      WithDistanceCount(s, x);
      WithDistanceCount(t, x);
    }
  }

  /**
   * One step of the insertion sort: `a[..i]` is sorted, and `a[i]` moves
   * left past the hits with a strictly larger distance, never past an
   * equal one.
   */
  method InsertAt(a: array<Hit>, i: int)
    requires 0 <= i < a.Length && SortedByDistance(a[..i])
    modifies a
    ensures SortedByDistance(a[..i + 1])
    ensures SameClasses(a[..], old(a[..]))
    ensures a[i + 1..] == old(a[i + 1..])
  {
    ghost var orig := a[..];
    var j := i;
    while j > 0 && a[j - 1].distance > a[j].distance
      invariant 0 <= j <= i
      invariant a[i + 1..] == orig[i + 1..]
      invariant forall k, l :: 0 <= k < l <= i && k != j && l != j ==> a[k].distance <= a[l].distance
      invariant forall l :: j < l <= i ==> a[j].distance < a[l].distance
      invariant SameClasses(a[..], orig)
    {
      ghost var before := a[..];
      SwapKeepsClasses(before, j);
      a[j - 1], a[j] := a[j], a[j - 1];
      assert a[..] == before[j - 1 := before[j]][j := before[j - 1]];
      j := j - 1;
    }
  }

  /**
   * The source's `sort_by_key` on the distance, as an insertion sort. The
   * result is sorted, every distance class keeps its order (the sort is
   * stable), and it is a permutation of the input.
   */
  method SortByDistance(a: array<Hit>)
    modifies a
    ensures SortedByDistance(a[..])
    ensures SameClasses(a[..], old(a[..]))
    ensures multiset(a[..]) == multiset(old(a[..]))
  {
    ghost var orig := a[..];
    for i := 0 to a.Length
      invariant SortedByDistance(a[..i])
      invariant SameClasses(a[..], orig)
    {
      InsertAt(a, i);
    }
    assert a[..a.Length] == a[..];
    SameClassesPermutation(a[..], orig);
  }

  /** A permutation of hits below the threshold is below the threshold. */
  lemma PermutationKeepsBound(s: seq<Hit>, t: seq<Hit>)
    requires multiset(s) == multiset(t)
    requires forall p :: 0 <= p < |t| ==> t[p].distance < THRESHOLD
    ensures forall p :: 0 <= p < |s| ==> s[p].distance < THRESHOLD
  {
    forall p | 0 <= p < |s|
      ensures s[p].distance < THRESHOLD
    {
      assert s[p] in multiset(t);
    }
  }

  /** A class drawn from hits in corpus order is in corpus order. */
  lemma {:induction false} WithDistanceIncreasing(s: seq<Hit>, d: nat)
    requires IndexIncreasing(s)
    ensures IndexIncreasing(WithDistance(s, d))
    decreases |s|
  {
    if s != [] {
      WithDistanceIncreasing(s[1..], d);
      WithDistanceMembers(s[1..], d);
      forall x | x in WithDistance(s[1..], d)
        ensures s[0].index < x.index
      {
        var l :| 0 <= l < |s[1..]| && s[1..][l] == x;
        assert s[l + 1] == x;
      }
    }
  }

  /** The classes of hits in corpus order, laid out one after the other,
      are ordered by distance and then by position. */
  lemma {:induction false} ByDistanceOrdered(s: seq<Hit>, k: nat)
    requires IndexIncreasing(s)
    ensures Ordered(ByDistanceFrom(s, k))
    decreases THRESHOLD - k
  {
    if k < THRESHOLD {
      var u, v := WithDistance(s, k), ByDistanceFrom(s, k + 1);
      WithDistanceIncreasing(s, k);
      WithDistanceMembers(s, k);
      ByDistanceOrdered(s, k + 1);
      ByDistanceMembers(s, k + 1);
      forall p, q | 0 <= p < q < |u + v|
        ensures Precedes((u + v)[p], (u + v)[q])
      {
        if q < |u| {
          assert u[p] in u && u[q] in u;
        } else if p < |u| {
          assert u[p] in u && v[q - |u|] in v;
        }
      }
    }
  }

  /** A hit below the class range is invisible to it. */
  lemma {:induction false} ByDistanceSkip(x: Hit, r: seq<Hit>, k: nat)
    requires x.distance < k
    ensures ByDistanceFrom([x] + r, k) == ByDistanceFrom(r, k)
    decreases THRESHOLD - k
  {
    if k < THRESHOLD {
      assert ([x] + r)[0] == x && ([x] + r)[1..] == r;
      ByDistanceSkip(x, r, k + 1);
    }
  }

  /** A class that no hit belongs to is empty. */
  lemma WithDistanceAbsent(s: seq<Hit>, d: nat)
    requires forall k :: 0 <= k < |s| ==> s[k].distance != d
    ensures WithDistance(s, d) == []
  {
  }

  /** A hit at distance `k` in front of a class layout from `k` on joins
      the first class. */
  lemma ClassHeadStep(t: seq<Hit>, k: nat)
    requires t != [] && t[0].distance == k < THRESHOLD
    requires t[1..] == ByDistanceFrom(t[1..], k)
    ensures t == ByDistanceFrom(t, k)
  {
    var r := t[1..];
    assert t == [t[0]] + r;
    ByDistanceSkip(t[0], r, k + 1);
    assert WithDistance(t, k) == [t[0]] + WithDistance(r, k);
  }

  /**
   * A sorted sequence whose distances lie in `[k, THRESHOLD)` is its own
   * classes laid out in order: the stably sorted order is unique.
   */
  lemma {:induction false} SortedIsByDistance(t: seq<Hit>, k: nat)
    requires SortedByDistance(t)
    requires forall p :: 0 <= p < |t| ==> k <= t[p].distance < THRESHOLD
    ensures t == ByDistanceFrom(t, k)
    decreases |t|, THRESHOLD - k
  {
    if t == [] {
      if k < THRESHOLD {
        SortedIsByDistance(t, k + 1);
      }
    } else if t[0].distance == k {
      SortedTail(t, k);
      SortedIsByDistance(t[1..], k);
      ClassHeadStep(t, k);
    } else {
      SortedAboveHead(t, k);
      SortedIsByDistance(t, k + 1);
    }
  }

  /** The tail of a sorted sequence is sorted, within the same bounds. */
  lemma SortedTail(t: seq<Hit>, k: nat)
    requires t != [] && SortedByDistance(t)
    requires forall p :: 0 <= p < |t| ==> k <= t[p].distance < THRESHOLD
    ensures SortedByDistance(t[1..])
    ensures forall p :: 0 <= p < |t[1..]| ==> k <= t[1..][p].distance < THRESHOLD
  {
  }

  /** A sorted sequence whose head is past distance `k` has nothing at
      distance `k`. */
  lemma SortedAboveHead(t: seq<Hit>, k: nat)
    requires t != [] && SortedByDistance(t) && k < t[0].distance
    requires forall p :: 0 <= p < |t| ==> k <= t[p].distance < THRESHOLD
    ensures forall p :: 0 <= p < |t| ==> k + 1 <= t[p].distance < THRESHOLD
    ensures WithDistance(t, k) == []
  {
    WithDistanceAbsent(t, k);
  }

  /** Sequences with the same classes have the same class layout. */
  lemma {:induction false} ByDistanceSameClasses(s: seq<Hit>, t: seq<Hit>, k: nat)
    requires SameClasses(s, t)
    ensures ByDistanceFrom(s, k) == ByDistanceFrom(t, k)
    decreases THRESHOLD - k
  {
    if k < THRESHOLD {
      assert WithDistance(s, k) == WithDistance(t, k);
      ByDistanceSameClasses(s, t, k + 1);
    }
  }

  /**
   * The ranking step of `post_search`: collect the candidates into a
   * buffer, sort it in place by distance, and return its first
   * `MAX_RESULTS` entries.
   */
  method Search(query: seq<byte>, corpus: seq<seq<byte>>) returns (hits: seq<Hit>)
    ensures hits == Ranking(query, corpus)
  {
    var found := Candidates(query, corpus);
    var results := new Hit[|found|](k requires 0 <= k < |found| => found[k]);
    assert results[..] == found;
    SortByDistance(results);
    PermutationKeepsBound(results[..], found);
    SortedIsByDistance(results[..], 0);
    ByDistanceSameClasses(results[..], found, 0);
    if results.Length <= MAX_RESULTS {
      hits := results[..];
    } else {
      hits := results[..MAX_RESULTS];
    }
  }

  /** Every hit names a corpus entry, carries that entry's score, and the
      score is below the threshold; there are at most `MAX_RESULTS`. */
  lemma RankingSound(query: seq<byte>, corpus: seq<seq<byte>>)
    ensures |Ranking(query, corpus)| <= MAX_RESULTS
    ensures forall h :: h in Ranking(query, corpus) ==>
              h.index < |corpus| && h.name == corpus[h.index]
              && h.distance == FuzzyMatch(query, h.name) && h.distance < THRESHOLD
  {
    var all := ByDistanceFrom(Candidates(query, corpus), 0);
    ByDistanceMembers(Candidates(query, corpus), 0);
    forall h | h in Ranking(query, corpus)
      ensures h in Candidates(query, corpus)
    {
      assert h in all;
    }
  }

  /** The hits are in ascending distance, equal distances in corpus order. */
  lemma RankingOrdered(query: seq<byte>, corpus: seq<seq<byte>>)
    ensures Ordered(Ranking(query, corpus))
  {
    ByDistanceOrdered(Candidates(query, corpus), 0);
  }

  /** Cutting an ordered sequence after `n` entries keeps a given entry,
      or keeps `n` entries that all rank before it. */
  lemma OrderedCut(all: seq<Hit>, h: Hit, n: nat)
    requires Ordered(all) && h in all
    ensures var cut := if |all| <= n then all else all[..n];
            h in cut || (|cut| == n && forall x :: x in cut ==> Precedes(x, h))
  {
    var p :| 0 <= p < |all| && all[p] == h;
    if p < n {
      assert (if |all| <= n then all else all[..n])[p] == h;
    } else {
      forall x | x in all[..n]
        ensures Precedes(x, h)
      {
        var q :| 0 <= q < n && all[..n][q] == x;
      }
    }
  }

  /**
   * No entry that scores below the threshold is left out, unless the answer
   * is full and every hit in it ranks before that entry.
   */
  lemma RankingComplete(query: seq<byte>, corpus: seq<seq<byte>>, i: nat)
    requires i < |corpus| && FuzzyMatch(query, corpus[i]) < THRESHOLD
    ensures var h := Hit(corpus[i], FuzzyMatch(query, corpus[i]), i);
            h in Ranking(query, corpus)
            || (|Ranking(query, corpus)| == MAX_RESULTS
                && forall x :: x in Ranking(query, corpus) ==> Precedes(x, h))
  {
    var found := Candidates(query, corpus);
    ByDistanceOrdered(found, 0);
    ByDistanceMembers(found, 0);
    OrderedCut(ByDistanceFrom(found, 0), Hit(corpus[i], FuzzyMatch(query, corpus[i]), i), MAX_RESULTS);
  }

  /** An entry at the head of the corpus that scores 0 heads the answer. */
  lemma RankingExactFirst(query: seq<byte>, corpus: seq<seq<byte>>)
    requires corpus != [] && FuzzyMatch(query, corpus[0]) == 0
    ensures Ranking(query, corpus) != [] && Ranking(query, corpus)[0] == Hit(corpus[0], 0, 0)
  {
    var found := Candidates(query, corpus);
    assert found == [Hit(corpus[0], 0, 0)] + CandidatesFrom(query, corpus, 1);
    assert WithDistance(found, 0)[0] == Hit(corpus[0], 0, 0);
  }

  /** A one-name corpus answers with that name when it scores below the
      threshold, and with nothing otherwise. */
  lemma RankingSingleName(query: seq<byte>, name: seq<byte>)
    ensures FuzzyMatch(query, name) < THRESHOLD
        ==> Ranking(query, [name]) == [Hit(name, FuzzyMatch(query, name), 0)]
    ensures FuzzyMatch(query, name) >= THRESHOLD ==> Ranking(query, [name]) == []
  {
    if FuzzyMatch(query, name) < THRESHOLD {
      var h := Hit(name, FuzzyMatch(query, name), 0);
      assert CandidatesFrom(query, [name], 1) == [];
      assert Candidates(query, [name]) == [h];
      SortedIsByDistance([h], 0);
    } else {
      RankingEmptyIff(query, [name]);
    }
  }

  /** The answer is empty exactly when no entry scores below the threshold. */
  lemma RankingEmptyIff(query: seq<byte>, corpus: seq<seq<byte>>)
    ensures Ranking(query, corpus) == []
        <==> forall i :: 0 <= i < |corpus| ==> FuzzyMatch(query, corpus[i]) >= THRESHOLD
  {
    if Ranking(query, corpus) != [] {
      RankingSound(query, corpus);
      var h := Ranking(query, corpus)[0];
      assert h in Ranking(query, corpus);
    } else {
      forall i | 0 <= i < |corpus|
        ensures FuzzyMatch(query, corpus[i]) >= THRESHOLD
      {
        if FuzzyMatch(query, corpus[i]) < THRESHOLD {
          RankingComplete(query, corpus, i);
        }
      }
    }
  }
}
