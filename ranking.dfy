/**
 * The two rankers, getSimilar (app.js:129-141) and getGroupSuggestions
 * (app.js:143-179): what they push, how `results.sort((a, b) => b.score - a.score)`
 * orders it, and what `results.slice(0, limit)` keeps.
 */
module Ranking {
  import opened Wrappers
  import opened Host
  import opened Similarity

  /** A result object: `{ index, score, overlap }` or `{ index, score, overlap, support }`. */
  datatype Entry =
    | Match(index: nat, score: real, overlap: nat)
    | Suggestion(index: nat, score: real, overlap: nat, support: nat)

  // ---------------------------------------------------------------------------
  // Sorting and truncation

  /** `x` comes before `y` in a sorted result: a higher score, or the same score and a lower index. */
  predicate Before(x: Entry, y: Entry)
  {
    x.score > y.score || (x.score == y.score && x.index < y.index)
  }

  /** Scores never increase, and equal scores appear in ascending index order. */
  ghost predicate Ranked(s: seq<Entry>)
  {
    forall i, j :: 0 <= i < j < |s| ==> Before(s[i], s[j])
  }

  ghost predicate IndexAscending(s: seq<Entry>)
  {
    forall i, j :: 0 <= i < j < |s| ==> s[i].index < s[j].index
  }

  /**
   * `Array.prototype.sort` with the comparator `b.score - a.score`. The sort is
   * stable (ECMAScript 2019 and later), so entries pushed in ascending index
   * order come out by descending score with ties in ascending index. Any
   * stable sort gives this order; this one inserts each entry after every
   * entry whose score is not lower.
   */
  method SortByScore(s: seq<Entry>) returns (r: seq<Entry>)
    requires IndexAscending(s)
    ensures multiset(r) == multiset(s)
    ensures Ranked(r)
  {
    r := [];
    var i := 0;
    while i < |s|
      invariant 0 <= i <= |s|
      invariant multiset(r) == multiset(s[..i])
      invariant Ranked(r)
      invariant forall k, j :: 0 <= k < |r| && i <= j < |s| ==> r[k].index < s[j].index
    {
      assert s[..i + 1] == s[..i] + [s[i]];
      r := InsertByScore(r, s[i]);
      i := i + 1;
    }
    assert s[..i] == s;
  }

  /** One step of the sort: `x` goes after every entry whose score is not lower than its own. */
  method InsertByScore(r: seq<Entry>, x: Entry) returns (t: seq<Entry>)
    requires Ranked(r)
    requires forall k :: 0 <= k < |r| ==> r[k].index < x.index
    ensures Ranked(t)
    ensures multiset(t) == multiset(r) + multiset{x}
    ensures forall k :: 0 <= k < |t| ==> t[k] == x || t[k] in r
  {
    var p := 0;
    while p < |r| && r[p].score >= x.score
      invariant 0 <= p <= |r|
      invariant forall k :: 0 <= k < p ==> r[k].score >= x.score
    {
      p := p + 1;
    }
    InsertKeepsRanked(r, p, x);
    InsertKeepsElements(r, p, x);
    t := r[..p] + [x] + r[p..];
  }

  lemma InsertKeepsElements(r: seq<Entry>, p: nat, x: Entry)
    requires p <= |r|
    ensures multiset(r[..p] + [x] + r[p..]) == multiset(r) + multiset{x}
    ensures forall e :: e in r[..p] + [x] + r[p..] ==> e == x || e in r
  {
    assert r == r[..p] + r[p..];
  }

  lemma InsertKeepsRanked(r: seq<Entry>, p: nat, x: Entry)
    requires Ranked(r) && p <= |r|
    requires forall k :: 0 <= k < p ==> r[k].score >= x.score && r[k].index < x.index
    requires p < |r| ==> r[p].score < x.score
    ensures Ranked(r[..p] + [x] + r[p..])
  {
    var t := r[..p] + [x] + r[p..];
    forall i, j | 0 <= i < j < |t|
      ensures Before(t[i], t[j])
    {
      if j < p {
        assert t[i] == r[i] && t[j] == r[j];
      } else if j == p {
        assert t[i] == r[i] && t[j] == x;
      } else if i == p {
        assert t[j] == r[j - 1];
        assert p == j - 1 || Before(r[p], r[j - 1]);
      } else if i < p {
        assert t[i] == r[i] && t[j] == r[j - 1];
      } else {
        assert t[i] == r[i - 1] && t[j] == r[j - 1];
      }
    }
  }

  /** `results.slice(0, limit)` */
  function Take(s: seq<Entry>, limit: nat): (r: seq<Entry>)
    ensures |r| <= limit && |r| <= |s|
    ensures |r| == |s| || |r| == limit
    ensures forall k :: 0 <= k < |r| ==> r[k] == s[k]
  {
    if |s| <= limit then s else s[..limit]
  }

  /**
   * `r` holds the best entries of `candidates`, best first: at most `limit`
   * of them, all taken from `candidates`, and every entry left out comes
   * after every entry kept, and only when the limit is reached.
   */
  ghost predicate TopOf(r: seq<Entry>, candidates: seq<Entry>, limit: nat)
  {
    && |r| <= limit && Ranked(r)
    && (forall k :: 0 <= k < |r| ==> r[k] in candidates)
    && (forall e :: e in candidates && e !in r ==> |r| == limit && forall k :: 0 <= k < |r| ==> Before(r[k], e))
  }

  /** Sorting a list and truncating it keeps its `limit` best entries. */
  lemma TakeOfSorted(sorted: seq<Entry>, candidates: seq<Entry>, limit: nat)
    requires multiset(sorted) == multiset(candidates) && Ranked(sorted)
    ensures TopOf(Take(sorted, limit), candidates, limit)
  {
    var r := Take(sorted, limit);
    forall k | 0 <= k < |r|
      ensures r[k] in candidates
    {
      assert r[k] in multiset(sorted);
    }
    forall e | e in candidates && e !in r
      ensures |r| == limit && forall k :: 0 <= k < |r| ==> Before(r[k], e)
    {
      assert e in multiset(sorted);
      var q :| 0 <= q < |sorted| && sorted[q] == e;
      assert |r| <= q;
    }
  }

  /**
   * `results.sort((a, b) => b.score - a.score); return results.slice(0, limit);`
   * for a list pushed in ascending index order.
   */
  method Rank(results: seq<Entry>, limit: nat) returns (r: seq<Entry>)
    requires IndexAscending(results)
    ensures TopOf(r, results, limit)
  {
    var sorted := SortByScore(results);
    r := Take(sorted, limit);
    TakeOfSorted(sorted, results, limit);
  }

  /** In a ranked list whose entries are determined by their index, no index repeats. */
  lemma RankedIndicesDistinct(r: seq<Entry>)
    requires Ranked(r)
    requires forall k, l :: 0 <= k < |r| && 0 <= l < |r| && r[k].index == r[l].index ==> r[k] == r[l]
    ensures forall k, l :: 0 <= k < l < |r| ==> r[k].index != r[l].index
  {
  }

  // ---------------------------------------------------------------------------
  // The push loop both rankers share: candidate `j` contributes at most one
  // entry, and the entries are pushed in ascending candidate order.

  /** A candidate's entry, when it has one, carries the candidate's index. */
  ghost predicate Indexed(candidate: nat -> Option<Entry>)
  {
    forall j: nat :: candidate(j).Some? ==> candidate(j).value.index == j
  }

  /** The list pushed after looking at candidates 0 .. n-1. */
  function Pushed(candidate: nat -> Option<Entry>, n: nat): seq<Entry>
  {
    if n == 0 then []
    else
      match candidate(n - 1)
      case Some(e) => Pushed(candidate, n - 1) + [e]
      case None => Pushed(candidate, n - 1)
  }

  lemma PushedStep(candidate: nat -> Option<Entry>, n: nat)
    ensures Pushed(candidate, n + 1) == Pushed(candidate, n) + (if candidate(n).Some? then [candidate(n).value] else [])
  {
  }

  /** Every pushed entry is the entry of the candidate it names. */
  lemma {:induction false} PushedSound(candidate: nat -> Option<Entry>, n: nat)
    requires Indexed(candidate)
    ensures forall e :: e in Pushed(candidate, n) ==> e.index < n && candidate(e.index) == Some(e)
  {
    if n > 0 {
      PushedSound(candidate, n - 1);
      var prev := Pushed(candidate, n - 1);
      if candidate(n - 1).Some? {
        assert forall e :: e in prev + [candidate(n - 1).value] ==> e in prev || e == candidate(n - 1).value;
      }
    }
  }

  /** Every candidate that has an entry has it pushed. */
  lemma {:induction false} PushedComplete(candidate: nat -> Option<Entry>, n: nat)
    ensures forall j :: 0 <= j < n && candidate(j).Some? ==> candidate(j).value in Pushed(candidate, n)
  {
    if n > 0 {
      PushedComplete(candidate, n - 1);
    }
  }

  /** The pushed list is in ascending index order. */
  lemma {:induction false} PushedAscending(candidate: nat -> Option<Entry>, n: nat)
    requires Indexed(candidate)
    ensures IndexAscending(Pushed(candidate, n))
  {
    if n > 0 {
      PushedAscending(candidate, n - 1);
      PushedSound(candidate, n - 1);
      var prev := Pushed(candidate, n - 1);
      if candidate(n - 1).Some? {
        var c := prev + [candidate(n - 1).value];
        forall i, j | 0 <= i < j < |c|
          ensures c[i].index < c[j].index
        {
          if j == |prev| {
            assert c[i] in prev;
          }
        }
      }
    }
  }

  // ---------------------------------------------------------------------------
  // getSimilar

  /** The entry getSimilar builds for ingredient `j`. */
  function MatchOf(vectors: seq<seq<real>>, target: nat, j: nat, rt: Runtime): (e: Entry)
    requires target < |vectors| && j < |vectors|
    ensures e.Match? && e.index == j
  {
    var s := SimilarityOf(vectors[target], vectors[j], rt);
    Match(j, s.score, s.overlap)
  }

  /** getSimilar pushes ingredient `j`'s entry when it is not the target and its score is positive. */
  function MatchCandidate(vectors: seq<seq<real>>, target: nat, rt: Runtime, j: nat): (c: Option<Entry>)
    requires target < |vectors|
    ensures c.Some? ==> c.value.index == j
  {
    if j < |vectors| && j != target && MatchOf(vectors, target, j, rt).score > 0.0
    then Some(MatchOf(vectors, target, j, rt))
    else None
  }

  /** getSimilar's candidates, one per ingredient. */
  function MatchCandidates(vectors: seq<seq<real>>, target: nat, rt: Runtime): nat -> Option<Entry>
    requires target < |vectors|
  {
    (j: nat) => MatchCandidate(vectors, target, rt, j)
  }

  /**
   * What getSimilar pushes: the entries of exactly the other ingredients with
   * a positive score, in ascending index order.
   */
  lemma MatchesPushed(vectors: seq<seq<real>>, target: nat, rt: Runtime)
    requires target < |vectors|
    ensures var c := Pushed(MatchCandidates(vectors, target, rt), |vectors|);
      && IndexAscending(c)
      && (forall e :: e in c ==>
        e.index < |vectors| && e.index != target && e == MatchOf(vectors, target, e.index, rt) && e.score > 0.0)
      && (forall j :: 0 <= j < |vectors| && j != target && MatchOf(vectors, target, j, rt).score > 0.0 ==>
        MatchOf(vectors, target, j, rt) in c)
  {
    var candidate := MatchCandidates(vectors, target, rt);
    assert Indexed(candidate);
    PushedAscending(candidate, |vectors|);
    PushedSound(candidate, |vectors|);
    PushedComplete(candidate, |vectors|);
    var c := Pushed(candidate, |vectors|);
    forall e | e in c
      ensures e.index < |vectors| && e.index != target && e == MatchOf(vectors, target, e.index, rt) && e.score > 0.0
    {
      assert candidate(e.index) == Some(e);
    }
    forall j | 0 <= j < |vectors| && j != target && MatchOf(vectors, target, j, rt).score > 0.0
      ensures MatchOf(vectors, target, j, rt) in c
    {
      assert candidate(j).Some?;
    }
  }

  /**
   * getSimilar's promise: at most `limit` entries, best first with ties by
   * ascending index, each the entry of a different ingredient other than the
   * target with a positive score, and no such ingredient left out unless the
   * limit is reached and it ranks after every entry kept.
   */
  ghost predicate TopMatches(vectors: seq<seq<real>>, target: nat, rt: Runtime, limit: nat, r: seq<Entry>)
    requires target < |vectors|
  {
    && |r| <= limit && Ranked(r)
    && (forall k :: 0 <= k < |r| ==>
      && r[k].index < |vectors| && r[k].index != target
      && r[k] == MatchOf(vectors, target, r[k].index, rt) && r[k].score > 0.0)
    && (forall k, l :: 0 <= k < l < |r| ==> r[k].index != r[l].index)
    && (forall j :: (0 <= j < |vectors| && j != target && MatchOf(vectors, target, j, rt).score > 0.0
                     && MatchOf(vectors, target, j, rt) !in r) ==>
      |r| == limit && forall k :: 0 <= k < |r| ==> Before(r[k], MatchOf(vectors, target, j, rt)))
  }

  /** Ranking what getSimilar pushes keeps its promise. */
  lemma RankMatches(vectors: seq<seq<real>>, target: nat, rt: Runtime, limit: nat, r: seq<Entry>)
    requires target < |vectors|
    requires TopOf(r, Pushed(MatchCandidates(vectors, target, rt), |vectors|), limit)
    ensures TopMatches(vectors, target, rt, limit, r)
  {
    MatchesPushed(vectors, target, rt);
    var c := Pushed(MatchCandidates(vectors, target, rt), |vectors|);
    assert forall k :: 0 <= k < |r| ==> r[k] in c;
    RankedIndicesDistinct(r);
  }

  // ---------------------------------------------------------------------------
  // getGroupSuggestions

  /** The accumulators `sum`, `count` and `overlapTotal`. */
  datatype Tally = Tally(sum: real, count: nat, overlapTotal: nat)

  ghost predicate InRange(basket: seq<nat>, vectors: seq<seq<real>>)
  {
    forall k :: 0 <= k < |basket| ==> basket[k] < |vectors|
  }

  /** The accumulators for candidate `j` after the first `n` basket members. */
  function TallyOf(vectors: seq<seq<real>>, basket: seq<nat>, j: nat, rt: Runtime, n: nat): (t: Tally)
    requires j < |vectors| && n <= |basket| && InRange(basket, vectors)
    ensures t.count <= n
    ensures t.sum >= 0.0 && (t.count > 0 <==> t.sum > 0.0)
  {
    if n == 0 then Tally(0.0, 0, 0)
    else
      var t := TallyOf(vectors, basket, j, rt, n - 1);
      var s := SimilarityOf(vectors[j], vectors[basket[n - 1]], rt);
      if s.score > 0.0 then Tally(t.sum + s.score, t.count + 1, t.overlapTotal + s.overlap)
      else t
  }

  /** One more basket member: its similarity with `j` is added when it is positive. */
  lemma TallyStep(vectors: seq<seq<real>>, basket: seq<nat>, j: nat, rt: Runtime, n: nat, s: Sim)
    requires j < |vectors| && n < |basket| && InRange(basket, vectors)
    requires s == SimilarityOf(vectors[j], vectors[basket[n]], rt)
    ensures var t := TallyOf(vectors, basket, j, rt, n);
      TallyOf(vectors, basket, j, rt, n + 1)
        == if s.score > 0.0 then Tally(t.sum + s.score, t.count + 1, t.overlapTotal + s.overlap) else t
  {
  }

  /** Each counted overlap is at most the candidate's length, so their total is at most `count` times it. */
  lemma {:induction false} TallyOverlapBound(vectors: seq<seq<real>>, basket: seq<nat>, j: nat, rt: Runtime, n: nat)
    requires j < |vectors| && n <= |basket| && InRange(basket, vectors)
    ensures var t := TallyOf(vectors, basket, j, rt, n); t.overlapTotal <= t.count * |vectors[j]|
  {
    if n > 0 {
      TallyOverlapBound(vectors, basket, j, rt, n - 1);
      MultiplySuccessor(TallyOf(vectors, basket, j, rt, n - 1).count, |vectors[j]|);
    }
  }

  lemma MultiplySuccessor(m: nat, n: nat)
    ensures (m + 1) * n == m * n + n
  {
  }

  /** The number of basket members candidate `j` has a positive score with. */
  function Support(vectors: seq<seq<real>>, basket: seq<nat>, j: nat, rt: Runtime): nat
    requires j < |vectors| && InRange(basket, vectors)
  {
    TallyOf(vectors, basket, j, rt, |basket|).count
  }

  /** `Math.round`: the nearest integer, halves rounded up. */
  function JsRound(x: real): (r: int)
    ensures r as real <= x + 0.5 < r as real + 1.0
    ensures x >= 0.0 ==> r >= 0
  {
    (x + 0.5).Floor
  }

  lemma QuotientNonNegative(total: nat, count: nat)
    requires count > 0
    ensures total as real / count as real >= 0.0
  {
  }

  lemma AverageBound(total: nat, count: nat, bound: nat)
    requires count > 0 && total <= count * bound
    ensures 0.0 <= total as real / count as real <= bound as real
  {
    assert (total as real) <= (count as real) * (bound as real);
  }

  /** The average positive score damped by the fraction of the basket that supports the candidate. */
  function GroupScore(sum: real, count: nat, size: nat, rt: Runtime): (score: real)
    requires sum > 0.0 && 0 < count && 0 < size
    ensures score >= 0.0
  {
    var avg := sum / count as real;
    var coverage := count as real / size as real;
    NonNegativeScore(avg, rt.pow(coverage, CoverageExponent));
    avg * rt.pow(coverage, CoverageExponent)
  }

  /**
   * The entry getGroupSuggestions builds for candidate `j`: the group score,
   * the rounded average overlap, and the support.
   */
  function SuggestionOf(vectors: seq<seq<real>>, basket: seq<nat>, j: nat, rt: Runtime): (e: Entry)
    requires j < |vectors| && InRange(basket, vectors) && Support(vectors, basket, j, rt) > 0
    ensures e.Suggestion? && e.index == j
    ensures e.support == Support(vectors, basket, j, rt) && 1 <= e.support <= |basket|
    ensures e.score >= 0.0
    ensures e.overlap <= |vectors[j]|
  {
    var t := TallyOf(vectors, basket, j, rt, |basket|);
    TallyOverlapBound(vectors, basket, j, rt, |basket|);
    AverageBound(t.overlapTotal, t.count, |vectors[j]|);
    Suggestion(j, GroupScore(t.sum, t.count, |basket|, rt), JsRound(t.overlapTotal as real / t.count as real), t.count)
  }

  /** getGroupSuggestions pushes candidate `j`'s entry when it is outside the basket and some member supports it. */
  function SuggestionCandidate(vectors: seq<seq<real>>, basket: seq<nat>, rt: Runtime, j: nat): (c: Option<Entry>)
    requires InRange(basket, vectors)
    ensures c.Some? ==> c.value.index == j
  {
    if j < |vectors| && j !in basket && Support(vectors, basket, j, rt) > 0
    then Some(SuggestionOf(vectors, basket, j, rt))
    else None
  }

  /** getGroupSuggestions' candidates, one per ingredient. */
  function SuggestionCandidates(vectors: seq<seq<real>>, basket: seq<nat>, rt: Runtime): nat -> Option<Entry>
    requires InRange(basket, vectors)
  {
    (j: nat) => SuggestionCandidate(vectors, basket, rt, j)
  }

  /**
   * What getGroupSuggestions pushes: the entries of exactly the candidates
   * outside the basket that some member supports, in ascending index order.
   */
  lemma SuggestionsPushed(vectors: seq<seq<real>>, basket: seq<nat>, rt: Runtime)
    requires InRange(basket, vectors)
    ensures var c := Pushed(SuggestionCandidates(vectors, basket, rt), |vectors|);
      && IndexAscending(c)
      && (forall e :: e in c ==>
        && e.index < |vectors| && e.index !in basket
        && Support(vectors, basket, e.index, rt) > 0
        && e == SuggestionOf(vectors, basket, e.index, rt))
      && (forall j :: 0 <= j < |vectors| && j !in basket && Support(vectors, basket, j, rt) > 0 ==>
        SuggestionOf(vectors, basket, j, rt) in c)
  {
    var candidate := SuggestionCandidates(vectors, basket, rt);
    assert Indexed(candidate);
    PushedAscending(candidate, |vectors|);
    PushedSound(candidate, |vectors|);
    PushedComplete(candidate, |vectors|);
    var c := Pushed(candidate, |vectors|);
    forall e | e in c
      ensures e.index < |vectors| && e.index !in basket && Support(vectors, basket, e.index, rt) > 0
      ensures e == SuggestionOf(vectors, basket, e.index, rt)
    {
      assert candidate(e.index) == Some(e);
    }
    forall j | 0 <= j < |vectors| && j !in basket && Support(vectors, basket, j, rt) > 0
      ensures SuggestionOf(vectors, basket, j, rt) in c
    {
      assert candidate(j).Some?;
    }
  }

  /**
   * getGroupSuggestions' promise: at most `limit` entries, best first with
   * ties by ascending index, each the entry of a different candidate outside
   * the basket that some member supports, and no such candidate left out
   * unless the limit is reached and it ranks after every entry kept.
   */
  ghost predicate TopSuggestions(vectors: seq<seq<real>>, basket: seq<nat>, rt: Runtime, limit: nat, r: seq<Entry>)
    requires InRange(basket, vectors)
  {
    && |r| <= limit && Ranked(r)
    && (forall k :: 0 <= k < |r| ==>
      && r[k].index < |vectors| && r[k].index !in basket
      && Support(vectors, basket, r[k].index, rt) > 0
      && r[k] == SuggestionOf(vectors, basket, r[k].index, rt))
    && (forall k, l :: 0 <= k < l < |r| ==> r[k].index != r[l].index)
    && (forall j :: (0 <= j < |vectors| && j !in basket && Support(vectors, basket, j, rt) > 0
                     && SuggestionOf(vectors, basket, j, rt) !in r) ==>
      |r| == limit && forall k :: 0 <= k < |r| ==> Before(r[k], SuggestionOf(vectors, basket, j, rt)))
  }

  /** Ranking what getGroupSuggestions pushes keeps its promise. */
  lemma RankSuggestions(vectors: seq<seq<real>>, basket: seq<nat>, rt: Runtime, limit: nat, r: seq<Entry>)
    requires InRange(basket, vectors)
    requires TopOf(r, Pushed(SuggestionCandidates(vectors, basket, rt), |vectors|), limit)
    ensures TopSuggestions(vectors, basket, rt, limit, r)
  {
    SuggestionsPushed(vectors, basket, rt);
    var c := Pushed(SuggestionCandidates(vectors, basket, rt), |vectors|);
    assert forall k :: 0 <= k < |r| ==> r[k] in c;
    RankedIndicesDistinct(r);
  }
}
