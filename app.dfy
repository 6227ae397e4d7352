/**
 * The program's `state` object (app.js:1-7) as a session, with the
 * operations that read or change it: loadData's guard-then-assign
 * (app.js:368-372), getSimilar (app.js:129-141), getGroupSuggestions
 * (app.js:143-179), toggleBasket (app.js:205-210) and the basket clear
 * (app.js:453).
 */
module App {
  import opened Wrappers
  import opened Host
  import opened Similarity
  import opened Ranking
  import opened Matrix
  import Csv

  // ---------------------------------------------------------------------------
  // The basket. A JavaScript Set iterates in insertion order, and
  // getGroupSuggestions sums scores in that order, so the basket is a
  // sequence without repetitions: `add` appends, `delete` removes in place.

  ghost predicate Distinct(s: seq<nat>)
  {
    forall i, j :: 0 <= i < j < |s| ==> s[i] != s[j]
  }

  /** `Set.prototype.delete` */
  function Without(b: seq<nat>, x: nat): (r: seq<nat>)
    ensures forall k :: k in r <==> k in b && k != x
    ensures Distinct(b) ==> Distinct(r)
    ensures x !in b ==> r == b
  {
    if b == [] then []
    else if b[0] == x then Without(b[1..], x)
    else
      var rest := Without(b[1..], x);
      assert Distinct(b) ==> Distinct(b[1..]) && b[0] !in b[1..];
      assert forall k :: k in rest ==> k in b[1..];
      [b[0]] + rest
  }

  /** toggleBasket's effect on the basket: delete `x` when present, add it otherwise. */
  function Toggled(b: seq<nat>, x: nat): seq<nat>
  {
    if x in b then Without(b, x) else b + [x]
  }

  lemma {:induction false} WithoutAppended(b: seq<nat>, x: nat)
    requires x !in b
    ensures Without(b + [x], x) == b
  {
    if b == [] {
      assert [] + [x] == [x];
      assert [x][1..] == [];
    } else {
      assert (b + [x])[0] == b[0];
      assert (b + [x])[1..] == b[1..] + [x];
      assert b[0] in b;
      assert x !in b[1..] by {
        assert forall k :: 0 <= k < |b| - 1 ==> b[1..][k] == b[k + 1];
      }
      WithoutAppended(b[1..], x);
      assert [b[0]] + b[1..] == b;
    }
  }

  /** Toggling flips the membership of `x` and of nothing else, and keeps the basket free of repetitions. */
  lemma ToggleFlipsMembership(b: seq<nat>, x: nat)
    requires Distinct(b)
    ensures forall k :: k in Toggled(b, x) <==> (k in b) != (k == x)
    ensures Distinct(Toggled(b, x))
  {
  }

  /**
   * Toggling twice restores the members of the basket; when `x` was absent it
   * restores the basket exactly (when `x` was present it moves to the end).
   */
  lemma ToggleTwiceRestores(b: seq<nat>, x: nat)
    requires Distinct(b)
    ensures forall k :: k in Toggled(Toggled(b, x), x) <==> k in b
    ensures x !in b ==> Toggled(Toggled(b, x), x) == b
  {
    if x !in b {
      assert x in b + [x];
      WithoutAppended(b, x);
    }
  }

  /** The members of a basket. */
  ghost function Elements(b: seq<nat>): set<nat>
  {
    set k | k in b
  }

  /** For a basket without repetitions, `basket.size` is its length. */
  lemma {:induction false} DistinctSize(b: seq<nat>)
    requires Distinct(b)
    ensures |Elements(b)| == |b|
  {
    if b != [] {
      var init, last := b[..|b| - 1], b[|b| - 1];
      assert Distinct(init);
      DistinctSize(init);
      assert b == init + [last];
      assert forall k :: k in b <==> k in init || k == last;
      assert Elements(b) == Elements(init) + {last};
      assert last !in init;
      assert last !in Elements(init);
    }
  }

  /**
   * getGroupSuggestions' work for one candidate `i` outside the basket
   * (app.js:151-175): tally the basket members it has a positive score with
   * and, when there is at least one, build its entry.
   */
  method ScoreCandidate(vectors: seq<seq<real>>, selections: seq<nat>, i: nat, rt: Runtime) returns (e: Option<Entry>)
    requires i < |vectors| && InRange(selections, vectors) && |selections| > 0
    ensures Support(vectors, selections, i, rt) == 0 ==> e == None
    ensures Support(vectors, selections, i, rt) > 0 ==> e == Some(SuggestionOf(vectors, selections, i, rt))
  {
    var sum, count: nat, overlapTotal: nat := 0.0, 0, 0;
    var k := 0;
    while k < |selections|
      invariant 0 <= k <= |selections|
      invariant Tally(sum, count, overlapTotal) == TallyOf(vectors, selections, i, rt, k)
    {
      var sim := Similarity.Similarity(vectors[i], vectors[selections[k]], rt);
      TallyStep(vectors, selections, i, rt, k, sim);
      if sim.score > 0.0 {
        sum := sum + sim.score;
        count := count + 1;
        overlapTotal := overlapTotal + sim.overlap;
      }
      k := k + 1;
    }
    if count == 0 {
      return None;
    }
    var score := GroupScore(sum, count, |selections|, rt);
    QuotientNonNegative(overlapTotal, count);
    e := Some(Suggestion(i, score, JsRound(overlapTotal as real / count as real), count));
  }

  // ---------------------------------------------------------------------------
  // The session

  class Session {
    var ingredients: seq<string>
    var features: seq<string>
    var vectors: seq<seq<real>>
    var basket: seq<nat>
    /** The runtime's Math.sqrt, Math.pow and Number.parseFloat. */
    const rt: Runtime

    /** One vector per ingredient, one value per feature, and no basket member twice. */
    ghost predicate Valid()
      reads this
    {
      && |vectors| == |ingredients|
      && (forall k :: 0 <= k < |vectors| ==> |vectors[k]| == |features|)
      && Distinct(basket)
    }

    /** The members of `state.basket`. */
    ghost function Members(): set<nat>
      reads this
    {
      Elements(basket)
    }

    constructor (rt: Runtime)
      ensures Valid() && this.rt == rt
      ensures ingredients == [] && features == [] && vectors == [] && basket == []
    {
      this.rt := rt;
      ingredients, features, vectors, basket := [], [], [], [];
    }

    /**
     * buildData runs first and throws before any field is assigned, so a load
     * that fails changes nothing; a load that succeeds replaces the dataset
     * and keeps the basket.
     */
    method LoadData(text: string) returns (res: Result<Dataset, LoadError>)
      requires Valid()
      modifies this`ingredients, this`features, this`vectors
      ensures Valid()
      ensures res.Failure? <==> |Csv.Parse(text)| < 2
      ensures res.Failure? ==>
        ingredients == old(ingredients) && features == old(features) && vectors == old(vectors)
      ensures res.Success? ==> Tabulates(res.value, Csv.Parse(text), rt)
      ensures res.Success? ==>
        ingredients == res.value.ingredients && features == res.value.features && vectors == res.value.vectors
      ensures basket == old(basket)
    {
      res := BuildData(text, rt);
      if res.Failure? {
        return;
      }
      ingredients := res.value.ingredients;
      features := res.value.features;
      vectors := res.value.vectors;
    }

    /**
     * The ingredients most similar to `index`: never `index` itself, only
     * positive scores, each index once, best first with ties by ascending
     * index, at most `limit` of them, and no better candidate left out.
     */
    method GetSimilar(index: nat, limit: nat := MaxResults) returns (r: seq<Entry>)
      requires Valid() && index < |vectors|
      ensures TopMatches(vectors, index, rt, limit, r)
    {
      var vs := vectors;
      var target := vs[index];
      ghost var candidate := MatchCandidates(vs, index, rt);
      var results: seq<Entry> := [];
      var i := 0;
      while i < |ingredients|
        invariant 0 <= i <= |vs|
        invariant results == Pushed(candidate, i)
      {
        PushedStep(candidate, i);
        assert candidate(i) == MatchCandidate(vs, index, rt, i);
        if i != index {
          var sim := Similarity.Similarity(target, vs[i], rt);
          if sim.score > 0.0 {
            results := results + [Match(i, sim.score, sim.overlap)];
          }
        }
        i := i + 1;
      }
      assert i == |vs| && results == Pushed(MatchCandidates(vs, index, rt), |vs|);
      MatchesPushed(vs, index, rt);
      r := Rank(results, limit);
      RankMatches(vs, index, rt, limit, r);
      assert vs == vectors;
    }

    /**
     * Suggestions for the whole basket: nothing for an empty basket, never a
     * basket member, only candidates that some member supports (with their
     * support between 1 and the basket's size), best first with ties by
     * ascending index, at most `limit` of them, and no better candidate left out.
     */
    method GetGroupSuggestions(limit: nat := MaxResults) returns (r: seq<Entry>)
      requires Valid() && InRange(basket, vectors)
      ensures basket == [] ==> r == []
      ensures TopSuggestions(vectors, basket, rt, limit, r)
      ensures forall k :: 0 <= k < |r| ==> 1 <= r[k].support <= |Members()|
    {
      var selections := basket;
      if |selections| == 0 {
        return [];
      }
      var vs := vectors;
      ghost var candidate := SuggestionCandidates(vs, selections, rt);
      var results: seq<Entry> := [];
      var i := 0;
      while i < |ingredients|
        invariant 0 <= i <= |vs|
        invariant results == Pushed(candidate, i)
      {
        PushedStep(candidate, i);
        assert candidate(i) == SuggestionCandidate(vs, selections, rt, i);
        if i !in selections {
          var e := ScoreCandidate(vs, selections, i, rt);
          if e.Some? {
            results := results + [e.value];
          }
        }
        i := i + 1;
      }
      assert i == |vs| && results == Pushed(SuggestionCandidates(vs, selections, rt), |vs|);
      SuggestionsPushed(vs, selections, rt);
      r := Rank(results, limit);
      RankSuggestions(vs, selections, rt, limit, r);
      DistinctSize(selections);
      assert vs == vectors && selections == basket;
    }

    method ToggleBasket(index: nat)
      requires Valid()
      modifies this`basket
      ensures Valid()
      ensures basket == Toggled(old(basket), index)
      ensures forall k :: k in Members() <==> (k in old(Members())) != (k == index)
    {
      if index in basket {
        basket := Without(basket, index);
      } else {
        basket := basket + [index];
      }
      ToggleFlipsMembership(old(basket), index);
    }

    /** `state.basket.clear()` */
    method ClearBasket()
      requires Valid()
      modifies this`basket
      ensures Valid()
      ensures basket == [] && Members() == {}
    {
      basket := [];
    }
  }
}
