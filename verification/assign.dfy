/** `get_best_matches`: smoothed bigram scores and the greedy, one-to-one
    assignment of candidates to gaps in text order. */
module Assign {
  import opened Errors
  import opened Text
  import opened CoTable
  import opened Extract

  /** The fixed smoothing offset added to every denominator (`big_num`). */
  const BigNum: nat := 1000000
  /** The probability given to a missing neighbour at a sentence end. */
  const SentinelProb: real := 0.25

  /** The smoothed probability `(count + 1) / (total + 1000000)` of `w`
      following a key whose statistics are `st`. */
  function Factor(st: Stats, w: string): (f: real)
    ensures f > 0.0
  {
    (st.followers[w] + 1) as real / (st.total + BigNum) as real
  }

  /** A key never seen in the corpus gives every word the same factor,
      exactly one in a million. */
  lemma FactorOfUnseenKey(st: Stats, w: string)
    requires st.total == |st.followers|
    requires st.total == 0
    ensures Factor(st, w) == 1.0 / 1000000.0
  {
    assert st.followers == multiset{};
    assert st.followers[w] == 0;
    assert (st.followers[w] + 1) as real == 1.0;
    assert (st.total + BigNum) as real == 1000000.0;
  }

  /** For one key, a word seen more often after it gets the larger factor,
      and only then. */
  lemma FactorOrder(st: Stats, a: string, b: string)
    ensures Factor(st, a) < Factor(st, b) <==> st.followers[a] < st.followers[b]
  {
    DivOrder((st.followers[a] + 1) as real, (st.followers[b] + 1) as real, (st.total + BigNum) as real);
  }

  lemma DivOrder(x: real, y: real, d: real)
    requires d > 0.0
    ensures x / d < y / d <==> x < y
  {
    var q := y / d - x / d;
    assert q * d == y - x;
    if q > 0.0 {
      assert q * d > 0.0;
    }
    if y - x > 0.0 {
      assert q > 0.0;
    }
  }

  /** The score of candidate `c` for a gap with context `ctx`: the
      product of the prefix and suffix factors, `0.25` standing in for a
      sentence end. A prefix missing from the table, or a candidate missing
      from it when a suffix is needed, is a `KeyError`, the prefix being
      looked up first. */
  function Score(t: Table, ctx: Context, c: string): (r: Result<real, PyError>)
    ensures r.Success? <==> (ctx.left == StartMark || ctx.left in t) && (ctx.right == EndMark || c in t)
    ensures ctx.left != StartMark && ctx.left !in t ==> r == Failure(KeyError(ctx.left))
    ensures r.Failure? && (ctx.left == StartMark || ctx.left in t) ==> r == Failure(KeyError(c))
    ensures r.Success? ==> r.value > 0.0
  {
    if ctx.left != StartMark && ctx.left !in t then Failure(KeyError(ctx.left))
    else if ctx.right != EndMark && c !in t then Failure(KeyError(c))
    else
      var pref := if ctx.left == StartMark then SentinelProb else Factor(t[ctx.left], c);
      var suff := if ctx.right == EndMark then SentinelProb else Factor(t[c], ctx.right);
      Success(suff * pref)
  }

  /** A gap with no neighbour on either side scores every candidate
      `0.25 * 0.25`, whatever the table. */
  lemma SentinelScore(t: Table, c: string)
    ensures Score(t, Context(StartMark, EndMark), c) == Success(0.0625)
  {
  }

  /** A gap that ends its sentence ranks candidates by how often each was
      seen after the prefix: among candidates, more occurrences mean a
      strictly larger score. */
  lemma PrefixRanking(t: Table, ctx: Context, a: string, b: string)
    requires ctx.left in t && ctx.left != StartMark && ctx.right == EndMark
    ensures Score(t, ctx, a).Success? && Score(t, ctx, b).Success?
    ensures Score(t, ctx, a).value < Score(t, ctx, b).value <==> t[ctx.left].followers[a] < t[ctx.left].followers[b]
  {
    FactorOrder(t[ctx.left], a, b);
  }

  /** When the prefix was never seen in the corpus, the prefix factor is one
      in a million for every candidate. */
  lemma UnseenPrefixScore(t: Table, ctx: Context, c: string)
    requires Consistent(t)
    requires ctx.left in t && ctx.left != StartMark && t[ctx.left].total == 0
    requires ctx.right == EndMark
    ensures Score(t, ctx, c) == Success(0.25 * (1.0 / 1000000.0))
  {
    FactorOfUnseenKey(t[ctx.left], c);
  }

  predicate Scored(t: Table, ctx: Context, c: string) {
    Score(t, ctx, c).Success?
  }

  predicate AllScored(t: Table, ctx: Context, pool: seq<string>) {
    forall i :: 0 <= i < |pool| ==> Scored(t, ctx, pool[i])
  }

  function ScoreOf(t: Table, ctx: Context, c: string): real
    requires Scored(t, ctx, c)
  {
    Score(t, ctx, c).value
  }

  /** `pool[j]` has the highest score, and every candidate before it a
      strictly lower one: the winner of a scan that replaces the best only
      on a strictly larger score. */
  ghost predicate FirstBestAt(t: Table, ctx: Context, pool: seq<string>, j: int)
    requires AllScored(t, ctx, pool)
  {
    && 0 <= j < |pool|
    && (forall i :: 0 <= i < j ==> ScoreOf(t, ctx, pool[i]) < ScoreOf(t, ctx, pool[j]))
    && (forall i :: j < i < |pool| ==> ScoreOf(t, ctx, pool[i]) <= ScoreOf(t, ctx, pool[j]))
  }

  /** There is only one first best candidate, it maximises the score over
      the pool, and it is the first occurrence of its word. */
  lemma FirstBestUnique(t: Table, ctx: Context, pool: seq<string>, j: int, k: int)
    requires AllScored(t, ctx, pool)
    requires FirstBestAt(t, ctx, pool, j) && FirstBestAt(t, ctx, pool, k)
    ensures j == k
    ensures forall i :: 0 <= i < |pool| ==> ScoreOf(t, ctx, pool[i]) <= ScoreOf(t, ctx, pool[j])
    ensures forall i :: 0 <= i < j ==> pool[i] != pool[j]
  {
  }

  /** The place in `pool` that fails first while scoring. */
  ghost predicate FirstFailureAt(t: Table, ctx: Context, pool: seq<string>, j: int) {
    && 0 <= j < |pool|
    && !Scored(t, ctx, pool[j])
    && (forall i :: 0 <= i < j ==> Scored(t, ctx, pool[i]))
  }

  /** The inner loop of `get_best_matches` (lines 121-137). It fails with
      the error of the first candidate that cannot be scored. Otherwise it
      returns the first candidate of highest score, or `''` for an empty
      pool. */
  method ChooseBest(t: Table, ctx: Context, pool: seq<string>) returns (r: Result<string, PyError>)
    ensures r.Success? <==> AllScored(t, ctx, pool)
    ensures r.Success? && |pool| == 0 ==> r.value == ""
    ensures r.Success? && |pool| > 0 ==> exists j :: FirstBestAt(t, ctx, pool, j) && pool[j] == r.value
    ensures r.Failure? ==> exists j :: FirstFailureAt(t, ctx, pool, j) && Score(t, ctx, pool[j]).error == r.error
  {
    var lastCand := "";
    var lastMax: real := 0.0;
    ghost var at := 0;
    var i := 0;
    while i < |pool|
      invariant 0 <= i <= |pool|
      invariant forall k :: 0 <= k < i ==> Scored(t, ctx, pool[k])
      invariant i == 0 ==> lastCand == "" && lastMax == 0.0
      invariant i > 0 ==> && 0 <= at < i && lastCand == pool[at] && lastMax == ScoreOf(t, ctx, pool[at])
                          && (forall k :: 0 <= k < at ==> ScoreOf(t, ctx, pool[k]) < lastMax)
                          && (forall k :: at < k < i ==> ScoreOf(t, ctx, pool[k]) <= lastMax)
    {
      var s := Score(t, ctx, pool[i]);
      if s.Failure? {
        assert FirstFailureAt(t, ctx, pool, i);
        return Failure(s.error);
      }
      if lastMax < s.value {
        lastCand := pool[i];
        lastMax := s.value;
        at := i;
      }
      i := i + 1;
    }
    if |pool| > 0 {
      assert FirstBestAt(t, ctx, pool, at);
    }
    return Success(lastCand);
  }

  /** `list.remove(x)`: the list without the first occurrence of `x`. */
  function RemoveFirst(s: seq<string>, x: string): (r: seq<string>)
    requires x in s
    ensures r == s[..IndexOf(s, x)] + s[IndexOf(s, x) + 1..]
    ensures |r| == |s| - 1
    ensures multiset(r) + multiset{x} == multiset(s)
  {
    var i := IndexOf(s, x);
    assert s == s[..i] + [x] + s[i + 1..];
    s[..i] + s[i + 1..]
  }

  /** The pool left after removing the words of `ws` one by one. */
  function PoolAfter(pool: seq<string>, ws: seq<string>): seq<string>
    decreases |ws|
  {
    if |ws| == 0 then pool
    else
      var rest := PoolAfter(pool, ws[..|ws| - 1]);
      var w := ws[|ws| - 1];
      if w in rest then RemoveFirst(rest, w) else rest
  }

  /** `w` is what the gap with context `ctx` gets from `pool`. */
  ghost predicate Chose(t: Table, ctx: Context, pool: seq<string>, w: string) {
    && AllScored(t, ctx, pool)
    && exists j :: FirstBestAt(t, ctx, pool, j) && pool[j] == w
  }

  /** Each `chosen[g]` is what gap `g` gets from the pool the earlier gaps
      left. */
  ghost predicate ChoseAll(t: Table, contexts: seq<Context>, candidates: seq<string>, chosen: seq<string>)
    requires |chosen| <= |contexts|
  {
    forall g :: 0 <= g < |chosen| ==> Chose(t, contexts[g], PoolAfter(candidates, chosen[..g]), chosen[g])
  }

  lemma ChoseAllSnoc(t: Table, contexts: seq<Context>, candidates: seq<string>, chosen: seq<string>, w: string)
    requires |chosen| < |contexts|
    requires ChoseAll(t, contexts, candidates, chosen)
    requires Chose(t, contexts[|chosen|], PoolAfter(candidates, chosen), w)
    ensures ChoseAll(t, contexts, candidates, chosen + [w])
  {
    var c := chosen + [w];
    assert c[..|chosen|] == chosen;
    forall g | 0 <= g < |chosen| ensures c[..g] == chosen[..g] {
    }
  }

  /** Every lookup `get_best_matches` can make succeeds: each prefix is in
      the table, and so is each candidate. */
  predicate Covers(t: Table, contexts: seq<Context>, candidates: seq<string>) {
    && (forall i :: 0 <= i < |contexts| ==> contexts[i].left == StartMark || contexts[i].left in t)
    && (forall c :: c in candidates ==> c in t)
  }

  /** The result of a successful assignment: the word for each gap, and the
      candidates left over. */
  datatype Assignment = Assignment(chosen: seq<string>, pool: seq<string>)

  /** One gap of `get_best_matches` (lines 121-140): choose the first best
      candidate and remove it from the pool. Removing `''` from an empty
      pool is the `ValueError`. */
  method AssignGap(t: Table, ctx: Context, pool: seq<string>) returns (r: Result<string, PyError>)
    ensures r.Success? ==> r.value in pool && Chose(t, ctx, pool, r.value)
    ensures r.Failure? && r.error.ValueError? ==> |pool| == 0 && r.error.item == ""
    ensures AllScored(t, ctx, pool) && |pool| > 0 ==> r.Success?
    ensures |pool| == 0 ==> r == Failure(ValueError(""))
    ensures r.Failure? && |pool| > 0 ==> exists j :: FirstFailureAt(t, ctx, pool, j) && Score(t, ctx, pool[j]).error == r.error
  {
    var best := ChooseBest(t, ctx, pool);
    if best.Failure? {
      return Failure(best.error);
    }
    if best.value !in pool {
      return Failure(ValueError(best.value));
    }
    return Success(best.value);
  }

  /** Whatever is left in the pool came from the candidates, so when every
      lookup for the gap is possible, the whole pool can be scored. */
  lemma PoolScored(t: Table, contexts: seq<Context>, candidates: seq<string>, g: int,
                   result: seq<string>, pool: seq<string>)
    requires 0 <= g < |contexts| && Covers(t, contexts, candidates)
    requires multiset(candidates) == multiset(result) + multiset(pool)
    ensures AllScored(t, contexts[g], pool)
  {
    forall i | 0 <= i < |pool| ensures Scored(t, contexts[g], pool[i]) {
      assert pool[i] in multiset(pool);
      assert pool[i] in multiset(candidates);
    }
  }

  lemma PoolAfterSnoc(pool: seq<string>, ws: seq<string>, w: string)
    requires w in PoolAfter(pool, ws)
    ensures PoolAfter(pool, ws + [w]) == RemoveFirst(PoolAfter(pool, ws), w)
  {
    assert (ws + [w])[..|ws|] == ws;
  }

  /** How `get_best_matches` fails after filling the gaps `done`: the next
      gap either finds the pool empty, and `remove('')` raises
      `ValueError('')`, or fails with the error of the first remaining
      candidate it cannot score. */
  ghost predicate FailedAfter(t: Table, contexts: seq<Context>, candidates: seq<string>, done: seq<string>, e: PyError) {
    && |done| < |contexts| && |done| <= |candidates|
    && ChoseAll(t, contexts, candidates, done)
    && (|done| == |candidates| ==> e == ValueError(""))
    && (|done| < |candidates| ==>
          exists j :: FirstFailureAt(t, contexts[|done|], PoolAfter(candidates, done), j)
                      && Score(t, contexts[|done|], PoolAfter(candidates, done)[j]).error == e)
  }

  /** Choosing `w` for the next gap keeps the loop's bookkeeping: the pool
      is what the chosen words leave of the candidates, and each word was
      the first best of its pool. */
  lemma AssignStep(t: Table, contexts: seq<Context>, candidates: seq<string>, result: seq<string>,
                   pool: seq<string>, w: string)
    requires |result| < |contexts| && |pool| + |result| == |candidates|
    requires pool == PoolAfter(candidates, result)
    requires multiset(candidates) == multiset(result) + multiset(pool)
    requires ChoseAll(t, contexts, candidates, result)
    requires w in pool && Chose(t, contexts[|result|], pool, w)
    ensures |RemoveFirst(pool, w)| + |result + [w]| == |candidates|
    ensures RemoveFirst(pool, w) == PoolAfter(candidates, result + [w])
    ensures multiset(candidates) == multiset(result + [w]) + multiset(RemoveFirst(pool, w))
    ensures ChoseAll(t, contexts, candidates, result + [w])
  {
    PoolAfterSnoc(candidates, result, w);
    ChoseAllSnoc(t, contexts, candidates, result, w);
  }

  /** `get_best_matches` (lines 117-142). On success there is one word per
      gap, in gap order; the word for each gap is the first best candidate
      of the pool left by the gaps before it; the words chosen and the
      final pool together are the candidates. More gaps than candidates
      always fail, with `ValueError('')` once the pool is empty if no lookup
      fails before; when every lookup is possible, that is the only way it
      fails, and with enough candidates it succeeds. */
  method GetBestMatches(t: Table, contexts: seq<Context>, candidates: seq<string>) returns (r: Result<Assignment, PyError>)
    ensures r.Success? ==> |r.value.chosen| == |contexts|
    ensures r.Success? ==> r.value.pool == PoolAfter(candidates, r.value.chosen)
    ensures r.Success? ==> multiset(candidates) == multiset(r.value.chosen) + multiset(r.value.pool)
    ensures r.Success? ==> ChoseAll(t, contexts, candidates, r.value.chosen)
    ensures |contexts| > |candidates| ==> r.Failure?
    ensures r.Failure? && r.error.ValueError? ==> |contexts| > |candidates| && r.error.item == ""
    ensures |contexts| <= |candidates| && Covers(t, contexts, candidates) ==> r.Success?
    ensures |contexts| > |candidates| && Covers(t, contexts, candidates) ==> r == Failure(ValueError(""))
    ensures r.Failure? ==> exists done :: FailedAfter(t, contexts, candidates, done, r.error)
  {
    var result: seq<string> := [];
    var pool := candidates;
    var g := 0;
    while g < |contexts|
      invariant 0 <= g <= |contexts|
      invariant |result| == g
      invariant |pool| + g == |candidates|
      invariant pool == PoolAfter(candidates, result)
      invariant multiset(candidates) == multiset(result) + multiset(pool)
      invariant ChoseAll(t, contexts, candidates, result)
    {
      if Covers(t, contexts, candidates) {
        PoolScored(t, contexts, candidates, g, result, pool);
      }
      var w := AssignGap(t, contexts[g], pool);
      if w.Failure? {
        if Covers(t, contexts, candidates) {
          assert |pool| == 0 && w == Failure(ValueError(""));
        }
        assert FailedAfter(t, contexts, candidates, result, w.error);
        return Failure(w.error);
      }
      AssignStep(t, contexts, candidates, result, pool, w.value);
      result := result + [w.value];
      pool := RemoveFirst(pool, w.value);
      g := g + 1;
    }
    return Success(Assignment(result, pool));
  }

  predicate Distinct(s: seq<string>) {
    forall i, j :: 0 <= i < j < |s| ==> s[i] != s[j]
  }

  lemma {:induction false} DistinctCount(s: seq<string>, x: string)
    requires Distinct(s)
    ensures multiset(s)[x] <= 1
    decreases |s|
  {
    if |s| > 0 {
      assert s == [s[0]] + s[1..];
      DistinctCount(s[1..], x);
      if s[0] == x {
        assert x !in s[1..];
      }
    }
  }

  lemma RepeatCount(s: seq<string>, i: int, j: int)
    requires 0 <= i < j < |s| && s[i] == s[j]
    ensures multiset(s)[s[i]] >= 2
  {
    assert s == s[..j] + [s[j]] + s[j + 1..];
    assert s[i] in s[..j];
  }

  /** Distinct candidates give distinct answers: no word fills two gaps. */
  lemma ChosenDistinct(candidates: seq<string>, a: Assignment)
    requires Distinct(candidates)
    requires multiset(candidates) == multiset(a.chosen) + multiset(a.pool)
    ensures Distinct(a.chosen)
  {
    forall i, j | 0 <= i < j < |a.chosen| ensures a.chosen[i] != a.chosen[j] {
      if a.chosen[i] == a.chosen[j] {
        RepeatCount(a.chosen, i, j);
        DistinctCount(candidates, a.chosen[i]);
      }
    }
  }
}
