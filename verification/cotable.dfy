/** The co-occurrence table: for each tracked key, how often each follower
    token was seen right after it, and how many transitions were counted
    for the key in all. */
module CoTable {

  /** The statistics list `[defaultdict(int), total]` kept per key. The
      follower dictionary is a multiset: the multiplicity of a token is its
      count, and a token never seen has multiplicity 0, as the defaultdict
      default. */
  datatype Stats = Stats(followers: multiset<string>, total: nat)

  /** The statistics every key is seeded with: no followers, total 0. */
  const Fresh: Stats := Stats(multiset{}, 0)

  type Table = map<string, Stats>

  /** One counted step `key -> next` of the corpus scan. */
  datatype Transition = Transition(key: string, next: string)

  /** The table seeded with empty statistics for every key of `keys`. */
  function Seed(keys: set<string>): (t: Table)
    ensures t.Keys == keys
    ensures Consistent(t)
    ensures forall k :: k in t ==> t[k].total == 0
  {
    map k | k in keys :: Fresh
  }

  /** Every key's total equals the sum of its follower counts. */
  ghost predicate Consistent(t: Table) {
    forall k :: k in t ==> t[k].total == |t[k].followers|
  }

  /** The filter the corpus scan applies before counting `key -> next`: a
      candidate key only counts suffixes of interest, any other key only
      counts candidates. */
  predicate Admissible(key: string, next: string, candidates: seq<string>, suffixes: seq<string>) {
    (key in candidates && next in suffixes) || (key !in candidates && next in candidates)
  }

  /** Every follower recorded in the table passed the scan's filter. */
  ghost predicate Filtered(t: Table, candidates: seq<string>, suffixes: seq<string>) {
    forall k, x :: k in t && x in t[k].followers ==> Admissible(k, x, candidates, suffixes)
  }

  /** Counting one transition: the follower count and the key's total go up
      together and nothing else changes. */
  function Bump(t: Table, tr: Transition): (r: Table)
    requires tr.key in t
    ensures r.Keys == t.Keys
  {
    var s := t[tr.key];
    t[tr.key := Stats(s.followers + multiset{tr.next}, s.total + 1)]
  }

  lemma BumpCounts(t: Table, tr: Transition)
    requires tr.key in t
    ensures Bump(t, tr)[tr.key].followers == t[tr.key].followers + multiset{tr.next}
    ensures Bump(t, tr)[tr.key].total == t[tr.key].total + 1
    ensures forall k :: k in t && k != tr.key ==> Bump(t, tr)[k] == t[k]
  {
  }

  /** The followers that `ps` records for `key`, with multiplicity. */
  function FollowersOf(ps: seq<Transition>, key: string): multiset<string>
    decreases |ps|
  {
    if |ps| == 0 then multiset{}
    else
      var last := ps[|ps| - 1];
      FollowersOf(ps[..|ps| - 1], key) + (if last.key == key then multiset{last.next} else multiset{})
  }

  /** Every transition of `ps` is about a key of `t`. */
  predicate KeysIn(ps: seq<Transition>, t: Table) {
    forall i :: 0 <= i < |ps| ==> ps[i].key in t
  }

  /** Counting the transitions `ps` in order. The scan only counts keys the
      table tracks (the `KeysIn` facts it proves); a transition about any
      other key would leave the table as it is, so no key is ever created. */
  function Apply(t: Table, ps: seq<Transition>): (r: Table)
    ensures r.Keys == t.Keys
    decreases |ps|
  {
    if |ps| == 0 then t
    else
      var r := Apply(t, ps[..|ps| - 1]);
      if ps[|ps| - 1].key in t then Bump(r, ps[|ps| - 1]) else r
  }

  lemma ApplySnoc(t: Table, ps: seq<Transition>, tr: Transition)
    requires tr.key in t
    ensures Apply(t, ps + [tr]) == Bump(Apply(t, ps), tr)
  {
    assert (ps + [tr])[..|ps|] == ps;
  }

  /** After counting `ps`, each key has gained exactly the followers `ps`
      records for it, and its total has grown by as many. */
  lemma {:induction false} ApplyCounts(t: Table, ps: seq<Transition>, k: string)
    requires k in t
    ensures Apply(t, ps)[k].followers == t[k].followers + FollowersOf(ps, k)
    ensures Apply(t, ps)[k].total == t[k].total + |FollowersOf(ps, k)|
    decreases |ps|
  {
    if |ps| > 0 {
      ApplyCounts(t, ps[..|ps| - 1], k);
      var last := ps[|ps| - 1];
      if last.key in t {
        BumpCounts(Apply(t, ps[..|ps| - 1]), last);
      }
    }
  }

  lemma {:induction false} FollowersOfAppend(a: seq<Transition>, b: seq<Transition>, key: string)
    ensures FollowersOf(a + b, key) == FollowersOf(a, key) + FollowersOf(b, key)
    decreases |b|
  {
    if |b| == 0 {
      assert a + b == a;
    } else {
      assert (a + b)[..|a + b| - 1] == a + b[..|b| - 1];
      FollowersOfAppend(a, b[..|b| - 1], key);
    }
  }

  /** Counting `a` then `b` is counting `a + b`. */
  lemma ApplyAppend(t: Table, a: seq<Transition>, b: seq<Transition>)
    ensures Apply(Apply(t, a), b) == Apply(t, a + b)
  {
    var m := Apply(t, a);
    var l, r := Apply(m, b), Apply(t, a + b);
    forall k | k in t ensures l[k] == r[k] {
      ApplyCounts(t, a, k);
      ApplyCounts(m, b, k);
      ApplyCounts(t, a + b, k);
      FollowersOfAppend(a, b, k);
      var fa, fb := FollowersOf(a, k), FollowersOf(b, k);
      assert l[k].followers == t[k].followers + fa + fb;
      assert r[k].followers == t[k].followers + (fa + fb);
      assert l[k].total == r[k].total;
    }
    assert l.Keys == r.Keys;
  }

  lemma {:induction false} FollowersOfKeys(ps: seq<Transition>, key: string, x: string)
    requires x in FollowersOf(ps, key)
    ensures exists i :: 0 <= i < |ps| && ps[i] == Transition(key, x)
    decreases |ps|
  {
    var last := ps[|ps| - 1];
    if last.key == key && last.next == x {
      assert ps[|ps| - 1] == Transition(key, x);
    } else {
      FollowersOfKeys(ps[..|ps| - 1], key, x);
      var i :| 0 <= i < |ps| - 1 && ps[..|ps| - 1][i] == Transition(key, x);
      assert ps[i] == Transition(key, x);
    }
  }

  /** Counting transitions keeps every key's total equal to the sum of its
      follower counts. */
  lemma ApplyConsistent(t: Table, ps: seq<Transition>)
    requires Consistent(t)
    ensures Consistent(Apply(t, ps))
  {
    forall k | k in t ensures Apply(t, ps)[k].total == |Apply(t, ps)[k].followers| {
      ApplyCounts(t, ps, k);
    }
  }

  /** Counting only admissible transitions keeps every recorded follower
      admissible. */
  lemma ApplyFiltered(t: Table, ps: seq<Transition>, candidates: seq<string>, suffixes: seq<string>)
    requires forall i :: 0 <= i < |ps| ==> Admissible(ps[i].key, ps[i].next, candidates, suffixes)
    requires Filtered(t, candidates, suffixes)
    ensures Filtered(Apply(t, ps), candidates, suffixes)
  {
    var r := Apply(t, ps);
    forall k, x | k in r && x in r[k].followers
      ensures Admissible(k, x, candidates, suffixes)
    {
      ApplyCounts(t, ps, k);
      if x !in t[k].followers {
        FollowersOfKeys(ps, k, x);
      }
    }
  }
}
