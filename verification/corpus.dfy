/** The corpus scan of `build_dict_by_corpus`, modelled as written: a window
    (`inspected_group`) and an `overflow` flag carried from line to line, the
    append-then-pop step, the `continue` at the end of a line and the `break`
    on the line after it. */
module CorpusScan {
  import opened Text
  import opened CoTable

  /** The characters deleted from a corpus line before splitting. */
  const Stripped: set<char> := {'\n', ',', '.', ';'}

  /** A corpus line as the scan sees it: punctuation deleted, split on
      whitespace, every token lower-cased. The tokens are the words of the
      lower-cased line, and none holds deleted punctuation or a capital. */
  function TokenizeLine(line: string): (toks: seq<string>)
    ensures toks == SplitWords(Lower(RemoveChars(line, Stripped)))
    ensures forall k :: 0 <= k < |toks| ==> IsWord(toks[k]) && NoCapitals(toks[k])
    ensures forall k, i :: 0 <= k < |toks| && 0 <= i < |toks[k]| ==> toks[k][i] !in Stripped
  {
    var ws := SplitWords(RemoveChars(line, Stripped));
    assert forall k :: 0 <= k < |ws| ==> forall i :: 0 <= i < |ws[k]| ==> ws[k][i] !in Stripped by {
      forall k | 0 <= k < |ws| { NoneOfAfterSplit(RemoveChars(line, Stripped), Stripped, k); }
    }
    SplitWordsLower(RemoveChars(line, Stripped));
    LowerAll(ws)
  }

  /** Splitting keeps only characters of the input. */
  lemma NoneOfAfterSplit(s: string, drop: set<char>, k: nat)
    requires forall i :: 0 <= i < |s| ==> s[i] !in drop
    requires k < |SplitWords(s)|
    ensures forall i :: 0 <= i < |SplitWords(s)[k]| ==> SplitWords(s)[k][i] !in drop
    decreases |s|
  {
    if |s| > 0 && s[0] in Whitespace {
      NoneOfAfterSplit(s[1..], drop, k);
    } else if |s| > 0 && k > 0 {
      NoneOfAfterSplit(s[WordLength(s)..], drop, k - 1);
    }
  }

  function TokenizeCorpus(corpus: seq<string>): (lines: seq<seq<string>>)
    ensures |lines| == |corpus|
  {
    seq(|corpus|, i requires 0 <= i < |corpus| => TokenizeLine(corpus[i]))
  }

  /** `inspected_group` and `overflow`, both carried across corpus lines. */
  datatype ScanState = ScanState(window: seq<string>, overflow: bool)

  const Start: ScanState := ScanState([], false)

  /** The states the scan can be in between lines: at most three tokens in
      the window, at most two unless the previous line overflowed. */
  predicate Reachable(st: ScanState) {
    |st.window| <= 3 && (!st.overflow ==> |st.window| <= 2)
  }

  /** Transitions all about tracked keys and all passing the filter. */
  predicate Tracked(ps: seq<Transition>, prefixes: set<string>, candidates: seq<string>, suffixes: seq<string>) {
    forall i :: 0 <= i < |ps| ==> ps[i].key in prefixes && Admissible(ps[i].key, ps[i].next, candidates, suffixes)
  }

  lemma TrackedAppend(a: seq<Transition>, b: seq<Transition>, prefixes: set<string>, candidates: seq<string>, suffixes: seq<string>)
    requires Tracked(a, prefixes, candidates, suffixes) && Tracked(b, prefixes, candidates, suffixes)
    ensures Tracked(a + b, prefixes, candidates, suffixes)
  {
    forall i | 0 <= i < |a + b|
      ensures (a + b)[i].key in prefixes && Admissible((a + b)[i].key, (a + b)[i].next, candidates, suffixes)
    {
      if i >= |a| { assert (a + b)[i] == b[i - |a|]; }
    }
  }

  /** The inner `for cur_token in inspected_group` loop with the follower
      `next`: one transition per window token, oldest first, that is tracked
      and passes the filter. */
  function WindowTransitions(win: seq<string>, next: string, prefixes: set<string>,
                             candidates: seq<string>, suffixes: seq<string>): (ps: seq<Transition>)
    ensures |ps| <= |win|
    ensures Tracked(ps, prefixes, candidates, suffixes)
    decreases |win|
  {
    if |win| == 0 then []
    else
      var w := win[|win| - 1];
      var init := WindowTransitions(win[..|win| - 1], next, prefixes, candidates, suffixes);
      TrackedAppend(init, if w in prefixes && Admissible(w, next, candidates, suffixes) then [Transition(w, next)] else [],
                    prefixes, candidates, suffixes);
      init + (if w in prefixes && Admissible(w, next, candidates, suffixes) then [Transition(w, next)] else [])
  }

  /** Every transition of a window pass is about a token of the window and
      has the lookahead as its follower. */
  lemma {:induction false} WindowTransitionsFrom(win: seq<string>, next: string, prefixes: set<string>,
                                                 candidates: seq<string>, suffixes: seq<string>)
    ensures forall i :: 0 <= i < |WindowTransitions(win, next, prefixes, candidates, suffixes)| ==>
      WindowTransitions(win, next, prefixes, candidates, suffixes)[i].next == next
      && WindowTransitions(win, next, prefixes, candidates, suffixes)[i].key in win
    decreases |win|
  {
    if |win| > 0 {
      var init := win[..|win| - 1];
      WindowTransitionsFrom(init, next, prefixes, candidates, suffixes);
      var ps := WindowTransitions(win, next, prefixes, candidates, suffixes);
      var ips := WindowTransitions(init, next, prefixes, candidates, suffixes);
      forall i | 0 <= i < |ps| ensures ps[i].next == next && ps[i].key in win {
        if i < |ips| {
          assert ps[i] == ips[i];
          assert ips[i].key in init;
        } else {
          assert ps[i] == Transition(win[|win| - 1], next);
        }
      }
    }
  }

  lemma WindowTransitionsSnoc(win: seq<string>, w: string, next: string, prefixes: set<string>,
                              candidates: seq<string>, suffixes: seq<string>)
    ensures WindowTransitions(win + [w], next, prefixes, candidates, suffixes)
      == WindowTransitions(win, next, prefixes, candidates, suffixes)
         + (if w in prefixes && Admissible(w, next, candidates, suffixes) then [Transition(w, next)] else [])
  {
    assert (win + [w])[..|win|] == win;
  }

  /** The converse: a window pass counts `w -> next` once per occurrence of
      `w` in the window when `w` is tracked and the pair passes the filter,
      and never otherwise. */
  lemma {:induction false} WindowTransitionsCount(win: seq<string>, w: string, next: string, prefixes: set<string>,
                                                  candidates: seq<string>, suffixes: seq<string>)
    ensures multiset(WindowTransitions(win, next, prefixes, candidates, suffixes))[Transition(w, next)]
      == if w in prefixes && Admissible(w, next, candidates, suffixes) then multiset(win)[w] else 0
    decreases |win|
  {
    if |win| > 0 {
      var init, x := win[..|win| - 1], win[|win| - 1];
      assert win == init + [x];
      WindowTransitionsCount(init, w, next, prefixes, candidates, suffixes);
      var step := if x in prefixes && Admissible(x, next, candidates, suffixes) then [Transition(x, next)] else [];
      assert WindowTransitions(win, next, prefixes, candidates, suffixes)
        == WindowTransitions(init, next, prefixes, candidates, suffixes) + step;
      assert multiset(WindowTransitions(win, next, prefixes, candidates, suffixes))
        == multiset(WindowTransitions(init, next, prefixes, candidates, suffixes)) + multiset(step);
      assert multiset(win) == multiset(init) + multiset{x};
    }
  }

  /** The window inspected at scan `s` of a line entered with window `g`:
      the `|g| + 1` tokens of the stream `g + line` right before `line[s + 1]`. */
  function ScanWindow(g: seq<string>, line: seq<string>, s: nat): (w: seq<string>)
    requires s < |line|
    ensures |w| == |g| + 1
    ensures forall i :: 0 <= i < |w| ==> w[i] == (g + line)[s + i]
  {
    (g + line[..s + 1])[s..]
  }

  /** The transitions counted by the first `c` scans of a line entered with
      window `g` and no overflow: scan `s` pairs every tracked token of its
      window with `line[s + 1]`. */
  function LineScans(g: seq<string>, line: seq<string>, c: nat, prefixes: set<string>,
                     candidates: seq<string>, suffixes: seq<string>): (ps: seq<Transition>)
    requires c == 0 || c < |line|
    ensures Tracked(ps, prefixes, candidates, suffixes)
    decreases c
  {
    if c == 0 then []
    else
      var init := LineScans(g, line, c - 1, prefixes, candidates, suffixes);
      var w := WindowTransitions(ScanWindow(g, line, c - 1), line[c], prefixes, candidates, suffixes);
      TrackedAppend(init, w, prefixes, candidates, suffixes);
      init + w
  }

  /** What one line counts: nothing for an empty line or after an overflow;
      otherwise one scan per token but the first. */
  function LineTransitions(st: ScanState, line: seq<string>, prefixes: set<string>,
                           candidates: seq<string>, suffixes: seq<string>): (ps: seq<Transition>)
    ensures Tracked(ps, prefixes, candidates, suffixes)
    ensures (|line| == 0 || st.overflow) ==> ps == []
  {
    if |line| == 0 || st.overflow then [] else LineScans(st.window, line, |line| - 1, prefixes, candidates, suffixes)
  }

  /** The state after one line, in closed form. An empty line changes
      nothing. From a non-overflowed state the window keeps its length and
      slides to the end of the line, plus the line's last token, and the
      flag is raised. After an overflow, only the line's first token is
      looked at: the window shifts by one and the flag drops, except that a
      one-token line just grows the window. */
  function NextState(st: ScanState, line: seq<string>): (r: ScanState)
    requires Reachable(st)
    ensures Reachable(r)
    ensures |line| == 0 ==> r == st
  {
    if |line| == 0 then st
    else if !st.overflow then ScanState((st.window + line)[|line| - 1..], true)
    else if |st.window| < 3 && |line| == 1 then ScanState(st.window + [line[0]], true)
    else if |st.window| < 3 then ScanState((st.window + [line[0]])[1..], false)
    else ScanState(st.window[1..], false)
  }

  /** Lines 71-80: the tracked tokens of the window, oldest first, each
      counted with the follower `line[j]` when it passes the filter; nothing
      is counted while the flag is up. */
  method CountWindow(table: Table, group: seq<string>, line: seq<string>, j: nat, overflow: bool,
                     prefixes: set<string>, candidates: seq<string>, suffixes: seq<string>)
    returns (table': Table)
    requires prefixes == table.Keys
    requires j < |line|
    ensures table'.Keys == table.Keys
    ensures overflow ==> table' == table
    ensures !overflow ==> table' == Apply(table, WindowTransitions(group, line[j], prefixes, candidates, suffixes))
  {
    table' := table;
    ghost var done: seq<Transition> := [];
    var i := 0;
    assert group[..0] == [];
    while i < |group|
      invariant 0 <= i <= |group|
      invariant table'.Keys == prefixes
      invariant overflow ==> table' == table
      invariant done == WindowTransitions(group[..i], line[j], prefixes, candidates, suffixes)
      invariant !overflow ==> table' == Apply(table, done)
    {
      var cur := group[i];
      ghost var after := WindowTransitions(group[..i + 1], line[j], prefixes, candidates, suffixes);
      WindowStep(group, i, line[j], prefixes, candidates, suffixes);
      if cur in prefixes {
        if overflow {
          break;
        }
        var next := line[j];
        if (cur in candidates && next in suffixes) || (cur !in candidates && next in candidates) {
          assert after == done + [Transition(cur, next)];
          ApplySnoc(table, done, Transition(cur, next));
          table' := Bump(table', Transition(cur, next));
          done := after;
        } else {
          assert after == done;
        }
      } else {
        assert after == done;
      }
      i := i + 1;
    }
    assert group[..|group|] == group;
  }

  /** Looking at `group[i]` extends the pass over `group[..i]` by at most
      one transition, the one the filter of lines 73-80 lets through. */
  lemma WindowStep(group: seq<string>, i: nat, next: string, prefixes: set<string>,
                   candidates: seq<string>, suffixes: seq<string>)
    requires i < |group|
    ensures WindowTransitions(group[..i + 1], next, prefixes, candidates, suffixes)
      == WindowTransitions(group[..i], next, prefixes, candidates, suffixes)
         + (if group[i] in prefixes
                && ((group[i] in candidates && next in suffixes) || (group[i] !in candidates && next in candidates))
            then [Transition(group[i], next)] else [])
  {
    assert group[..i + 1] == group[..i] + [group[i]];
    WindowTransitionsSnoc(group[..i], group[i], next, prefixes, candidates, suffixes);
  }

  /** Partway through a line entered with window `g` and the flag down,
      after `j` tokens were taken: the window is the last `|g|` tokens of
      the stream so far, and the first `j` scans have been counted. */
  ghost predicate MidLine(g: seq<string>, line: seq<string>, j: nat, group: seq<string>, t0: Table, t: Table,
                          prefixes: set<string>, candidates: seq<string>, suffixes: seq<string>)
  {
    && (j == 0 || j < |line|)
    && group == (g + line[..j])[j..]
    && t == Apply(t0, LineScans(g, line, j, prefixes, candidates, suffixes))
  }

  /** The end of such a line: its last token joined the window, the flag is
      about to go up, and every scan of the line has been counted. */
  ghost predicate LineDone(g: seq<string>, line: seq<string>, group: seq<string>, t0: Table, t: Table,
                           prefixes: set<string>, candidates: seq<string>, suffixes: seq<string>)
  {
    && 0 < |line|
    && group == (g + line)[|line| - 1..]
    && t == Apply(t0, LineScans(g, line, |line| - 1, prefixes, candidates, suffixes))
  }

  /** Taking the last token of the line ends it. */
  lemma MidLineEnds(g: seq<string>, line: seq<string>, j: nat, group: seq<string>, t0: Table, t: Table,
                    prefixes: set<string>, candidates: seq<string>, suffixes: seq<string>)
    requires MidLine(g, line, j, group, t0, t, prefixes, candidates, suffixes)
    requires j + 1 == |line|
    ensures LineDone(g, line, group + [line[j]], t0, t, prefixes, candidates, suffixes)
  {
    assert g + line == (g + line[..j]) + [line[j]];
  }

  /** Taking any other token makes the window of scan `j`. */
  lemma MidLineWindow(g: seq<string>, line: seq<string>, j: nat, group: seq<string>, t0: Table, t: Table,
                      prefixes: set<string>, candidates: seq<string>, suffixes: seq<string>)
    requires MidLine(g, line, j, group, t0, t, prefixes, candidates, suffixes)
    requires j + 1 < |line|
    ensures group + [line[j]] == ScanWindow(g, line, j)
  {
    assert g + line[..j + 1] == (g + line[..j]) + [line[j]];
  }

  /** Counting the window of scan `j` and dropping its oldest token moves
      on to the next token. */
  lemma MidLineStep(g: seq<string>, line: seq<string>, j: nat, group: seq<string>, t0: Table, t: Table, t': Table,
                    prefixes: set<string>, candidates: seq<string>, suffixes: seq<string>)
    requires MidLine(g, line, j, group, t0, t, prefixes, candidates, suffixes)
    requires j + 1 < |line|
    requires t' == Apply(t, WindowTransitions(ScanWindow(g, line, j), line[j + 1], prefixes, candidates, suffixes))
    ensures MidLine(g, line, j + 1, ScanWindow(g, line, j)[1..], t0, t', prefixes, candidates, suffixes)
  {
    var base := LineScans(g, line, j, prefixes, candidates, suffixes);
    var w := WindowTransitions(ScanWindow(g, line, j), line[j + 1], prefixes, candidates, suffixes);
    assert LineScans(g, line, j + 1, prefixes, candidates, suffixes) == base + w;
    ApplyAppend(t0, base, w);
  }

  /** What holds of `ScanLine` after `j` tokens of `line`, with window
      `group`, flag `overflow` and table `t`. Entered with the flag up, the
      line's first token at most is taken and nothing is counted; entered
      with it down, the scan is partway through the line or has just
      finished it. */
  ghost predicate Scanning(st: ScanState, line: seq<string>, j: nat, group: seq<string>, overflow: bool,
                           table: Table, t: Table, prefixes: set<string>, candidates: seq<string>, suffixes: seq<string>)
  {
    && j <= |line|
    && |group| <= 3
    && (!overflow ==> |group| < 3)
    && t.Keys == prefixes
    && (st.overflow ==>
          && t == table && overflow
          && ((j == 0 && group == st.window) || (j == 1 == |line| && |st.window| < 3 && group == st.window + [line[0]])))
    && (!st.overflow ==>
          || (!overflow && MidLine(st.window, line, j, group, table, t, prefixes, candidates, suffixes))
          || (overflow && j == |line| && LineDone(st.window, line, group, table, t, prefixes, candidates, suffixes)))
  }

  /** Lines 59-84 for one line: the scan as written, with the window, the
      flag and the table it updates. */
  method ScanLine(st: ScanState, table: Table, line: seq<string>, prefixes: set<string>,
                  candidates: seq<string>, suffixes: seq<string>)
    returns (st': ScanState, table': Table)
    requires Reachable(st)
    requires prefixes == table.Keys
    ensures st' == NextState(st, line)
    ensures table' == Apply(table, LineTransitions(st, line, prefixes, candidates, suffixes))
    ensures |line| == 0 ==> st' == st && table' == table
    ensures st.overflow ==> table' == table
  {
    var group := st.window;
    var overflow := st.overflow;
    table' := table;
    var j := 0;
    assert line[..0] == [];
    while j < |line|
      invariant Scanning(st, line, j, group, overflow, table, table', prefixes, candidates, suffixes)
      decreases |line| - j, |group|
    {
      var stop;
      j, group, overflow, table', stop := ScanStep(st, line, j, group, overflow, table, table', prefixes, candidates, suffixes);
      if stop {
        break;
      }
    }
    st' := ScanState(group, overflow);
  }

  /** One pass of the loop at lines 59-84: take the next token while the
      window is short, raising the flag at the end of the line; otherwise
      count the window against the next token, drop its oldest token and,
      if the flag was up, lower it and stop (`stop`). */
  method ScanStep(ghost st: ScanState, line: seq<string>, j: nat, group: seq<string>, overflow: bool,
                  ghost table: Table, t: Table, prefixes: set<string>, candidates: seq<string>, suffixes: seq<string>)
    returns (j': nat, group': seq<string>, overflow': bool, t': Table, stop: bool)
    requires Reachable(st)
    requires j < |line|
    requires Scanning(st, line, j, group, overflow, table, t, prefixes, candidates, suffixes)
    ensures !stop ==> Scanning(st, line, j', group', overflow', table, t', prefixes, candidates, suffixes)
    ensures !stop ==> j' > j || (j' == j && |group'| < |group|)
    ensures stop ==> ScanState(group', overflow') == NextState(st, line) && st.overflow && t' == table
  {
    j', group', overflow', t', stop := j, group, overflow, t, false;
    if |group'| < 3 {
      group' := group' + [line[j']];
      j' := j' + 1;
      if j' == |line| {
        overflow' := true;
        if !st.overflow {
          MidLineEnds(st.window, line, j, group, table, t, prefixes, candidates, suffixes);
        }
        return;
      }
    }
    if !overflow' {
      assert j' == j + 1;
      MidLineWindow(st.window, line, j, group, table, t, prefixes, candidates, suffixes);
    }
    t' := CountWindow(t', group', line, j', overflow', prefixes, candidates, suffixes);
    if !overflow' {
      MidLineStep(st.window, line, j, group, table, t, t', prefixes, candidates, suffixes);
    }
    group' := group'[1..];
    if overflow' {
      overflow' := false;
      stop := true;
    }
  }

  /** The outcome of scanning a corpus from the start: the state left over
      and every transition counted, in order. */
  datatype Run = Run(state: ScanState, counted: seq<Transition>)

  function CorpusRun(lines: seq<seq<string>>, prefixes: set<string>, candidates: seq<string>, suffixes: seq<string>): (r: Run)
    ensures Reachable(r.state)
    ensures Tracked(r.counted, prefixes, candidates, suffixes)
    decreases |lines|
  {
    if |lines| == 0 then Run(Start, [])
    else
      var prev := CorpusRun(lines[..|lines| - 1], prefixes, candidates, suffixes);
      var line := lines[|lines| - 1];
      var now := LineTransitions(prev.state, line, prefixes, candidates, suffixes);
      TrackedAppend(prev.counted, now, prefixes, candidates, suffixes);
      Run(NextState(prev.state, line), prev.counted + now)
  }

  /** Scanning one more line continues from the state the earlier lines
      left. */
  lemma CorpusRunSnoc(lines: seq<seq<string>>, line: seq<string>, prefixes: set<string>,
                      candidates: seq<string>, suffixes: seq<string>)
    ensures var prev := CorpusRun(lines, prefixes, candidates, suffixes);
      CorpusRun(lines + [line], prefixes, candidates, suffixes)
        == Run(NextState(prev.state, line), prev.counted + LineTransitions(prev.state, line, prefixes, candidates, suffixes))
  {
    assert (lines + [line])[..|lines|] == lines;
  }

  lemma TrackedKeysIn(ps: seq<Transition>, t: Table, candidates: seq<string>, suffixes: seq<string>)
    requires Tracked(ps, t.Keys, candidates, suffixes)
    ensures KeysIn(ps, t)
  {
  }

  /** Lines 56-84: the scan over all corpus lines, starting with an empty
      window and the flag down. The table ends up as the input table with
      exactly the transitions of the run counted, no key is added, and the
      count consistency and the follower filter are kept. */
  method ScanCorpus(lines: seq<seq<string>>, table: Table, prefixes: set<string>,
                    candidates: seq<string>, suffixes: seq<string>)
    returns (result: Table)
    requires prefixes == table.Keys
    ensures KeysIn(CorpusRun(lines, prefixes, candidates, suffixes).counted, table)
    ensures result == Apply(table, CorpusRun(lines, prefixes, candidates, suffixes).counted)
    ensures result.Keys == table.Keys
    ensures Consistent(table) ==> Consistent(result)
    ensures Filtered(table, candidates, suffixes) ==> Filtered(result, candidates, suffixes)
  {
    var st := Start;
    result := table;
    var n := 0;
    while n < |lines|
      invariant 0 <= n <= |lines|
      invariant st == CorpusRun(lines[..n], prefixes, candidates, suffixes).state
      invariant result == Apply(table, CorpusRun(lines[..n], prefixes, candidates, suffixes).counted)
    {
      ghost var done := CorpusRun(lines[..n], prefixes, candidates, suffixes).counted;
      ghost var now := LineTransitions(st, lines[n], prefixes, candidates, suffixes);
      var table' := result;
      st, table' := ScanLine(st, result, lines[n], prefixes, candidates, suffixes);
      ApplyAppend(table, done, now);
      assert lines[..n + 1][..n] == lines[..n];
      result := table';
      n := n + 1;
    }
    assert lines[..n] == lines;
    ghost var all := CorpusRun(lines, prefixes, candidates, suffixes).counted;
    TrackedKeysIn(all, table, candidates, suffixes);
    if Consistent(table) {
      ApplyConsistent(table, all);
    }
    if Filtered(table, candidates, suffixes) {
      ApplyFiltered(table, all, candidates, suffixes);
    }
  }

  /** The keys the table is seeded with: every prefix word and every
      candidate, lower-cased. */
  function SeedKeys(prefixKeys: set<string>, candidates: seq<string>): set<string> {
    (set k | k in prefixKeys :: Lower(k)) + (set c | c in candidates :: Lower(c))
  }

  /** `build_dict_by_corpus` with the corpus passed in as its lines. The
      table's keys are exactly the lower-cased prefix words and candidates;
      it is the seeded table with the corpus run counted; every key's total
      is the sum of its follower counts; a candidate key only has suffixes
      of interest as followers and any other key only candidates. */
  method BuildDictByCorpus(corpus: seq<string>, candidates: seq<string>, suffixes: seq<string>, prefixKeys: set<string>)
    returns (table: Table)
    ensures table.Keys == SeedKeys(prefixKeys, candidates)
    ensures KeysIn(CorpusRun(TokenizeCorpus(corpus), SeedKeys(prefixKeys, candidates), candidates, suffixes).counted,
                   Seed(SeedKeys(prefixKeys, candidates)))
    ensures table == Apply(Seed(SeedKeys(prefixKeys, candidates)),
                           CorpusRun(TokenizeCorpus(corpus), SeedKeys(prefixKeys, candidates), candidates, suffixes).counted)
    ensures Consistent(table)
    ensures Filtered(table, candidates, suffixes)
  {
    var seeded := Seed(SeedKeys(prefixKeys, candidates));
    var prefixes := set k | k in seeded :: Lower(k);
    assert prefixes == seeded.Keys by {
      forall k | k in seeded.Keys ensures Lower(k) == k {
        if k in (set k0 | k0 in prefixKeys :: Lower(k0)) {
          var k0 :| k0 in prefixKeys && Lower(k0) == k;
          LowerIdempotent(k0);
        } else {
          var c :| c in candidates && Lower(c) == k;
          LowerIdempotent(c);
        }
      }
    }
    var lines := seq(|corpus|, i requires 0 <= i < |corpus| => TokenizeLine(corpus[i]));
    assert lines == TokenizeCorpus(corpus);
    table := ScanCorpus(lines, seeded, prefixes, candidates, suffixes);
  }

  /** The admissible adjacent pairs `line[s] -> line[s + 1]`, `s < c`: the
      bigrams of the line that the filter keeps. */
  function Bigrams(line: seq<string>, c: nat, prefixes: set<string>, candidates: seq<string>, suffixes: seq<string>): seq<Transition>
    requires c == 0 || c < |line|
    decreases c
  {
    if c == 0 then []
    else
      Bigrams(line, c - 1, prefixes, candidates, suffixes)
        + (if line[c - 1] in prefixes && Admissible(line[c - 1], line[c], candidates, suffixes)
           then [Transition(line[c - 1], line[c])] else [])
  }

  /** Entered with an empty window, as the first line of the corpus is, a
      line is counted as plain bigrams: the window holds one token at every
      scan. */
  lemma {:induction false} FreshLineCountsBigrams(line: seq<string>, c: nat, prefixes: set<string>,
                                                  candidates: seq<string>, suffixes: seq<string>)
    requires c == 0 || c < |line|
    ensures LineScans([], line, c, prefixes, candidates, suffixes) == Bigrams(line, c, prefixes, candidates, suffixes)
    decreases c
  {
    if c > 0 {
      FreshLineCountsBigrams(line, c - 1, prefixes, candidates, suffixes);
      FreshScanStep(line, c, prefixes, candidates, suffixes);
    }
  }

  /** One scan of a line entered with an empty window adds exactly the
      bigram ending at that scan. */
  lemma FreshScanStep(line: seq<string>, c: nat, prefixes: set<string>,
                      candidates: seq<string>, suffixes: seq<string>)
    requires 0 < c < |line|
    ensures var step := if line[c - 1] in prefixes && Admissible(line[c - 1], line[c], candidates, suffixes)
                        then [Transition(line[c - 1], line[c])] else [];
            && LineScans([], line, c, prefixes, candidates, suffixes)
               == LineScans([], line, c - 1, prefixes, candidates, suffixes) + step
            && Bigrams(line, c, prefixes, candidates, suffixes) == Bigrams(line, c - 1, prefixes, candidates, suffixes) + step
  {
    var w := ScanWindow([], line, c - 1);
    assert w == [line[c - 1]] by {
      assert |w| == 1 && w[0] == ([] + line)[c - 1];
    }
    assert w == [] + [line[c - 1]];
    WindowTransitionsSnoc([], line[c - 1], line[c], prefixes, candidates, suffixes);
  }
}
