/** The cloze `The ___ barked loudly.` with candidates `dog` and `cat` and a
    corpus of five lines `the dog barked` followed by one line
    `the cat barked`, traced through the corpus scan as written. The four
    words are kept abstract: any four distinct words behave the same. */
module Scenario {
  import opened CoTable
  import opened CorpusScan
  import opened Extract
  import opened Assign

  /** The words of the scenario, standing for `the`, `dog`, `cat` and
      `barked`. */
  datatype Words = Words(the: string, dog: string, cat: string, barked: string)

  predicate WordsDistinct(w: Words) {
    && w.the != w.dog && w.the != w.cat && w.the != w.barked
    && w.dog != w.cat && w.dog != w.barked && w.cat != w.barked
  }

  /** The lower-cased seed keys: the prefix `the` and the candidates. */
  function Keys(w: Words): set<string> { {w.the, w.dog, w.cat} }
  function Candidates(w: Words): seq<string> { [w.dog, w.cat] }
  /** The word after the gap. */
  function Suffixes(w: Words): seq<string> { [w.barked] }
  function DogLine(w: Words): seq<string> { [w.the, w.dog, w.barked] }
  function CatLine(w: Words): seq<string> { [w.the, w.cat, w.barked] }
  function Lines(w: Words): seq<seq<string>> { [DogLine(w), DogLine(w), DogLine(w), DogLine(w), DogLine(w), CatLine(w)] }

  function TheDog(w: Words): Transition { Transition(w.the, w.dog) }
  function DogBarked(w: Words): Transition { Transition(w.dog, w.barked) }

  /** What the window `win` counts before `next` in the scenario. */
  function Counts(w: Words, win: seq<string>, next: string): seq<Transition> {
    WindowTransitions(win, next, Keys(w), Candidates(w), Suffixes(w))
  }

  /** A three-token line entered without overflow is scanned twice. */
  lemma TwoScans(w: Words, g: seq<string>, line: seq<string>)
    requires |line| == 3
    ensures LineTransitions(ScanState(g, false), line, Keys(w), Candidates(w), Suffixes(w))
         == Counts(w, ScanWindow(g, line, 0), line[1]) + Counts(w, ScanWindow(g, line, 1), line[2])
  {
    var k, c, s := Keys(w), Candidates(w), Suffixes(w);
    assert LineScans(g, line, 0, k, c, s) == [];
    assert LineScans(g, line, 1, k, c, s) == [] + Counts(w, ScanWindow(g, line, 0), line[1]);
    assert LineScans(g, line, 2, k, c, s) == LineScans(g, line, 1, k, c, s) + Counts(w, ScanWindow(g, line, 1), line[2]);
  }

  /** Counting a window one token at a time. */
  lemma CountsSnoc(w: Words, win: seq<string>, x: string, next: string)
    ensures Counts(w, win + [x], next)
         == Counts(w, win, next) + (if x in Keys(w) && Admissible(x, next, Candidates(w), Suffixes(w))
                                    then [Transition(x, next)] else [])
  {
    WindowTransitionsSnoc(win, x, next, Keys(w), Candidates(w), Suffixes(w));
  }

  /** The first line, entered with an empty window, counts its bigrams. */
  lemma FirstLine(w: Words)
    requires WordsDistinct(w)
    ensures LineTransitions(Start, DogLine(w), Keys(w), Candidates(w), Suffixes(w)) == [TheDog(w), DogBarked(w)]
  {
    TwoScans(w, [], DogLine(w));
    assert ScanWindow([], DogLine(w), 0) == [] + [w.the];
    assert ScanWindow([], DogLine(w), 1) == [] + [w.dog];
    CountsSnoc(w, [], w.the, w.dog);
    CountsSnoc(w, [], w.dog, w.barked);
  }

  /** The third line, entered with window `[the]`, sees `the` twice before
      `dog`. */
  lemma ThirdLine(w: Words)
    requires WordsDistinct(w)
    ensures LineTransitions(ScanState([w.the], false), DogLine(w), Keys(w), Candidates(w), Suffixes(w))
         == [TheDog(w), TheDog(w), DogBarked(w)]
  {
    TwoScans(w, [w.the], DogLine(w));
    assert ScanWindow([w.the], DogLine(w), 0) == [] + [w.the] + [w.the];
    assert ScanWindow([w.the], DogLine(w), 1) == [] + [w.the] + [w.dog];
    CountsSnoc(w, [], w.the, w.dog);
    CountsSnoc(w, [] + [w.the], w.the, w.dog);
    CountsSnoc(w, [], w.the, w.barked);
    CountsSnoc(w, [] + [w.the], w.dog, w.barked);
  }

  lemma FifthLineFirstScan(w: Words)
    requires WordsDistinct(w)
    ensures Counts(w, [w.barked, w.the, w.the], w.dog) == [TheDog(w), TheDog(w)]
  {
    assert [w.barked, w.the, w.the] == [] + [w.barked] + [w.the] + [w.the];
    CountsSnoc(w, [], w.barked, w.dog);
    CountsSnoc(w, [] + [w.barked], w.the, w.dog);
    CountsSnoc(w, [] + [w.barked] + [w.the], w.the, w.dog);
  }

  lemma FifthLineSecondScan(w: Words)
    requires WordsDistinct(w)
    ensures Counts(w, [w.the, w.the, w.dog], w.barked) == [DogBarked(w)]
  {
    assert [w.the, w.the, w.dog] == [] + [w.the] + [w.the] + [w.dog];
    CountsSnoc(w, [], w.the, w.barked);
    CountsSnoc(w, [] + [w.the], w.the, w.barked);
    CountsSnoc(w, [] + [w.the] + [w.the], w.dog, w.barked);
  }

  /** The fifth line, entered with window `[barked, the]`, also sees `the`
      twice before `dog`. */
  lemma FifthLine(w: Words)
    requires WordsDistinct(w)
    ensures LineTransitions(ScanState([w.barked, w.the], false), DogLine(w), Keys(w), Candidates(w), Suffixes(w))
         == [TheDog(w), TheDog(w), DogBarked(w)]
  {
    TwoScans(w, [w.barked, w.the], DogLine(w));
    assert ScanWindow([w.barked, w.the], DogLine(w), 0) == [w.barked, w.the, w.the];
    assert ScanWindow([w.barked, w.the], DogLine(w), 1) == [w.the, w.the, w.dog];
    FifthLineFirstScan(w);
    FifthLineSecondScan(w);
  }

  /** The transitions the run counts, in order. */
  function Counted(w: Words): seq<Transition> {
    [TheDog(w), DogBarked(w)] + [TheDog(w), TheDog(w), DogBarked(w)] + [TheDog(w), TheDog(w), DogBarked(w)]
  }

  /** The scan state after each line of the scenario. */
  lemma States(w: Words)
    ensures NextState(Start, DogLine(w)) == ScanState([w.barked], true)
    ensures NextState(ScanState([w.barked], true), DogLine(w)) == ScanState([w.the], false)
    ensures NextState(ScanState([w.the], false), DogLine(w)) == ScanState([w.dog, w.barked], true)
    ensures NextState(ScanState([w.dog, w.barked], true), DogLine(w)) == ScanState([w.barked, w.the], false)
    ensures NextState(ScanState([w.barked, w.the], false), DogLine(w)) == ScanState([w.the, w.dog, w.barked], true)
    ensures NextState(ScanState([w.the, w.dog, w.barked], true), CatLine(w)) == ScanState([w.dog, w.barked], false)
  {
    assert ([] + DogLine(w))[2..] == [w.barked];
    assert ([w.barked] + [w.the])[1..] == [w.the];
    assert ([w.the] + DogLine(w))[2..] == [w.dog, w.barked];
    assert ([w.dog, w.barked] + [w.the])[1..] == [w.barked, w.the];
    assert ([w.barked, w.the] + DogLine(w))[2..] == [w.the, w.dog, w.barked];
    assert [w.the, w.dog, w.barked][1..] == [w.dog, w.barked];
  }

  /** After two lines: the second line was skipped. */
  lemma RunTwo(w: Words)
    requires WordsDistinct(w)
    ensures CorpusRun([DogLine(w), DogLine(w)], Keys(w), Candidates(w), Suffixes(w))
         == Run(ScanState([w.the], false), [TheDog(w), DogBarked(w)])
  {
    var k, c, s := Keys(w), Candidates(w), Suffixes(w);
    var d := DogLine(w);
    States(w);
    var empty: seq<seq<string>> := [];
    assert CorpusRun(empty, k, c, s) == Run(Start, []);
    CorpusRunSnoc(empty, d, k, c, s);
    FirstLine(w);
    assert empty + [d] == [d];
    CorpusRunSnoc([d], d, k, c, s);
    assert [d] + [d] == [d, d];
  }

  /** After four lines: the third line was counted, the fourth skipped. */
  lemma RunFour(w: Words)
    requires WordsDistinct(w)
    ensures CorpusRun([DogLine(w), DogLine(w), DogLine(w), DogLine(w)], Keys(w), Candidates(w), Suffixes(w))
         == Run(ScanState([w.barked, w.the], false),
                [TheDog(w), DogBarked(w)] + [TheDog(w), TheDog(w), DogBarked(w)])
  {
    var k, c, s := Keys(w), Candidates(w), Suffixes(w);
    var d := DogLine(w);
    States(w);
    RunTwo(w);
    CorpusRunSnoc([d, d], d, k, c, s);
    ThirdLine(w);
    assert [d, d] + [d] == [d, d, d];
    CorpusRunSnoc([d, d, d], d, k, c, s);
    assert [d, d, d] + [d] == [d, d, d, d];
  }

  /** The corpus run, line by line. Every line that follows a counted line
      opens with the overflow flag up and is skipped, the `cat` line among
      them; the windows that survive make each later counted line see `the`
      twice. */
  lemma ScenarioRun(w: Words)
    requires WordsDistinct(w)
    ensures CorpusRun(Lines(w), Keys(w), Candidates(w), Suffixes(w)) == Run(ScanState([w.dog, w.barked], false), Counted(w))
  {
    var k, c, s := Keys(w), Candidates(w), Suffixes(w);
    var d := DogLine(w);
    States(w);
    RunFour(w);
    CorpusRunSnoc([d, d, d, d], d, k, c, s);
    FifthLine(w);
    assert [d, d, d, d] + [d] == [d, d, d, d, d];
    CorpusRunSnoc([d, d, d, d, d], CatLine(w), k, c, s);
    assert [d, d, d, d, d] + [CatLine(w)] == Lines(w);
  }

  lemma FollowersOfOne(tr: Transition, key: string)
    ensures FollowersOf([tr], key) == if tr.key == key then multiset{tr.next} else multiset{}
  {
    assert [tr][..0] == [];
  }

  /** The followers `key` gets from the counted transitions: those of
      `the dog` five times and those of `dog barked` three times. */
  lemma CountedFollowers(w: Words, key: string)
    ensures FollowersOf(Counted(w), key)
         == FollowersOf([TheDog(w)], key) + FollowersOf([TheDog(w)], key) + FollowersOf([TheDog(w)], key)
          + FollowersOf([TheDog(w)], key) + FollowersOf([TheDog(w)], key)
          + FollowersOf([DogBarked(w)], key) + FollowersOf([DogBarked(w)], key) + FollowersOf([DogBarked(w)], key)
  {
    var td, db := [TheDog(w)], [DogBarked(w)];
    assert [TheDog(w), DogBarked(w)] == td + db;
    assert [TheDog(w), TheDog(w), DogBarked(w)] == td + td + db;
    FollowersOfAppend(td, db, key);
    FollowersOfAppend(td, td, key);
    FollowersOfAppend(td + td, db, key);
    FollowersOfAppend(td + db, td + td + db, key);
    FollowersOfAppend(td + db + (td + td + db), td + td + db, key);
  }

  /** The table the scenario builds: `the` was followed by `dog` five times
      and by `cat` never, since the one `cat` line is skipped; `dog` was
      followed by the suffix `barked` three times; `cat` saw nothing. */
  lemma ScenarioTable(w: Words)
    requires WordsDistinct(w)
    ensures var t := Apply(Seed(Keys(w)), CorpusRun(Lines(w), Keys(w), Candidates(w), Suffixes(w)).counted);
      && t[w.the] == Stats(multiset{w.dog, w.dog, w.dog, w.dog, w.dog}, 5)
      && t[w.dog] == Stats(multiset{w.barked, w.barked, w.barked}, 3)
      && t[w.cat] == Fresh
  {
    ScenarioRun(w);
    TheFollowers(w);
    DogFollowers(w);
    CatFollowers(w);
  }

  lemma TheFollowers(w: Words)
    requires WordsDistinct(w)
    ensures Apply(Seed(Keys(w)), Counted(w))[w.the] == Stats(multiset{w.dog, w.dog, w.dog, w.dog, w.dog}, 5)
  {
    var m := multiset{w.dog};
    CountedFollowers(w, w.the);
    FollowersOfOne(TheDog(w), w.the);
    FollowersOfOne(DogBarked(w), w.the);
    assert FollowersOf(Counted(w), w.the) == m + m + m + m + m;
    assert m + m + m + m + m == multiset{w.dog, w.dog, w.dog, w.dog, w.dog};
    ApplyCounts(Seed(Keys(w)), Counted(w), w.the);
  }

  lemma DogFollowers(w: Words)
    requires WordsDistinct(w)
    ensures Apply(Seed(Keys(w)), Counted(w))[w.dog] == Stats(multiset{w.barked, w.barked, w.barked}, 3)
  {
    ApplyCounts(Seed(Keys(w)), Counted(w), w.dog);
    CountedFollowers(w, w.dog);
    FollowersOfOne(TheDog(w), w.dog);
    FollowersOfOne(DogBarked(w), w.dog);
  }

  lemma CatFollowers(w: Words)
    requires WordsDistinct(w)
    ensures Apply(Seed(Keys(w)), Counted(w))[w.cat] == Fresh
  {
    ApplyCounts(Seed(Keys(w)), Counted(w), w.cat);
    CountedFollowers(w, w.cat);
    FollowersOfOne(TheDog(w), w.cat);
    FollowersOfOne(DogBarked(w), w.cat);
  }

  /** The table of the scenario. */
  function BuiltTable(w: Words): Table {
    Apply(Seed(Keys(w)), CorpusRun(Lines(w), Keys(w), Candidates(w), Suffixes(w)).counted)
  }

  lemma ScoresCompare()
    ensures (1.0 / 1000000.0) * (1.0 / 1000005.0) < (4.0 / 1000003.0) * (6.0 / 1000005.0)
  {
  }

  /** The factors the table gives the two candidates. */
  lemma ScenarioFactors(w: Words, the: Stats, dog: Stats, cat: Stats)
    requires WordsDistinct(w)
    requires the == Stats(multiset{w.dog, w.dog, w.dog, w.dog, w.dog}, 5)
    requires dog == Stats(multiset{w.barked, w.barked, w.barked}, 3)
    requires cat == Fresh
    ensures Factor(the, w.dog) == 6.0 / 1000005.0
    ensures Factor(dog, w.barked) == 4.0 / 1000003.0
    ensures Factor(the, w.cat) == 1.0 / 1000005.0
    ensures Factor(cat, w.barked) == 1.0 / 1000000.0
  {
    assert the.followers[w.dog] == 5 && the.followers[w.cat] == 0 && the.total == 5;
    assert dog.followers[w.barked] == 3 && dog.total == 3;
    assert cat.followers[w.barked] == 0 && cat.total == 0;
    FactorValue(the, w.dog, 5, 5);
    FactorValue(the, w.cat, 0, 5);
    FactorValue(dog, w.barked, 3, 3);
    FactorValue(cat, w.barked, 0, 0);
  }

  lemma FactorValue(st: Stats, x: string, n: nat, total: nat)
    requires st.followers[x] == n && st.total == total
    ensures Factor(st, x) == (n + 1) as real / (total + 1000000) as real
  {
  }

  /** With that table the gap `the ___ barked` is filled with `dog`: both
      its factors beat those of `cat`. */
  lemma ScenarioChoosesDog(w: Words)
    requires WordsDistinct(w)
    requires w.the != StartMark && w.barked != EndMark
    ensures AllScored(BuiltTable(w), Context(w.the, w.barked), Candidates(w))
    ensures FirstBestAt(BuiltTable(w), Context(w.the, w.barked), Candidates(w), 0)
  {
    ScenarioTable(w);
    var t := BuiltTable(w);
    ScenarioFactors(w, t[w.the], t[w.dog], t[w.cat]);
    ScoresCompare();
    var ctx := Context(w.the, w.barked);
    assert ScoreOf(t, ctx, w.dog) == (4.0 / 1000003.0) * (6.0 / 1000005.0);
    assert ScoreOf(t, ctx, w.cat) == (1.0 / 1000000.0) * (1.0 / 1000005.0);
  }
}
