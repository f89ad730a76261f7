/** `solve_cloze`: read the candidates and the cloze, collect the words to
    track, count them in the corpus, and fill the gaps greedily. */
module Solve {
  import opened Errors
  import opened Text
  import opened CoTable
  import opened Extract
  import opened CorpusScan
  import opened Assign

  /** The candidates file: one candidate per line. The candidates are the
      pieces of the text between its line feeds, none holding one, in
      order. */
  function ReadCandidates(text: string): (r: seq<string>)
    ensures |r| >= 1
    ensures forall k :: 0 <= k < |r| ==> '\n' !in r[k]
    ensures JoinOn(r, '\n') == text
  {
    SplitOn(text, '\n')
  }

  /** The cloze file: commas dropped, then cut into sentences at each full
      stop. Joined back with full stops, the sentences give the text
      without its commas; no sentence holds a full stop or a comma. */
  function ReadCloze(text: string): (r: seq<string>)
    ensures |r| >= 1
    ensures forall k :: 0 <= k < |r| ==> '.' !in r[k] && ',' !in r[k]
    ensures JoinOn(r, '.') == RemoveChars(text, {','})
  {
    var ps := SplitOn(RemoveChars(text, {','}), '.');
    assert forall k, i :: 0 <= k < |ps| && 0 <= i < |ps[k]| ==> ps[k][i] != ',' by {
      forall k, i | 0 <= k < |ps| && 0 <= i < |ps[k]| ensures ps[k][i] != ',' {
        JoinOnHolds(ps, '.', k, i);
      }
    }
    ps
  }

  /** The number of gaps in the cloze text. */
  function GapCount(clozeText: string): nat {
    |Marked(Tokenize(ReadCloze(clozeText)), GapMarker)|
  }

  /** The table `solve_cloze` builds for the sentences `cloze`: the tracked
      words and the candidates seeded, then every transition the corpus
      scan counts added. */
  function CorpusTable(cloze: seq<string>, candidates: seq<string>, corpus: seq<string>): Table {
    var ws := Tokenize(cloze);
    var keys := SeedKeys(PrefixesAt(ws, KeyMarker, Marked(ws, KeyMarker)), candidates);
    Apply(Seed(keys), CorpusRun(TokenizeCorpus(corpus), keys, candidates, SuffixesAt(ws, KeyMarker, Marked(ws, KeyMarker))).counted)
  }

  /** `solve_cloze` with the three files passed in as their contents (the
      corpus as its lines). With more gaps than candidates it fails. With
      enough candidates none of which holds a capital letter, it succeeds,
      with one candidate per gap, and the chosen words with those left over
      are exactly the candidates. The word for each gap is the first best
      candidate, for that gap's context and the table built from the
      corpus, among those the gaps before it left. */
  method SolveCloze(clozeText: string, candidatesText: string, corpus: seq<string>) returns (r: Result<Assignment, PyError>)
    ensures GapCount(clozeText) > |ReadCandidates(candidatesText)| ==> r.Failure?
    ensures GapCount(clozeText) > |ReadCandidates(candidatesText)|
            && (forall c :: c in ReadCandidates(candidatesText) ==> NoCapitals(c))
            ==> r == Failure(ValueError(""))
    ensures GapCount(clozeText) <= |ReadCandidates(candidatesText)|
            && (forall c :: c in ReadCandidates(candidatesText) ==> NoCapitals(c))
            ==> r.Success?
    ensures r.Success? ==> && |r.value.chosen| == GapCount(clozeText)
                           && ChoseAll(CorpusTable(ReadCloze(clozeText), ReadCandidates(candidatesText), corpus),
                                       GapContexts(Tokenize(ReadCloze(clozeText))), ReadCandidates(candidatesText),
                                       r.value.chosen)
    ensures r.Success? ==> multiset(ReadCandidates(candidatesText)) == multiset(r.value.chosen) + multiset(r.value.pool)
  {
    var candidates := ReadCandidates(candidatesText);
    var cloze := ReadCloze(clozeText);
    var prefixes, suffixes := GetRelevantPrefixesAndSuffixes(cloze);
    var table := BuildDictByCorpus(corpus, candidates, suffixes, prefixes);
    var contexts := ExtractSurroundingWords(cloze);
    if forall c :: c in candidates ==> NoCapitals(c) {
      TableCovers(cloze, candidates, prefixes, table, contexts);
    }
    r := GetBestMatches(table, contexts, candidates);
  }

  /** Every lookup of the assignment is possible when the candidates are
      already lower case: each gap's left word precedes a `__` token, so it
      was seeded, and so was each candidate. */
  lemma TableCovers(cloze: seq<string>, candidates: seq<string>, prefixes: set<string>, table: Table, contexts: seq<Context>)
    requires forall x :: x in prefixes <==> PrecedesMarked(Tokenize(cloze), KeyMarker, x)
    requires table.Keys == SeedKeys(prefixes, candidates)
    requires forall c :: c in candidates ==> NoCapitals(c)
    requires var ws := Tokenize(cloze); var gaps := Marked(ws, GapMarker);
      && |contexts| == |gaps|
      && forall k :: 0 <= k < |gaps| ==>
           (gaps[k].word == 0 ==> contexts[k].left == StartMark)
           && (gaps[k].word > 0 ==> contexts[k].left == Lower(ws[gaps[k].sentence][gaps[k].word - 1]))
    ensures Covers(table, contexts, candidates)
  {
    var ws := Tokenize(cloze);
    var gaps := Marked(ws, GapMarker);
    forall k | 0 <= k < |contexts| ensures contexts[k].left == StartMark || contexts[k].left in table {
      if gaps[k].word > 0 {
        GapPrefixesAreTracked(cloze, prefixes, gaps[k]);
      }
    }
    forall c | c in candidates ensures c in table {
      LowerFixedPoint(c);
    }
  }
}
