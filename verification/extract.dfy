/** Reading the cloze text: which positions are gaps, the words right
    before and after them, and the per-gap context used for scoring. */
module Extract {
  import opened Text

  /** The looser gap test used when collecting the words to track. */
  const KeyMarker: string := "__"
  /** The stricter gap test used when listing the gaps to fill. */
  const GapMarker: string := "___"
  /** Neighbour placeholders for a gap that starts or ends its sentence. */
  const StartMark: string := "<s>"
  const EndMark: string := "</s>"

  /** A token position: sentence index, then word index in that sentence. */
  datatype Pos = Pos(sentence: nat, word: nat)

  /** Reading order: earlier sentence first, then earlier word. */
  predicate Before(p: Pos, q: Pos) {
    p.sentence < q.sentence || (p.sentence == q.sentence && p.word < q.word)
  }

  /** The words of each sentence, as `sen.split()` gives them. */
  function Tokenize(cloze: seq<string>): (ws: seq<seq<string>>)
    ensures |ws| == |cloze|
    ensures forall i :: 0 <= i < |cloze| ==> ws[i] == SplitWords(cloze[i])
  {
    seq(|cloze|, i requires 0 <= i < |cloze| => SplitWords(cloze[i]))
  }

  predicate IsMarked(ws: seq<seq<string>>, marker: string, p: Pos) {
    p.sentence < |ws| && p.word < |ws[p.sentence]| && Contains(ws[p.sentence][p.word], marker)
  }

  /** A position the scan can stop at: inside or at the end of a sentence,
      or just past the last sentence. */
  predicate Bound(ws: seq<seq<string>>, b: Pos) {
    (b.sentence < |ws| && b.word <= |ws[b.sentence]|) || (b.sentence == |ws| && b.word == 0)
  }

  predicate AllMarked(ws: seq<seq<string>>, marker: string, ps: seq<Pos>) {
    forall k :: 0 <= k < |ps| ==> IsMarked(ws, marker, ps[k])
  }

  /** The positions before `b` whose token holds `marker`, in reading order. */
  function MarkedBefore(ws: seq<seq<string>>, marker: string, b: Pos): (ps: seq<Pos>)
    requires Bound(ws, b)
    ensures AllMarked(ws, marker, ps)
    decreases b.sentence, b.word
  {
    if b.word > 0 then
      var p := Pos(b.sentence, b.word - 1);
      MarkedBefore(ws, marker, p) + (if Contains(ws[p.sentence][p.word], marker) then [p] else [])
    else if b.sentence == 0 then []
    else MarkedBefore(ws, marker, Pos(b.sentence - 1, |ws[b.sentence - 1]|))
  }

  /** `MarkedBefore` lists positions before `b` only. */
  lemma {:induction false} MarkedBeforeBounded(ws: seq<seq<string>>, marker: string, b: Pos)
    requires Bound(ws, b)
    ensures forall k :: 0 <= k < |MarkedBefore(ws, marker, b)| ==> Before(MarkedBefore(ws, marker, b)[k], b)
    decreases b.sentence, b.word
  {
    if b.word > 0 {
      var p := Pos(b.sentence, b.word - 1);
      MarkedBeforeBounded(ws, marker, p);
      var init := MarkedBefore(ws, marker, p);
      var ps := MarkedBefore(ws, marker, b);
      assert ps == init + (if Contains(ws[p.sentence][p.word], marker) then [p] else []);
      forall k | 0 <= k < |ps| ensures Before(ps[k], b) {
        if k < |init| { assert ps[k] == init[k]; } else { assert ps[k] == p; }
      }
    } else if b.sentence > 0 {
      var q := Pos(b.sentence - 1, |ws[b.sentence - 1]|);
      MarkedBeforeBounded(ws, marker, q);
      assert MarkedBefore(ws, marker, b) == MarkedBefore(ws, marker, q);
    }
  }

  /** `MarkedBefore` lists its positions in strictly increasing reading
      order, so none twice. */
  lemma {:induction false} MarkedBeforeOrdered(ws: seq<seq<string>>, marker: string, b: Pos)
    requires Bound(ws, b)
    ensures forall k, l :: 0 <= k < l < |MarkedBefore(ws, marker, b)| ==>
      Before(MarkedBefore(ws, marker, b)[k], MarkedBefore(ws, marker, b)[l])
    decreases b.sentence, b.word
  {
    if b.word > 0 {
      var p := Pos(b.sentence, b.word - 1);
      MarkedBeforeOrdered(ws, marker, p);
      MarkedBeforeBounded(ws, marker, p);
      var init := MarkedBefore(ws, marker, p);
      var ps := MarkedBefore(ws, marker, b);
      assert ps == init + (if Contains(ws[p.sentence][p.word], marker) then [p] else []);
      forall k, l | 0 <= k < l < |ps| ensures Before(ps[k], ps[l]) {
        assert ps[k] == init[k];
        if l < |init| { assert ps[l] == init[l]; } else { assert ps[l] == p; }
      }
    } else if b.sentence > 0 {
      var q := Pos(b.sentence - 1, |ws[b.sentence - 1]|);
      MarkedBeforeOrdered(ws, marker, q);
      assert MarkedBefore(ws, marker, b) == MarkedBefore(ws, marker, q);
    }
  }

  /** `MarkedBefore` misses no marked position before `b`. */
  lemma {:induction false} MarkedBeforeComplete(ws: seq<seq<string>>, marker: string, b: Pos, p: Pos)
    requires Bound(ws, b)
    requires IsMarked(ws, marker, p) && Before(p, b)
    ensures p in MarkedBefore(ws, marker, b)
    decreases b.sentence, b.word
  {
    if b.word > 0 {
      var q := Pos(b.sentence, b.word - 1);
      if p != q {
        MarkedBeforeComplete(ws, marker, q, p);
      }
    } else {
      MarkedBeforeComplete(ws, marker, Pos(b.sentence - 1, |ws[b.sentence - 1]|), p);
    }
  }

  /** Every position of the text whose token holds `marker`, each exactly
      once, in reading order. */
  function Marked(ws: seq<seq<string>>, marker: string): (ps: seq<Pos>)
    ensures forall k :: 0 <= k < |ps| ==> IsMarked(ws, marker, ps[k])
    ensures forall k, l :: 0 <= k < l < |ps| ==> Before(ps[k], ps[l])
    ensures forall p :: IsMarked(ws, marker, p) ==> p in ps
  {
    var b := Pos(|ws|, 0);
    MarkedBeforeOrdered(ws, marker, b);
    assert forall k, l :: 0 <= k < l < |MarkedBefore(ws, marker, b)| ==>
      Before(MarkedBefore(ws, marker, b)[k], MarkedBefore(ws, marker, b)[l]);
    forall p | IsMarked(ws, marker, p) ensures p in MarkedBefore(ws, marker, b) {
      MarkedBeforeComplete(ws, marker, b, p);
    }
    MarkedBefore(ws, marker, b)
  }

  /** Moving the scan one word forward adds that word's position if marked. */
  lemma MarkedStep(ws: seq<seq<string>>, marker: string, si: nat, wi: nat)
    requires si < |ws| && wi < |ws[si]|
    ensures MarkedBefore(ws, marker, Pos(si, wi + 1))
      == MarkedBefore(ws, marker, Pos(si, wi)) + (if Contains(ws[si][wi], marker) then [Pos(si, wi)] else [])
  {
  }

  /** Moving the scan to the next sentence adds nothing. */
  lemma MarkedNextSentence(ws: seq<seq<string>>, marker: string, si: nat)
    requires si < |ws|
    ensures MarkedBefore(ws, marker, Pos(si + 1, 0)) == MarkedBefore(ws, marker, Pos(si, |ws[si]|))
  {
  }

  /** The words right before the marked positions `ps`, for those not at
      the start of their sentence. */
  function PrefixesAt(ws: seq<seq<string>>, marker: string, ps: seq<Pos>): set<string>
    requires AllMarked(ws, marker, ps)
    decreases |ps|
  {
    if |ps| == 0 then {}
    else
      var p := ps[|ps| - 1];
      PrefixesAt(ws, marker, ps[..|ps| - 1])
        + (if p.word > 0 then {ws[p.sentence][p.word - 1]} else {})
  }

  /** The words right after the marked positions `ps`, for those not at the
      end of their sentence, in the order of `ps`. */
  function SuffixesAt(ws: seq<seq<string>>, marker: string, ps: seq<Pos>): seq<string>
    requires AllMarked(ws, marker, ps)
    decreases |ps|
  {
    if |ps| == 0 then []
    else
      var p := ps[|ps| - 1];
      SuffixesAt(ws, marker, ps[..|ps| - 1])
        + (if p.word + 1 < |ws[p.sentence]| then [ws[p.sentence][p.word + 1]] else [])
  }

  lemma PrefixesSuffixesSnoc(ws: seq<seq<string>>, marker: string, ps: seq<Pos>, p: Pos)
    requires AllMarked(ws, marker, ps)
    requires IsMarked(ws, marker, p)
    ensures AllMarked(ws, marker, ps + [p])
    ensures PrefixesAt(ws, marker, ps + [p])
      == PrefixesAt(ws, marker, ps) + (if p.word > 0 then {ws[p.sentence][p.word - 1]} else {})
    ensures SuffixesAt(ws, marker, ps + [p])
      == SuffixesAt(ws, marker, ps) + (if p.word + 1 < |ws[p.sentence]| then [ws[p.sentence][p.word + 1]] else [])
  {
    assert forall k :: 0 <= k < |ps| ==> ps[k] == (ps + [p])[k];
    assert (ps + [p])[..|ps|] == ps;
  }

  /** A word is a tracked prefix exactly when it stands right before some
      position in `ps`. */
  lemma {:induction false} PrefixesAtMembers(ws: seq<seq<string>>, marker: string, ps: seq<Pos>, x: string)
    requires AllMarked(ws, marker, ps)
    ensures x in PrefixesAt(ws, marker, ps) <==>
      exists k :: 0 <= k < |ps| && ps[k].word > 0 && ws[ps[k].sentence][ps[k].word - 1] == x
    decreases |ps|
  {
    if |ps| > 0 {
      var init := ps[..|ps| - 1];
      PrefixesAtMembers(ws, marker, init, x);
      if exists k :: 0 <= k < |init| && init[k].word > 0 && ws[init[k].sentence][init[k].word - 1] == x {
        var k :| 0 <= k < |init| && init[k].word > 0 && ws[init[k].sentence][init[k].word - 1] == x;
        assert ps[k] == init[k];
      }
      if exists k :: 0 <= k < |ps| && ps[k].word > 0 && ws[ps[k].sentence][ps[k].word - 1] == x {
        var k :| 0 <= k < |ps| && ps[k].word > 0 && ws[ps[k].sentence][ps[k].word - 1] == x;
        if k < |init| {
          assert init[k] == ps[k];
        }
      }
    }
  }

  /** `x` stands right before some token holding `marker`. */
  ghost predicate PrecedesMarked(ws: seq<seq<string>>, marker: string, x: string) {
    exists p :: IsMarked(ws, marker, p) && p.word > 0 && ws[p.sentence][p.word - 1] == x
  }

  /** The prefixes collected over the whole text are exactly the words
      standing right before a marked token. */
  lemma PrefixesOfMarked(ws: seq<seq<string>>, marker: string, prefixes: set<string>)
    requires prefixes == PrefixesAt(ws, marker, Marked(ws, marker))
    ensures forall x :: x in prefixes <==> PrecedesMarked(ws, marker, x)
  {
    forall x ensures x in PrefixesAt(ws, marker, Marked(ws, marker)) <==> PrecedesMarked(ws, marker, x)
    {
      PrefixOfMarked(ws, marker, x);
    }
  }

  lemma PrefixOfMarked(ws: seq<seq<string>>, marker: string, x: string)
    ensures x in PrefixesAt(ws, marker, Marked(ws, marker)) <==>
      exists p :: IsMarked(ws, marker, p) && p.word > 0 && ws[p.sentence][p.word - 1] == x
  {
    var all := Marked(ws, marker);
    PrefixesAtMembers(ws, marker, all, x);
    if x in PrefixesAt(ws, marker, all) {
      var k :| 0 <= k < |all| && all[k].word > 0 && ws[all[k].sentence][all[k].word - 1] == x;
      assert IsMarked(ws, marker, all[k]);
    }
    if exists p :: IsMarked(ws, marker, p) && p.word > 0 && ws[p.sentence][p.word - 1] == x {
      var p :| IsMarked(ws, marker, p) && p.word > 0 && ws[p.sentence][p.word - 1] == x;
      assert p in all;
      var k :| 0 <= k < |all| && all[k] == p;
    }
  }

  /** `get_relevant_prefixes_and_suffixes`: the words to track (the word
      before each `__` token that is not first in its sentence; the key set
      of the dictionary the source builds, whose values are all empty) and
      the suffixes of interest (the word after each `__` token that is not
      last, in reading order). */
  method GetRelevantPrefixesAndSuffixes(cloze: seq<string>) returns (prefixes: set<string>, suffixes: seq<string>)
    ensures forall x :: x in prefixes <==> PrecedesMarked(Tokenize(cloze), KeyMarker, x)
    ensures suffixes == SuffixesAt(Tokenize(cloze), KeyMarker, Marked(Tokenize(cloze), KeyMarker))
    ensures prefixes == PrefixesAt(Tokenize(cloze), KeyMarker, Marked(Tokenize(cloze), KeyMarker))
  {
    ghost var ws := Tokenize(cloze);
    prefixes, suffixes := {}, [];
    var si := 0;
    while si < |cloze|
      invariant 0 <= si <= |cloze|
      invariant prefixes == PrefixesAt(ws, KeyMarker, MarkedBefore(ws, KeyMarker, Pos(si, 0)))
      invariant suffixes == SuffixesAt(ws, KeyMarker, MarkedBefore(ws, KeyMarker, Pos(si, 0)))
    {
      prefixes, suffixes := KeysInSentence(ws, si, SplitWords(cloze[si]), prefixes, suffixes);
      MarkedNextSentence(ws, KeyMarker, si);
      si := si + 1;
    }
    assert prefixes == PrefixesAt(ws, KeyMarker, Marked(ws, KeyMarker));
    PrefixesOfMarked(ws, KeyMarker, prefixes);
  }

  /** The inner loop of `get_relevant_prefixes_and_suffixes` over the words
      `line` of sentence `si`. */
  method KeysInSentence(ghost ws: seq<seq<string>>, ghost si: nat, line: seq<string>,
                        prefixes0: set<string>, suffixes0: seq<string>)
    returns (prefixes: set<string>, suffixes: seq<string>)
    requires si < |ws| && line == ws[si]
    requires prefixes0 == PrefixesAt(ws, KeyMarker, MarkedBefore(ws, KeyMarker, Pos(si, 0)))
    requires suffixes0 == SuffixesAt(ws, KeyMarker, MarkedBefore(ws, KeyMarker, Pos(si, 0)))
    ensures prefixes == PrefixesAt(ws, KeyMarker, MarkedBefore(ws, KeyMarker, Pos(si, |line|)))
    ensures suffixes == SuffixesAt(ws, KeyMarker, MarkedBefore(ws, KeyMarker, Pos(si, |line|)))
  {
    prefixes, suffixes := prefixes0, suffixes0;
    var wi := 0;
    while wi < |line|
      invariant 0 <= wi <= |line|
      invariant prefixes == PrefixesAt(ws, KeyMarker, MarkedBefore(ws, KeyMarker, Pos(si, wi)))
      invariant suffixes == SuffixesAt(ws, KeyMarker, MarkedBefore(ws, KeyMarker, Pos(si, wi)))
    {
      ghost var before := MarkedBefore(ws, KeyMarker, Pos(si, wi));
      ghost var after := MarkedBefore(ws, KeyMarker, Pos(si, wi + 1));
      MarkedStep(ws, KeyMarker, si, wi);
      if Contains(line[wi], KeyMarker) {
        PrefixesSuffixesSnoc(ws, KeyMarker, before, Pos(si, wi));
        assert after == before + [Pos(si, wi)];
        if wi < |line| - 1 {
          suffixes := suffixes + [line[wi + 1]];
        }
        if wi > 0 {
          prefixes := prefixes + {line[wi - 1]};
        }
        assert prefixes == PrefixesAt(ws, KeyMarker, after);
        assert suffixes == SuffixesAt(ws, KeyMarker, after);
      } else {
        assert after == before;
      }
      wi := wi + 1;
    }
  }

  /** One gap's context: its lower-cased neighbours, or the placeholders
      at the ends of the sentence. */
  datatype Context = Context(left: string, right: string)

  function ContextAt(ws: seq<seq<string>>, p: Pos): Context
    requires p.sentence < |ws| && p.word < |ws[p.sentence]|
  {
    var s := ws[p.sentence];
    Context(if p.word > 0 then Lower(s[p.word - 1]) else StartMark,
            if p.word < |s| - 1 then Lower(s[p.word + 1]) else EndMark)
  }

  /** The context of every `___` token of `ws`, in reading order. */
  function GapContexts(ws: seq<seq<string>>): (cs: seq<Context>)
    ensures |cs| == |Marked(ws, GapMarker)|
  {
    var gaps := Marked(ws, GapMarker);
    seq(|gaps|, k requires 0 <= k < |gaps| => ContextAt(ws, gaps[k]))
  }

  /** `extract_surrounding_words`: one context per `___` token, in reading
      order; the left neighbour is `<s>` at the start of a sentence and the
      lower-cased previous word otherwise; the right neighbour is `</s>` at
      the end of a sentence and the lower-cased next word otherwise. */
  method ExtractSurroundingWords(cloze: seq<string>) returns (contexts: seq<Context>)
    ensures var ws := Tokenize(cloze); var gaps := Marked(ws, GapMarker);
      && |contexts| == |gaps|
      && forall k :: 0 <= k < |gaps| ==>
           var s := ws[gaps[k].sentence];
           && (gaps[k].word == 0 ==> contexts[k].left == StartMark)
           && (gaps[k].word > 0 ==> contexts[k].left == Lower(s[gaps[k].word - 1]))
           && (gaps[k].word == |s| - 1 ==> contexts[k].right == EndMark)
           && (gaps[k].word < |s| - 1 ==> contexts[k].right == Lower(s[gaps[k].word + 1]))
    ensures contexts == GapContexts(Tokenize(cloze))
  {
    var sentences := seq(|cloze|, i requires 0 <= i < |cloze| => SplitWords(cloze[i]));
    ghost var ws := Tokenize(cloze);
    assert sentences == ws;
    contexts := [];
    var si := 0;
    while si < |sentences|
      invariant 0 <= si <= |sentences|
      invariant ContextsOf(ws, contexts, MarkedBefore(ws, GapMarker, Pos(si, 0)))
    {
      contexts := ContextsInSentence(ws, si, sentences[si], contexts);
      MarkedNextSentence(ws, GapMarker, si);
      si := si + 1;
    }
    ContextsSpelledOut(ws, contexts, Marked(ws, GapMarker));
    assert contexts == GapContexts(ws);
  }

  lemma ContextsSpelledOut(ws: seq<seq<string>>, contexts: seq<Context>, gaps: seq<Pos>)
    requires AllMarked(ws, GapMarker, gaps)
    requires ContextsOf(ws, contexts, gaps)
    ensures |contexts| == |gaps|
    ensures forall k :: 0 <= k < |gaps| ==>
      var s := ws[gaps[k].sentence];
      && (gaps[k].word == 0 ==> contexts[k].left == StartMark)
      && (gaps[k].word > 0 ==> contexts[k].left == Lower(s[gaps[k].word - 1]))
      && (gaps[k].word == |s| - 1 ==> contexts[k].right == EndMark)
      && (gaps[k].word < |s| - 1 ==> contexts[k].right == Lower(s[gaps[k].word + 1]))
  {
  }

  /** `contexts` holds, in order, the context of each position of `gaps`. */
  ghost predicate ContextsOf(ws: seq<seq<string>>, contexts: seq<Context>, gaps: seq<Pos>)
    requires AllMarked(ws, GapMarker, gaps)
  {
    |contexts| == |gaps| && forall k :: 0 <= k < |gaps| ==> contexts[k] == ContextAt(ws, gaps[k])
  }

  /** The inner loop of `extract_surrounding_words` over the words of
      sentence `si`. */
  method ContextsInSentence(ghost ws: seq<seq<string>>, ghost si: nat, sentence: seq<string>, contexts0: seq<Context>)
    returns (contexts: seq<Context>)
    requires si < |ws| && sentence == ws[si]
    requires ContextsOf(ws, contexts0, MarkedBefore(ws, GapMarker, Pos(si, 0)))
    ensures ContextsOf(ws, contexts, MarkedBefore(ws, GapMarker, Pos(si, |sentence|)))
  {
    contexts := contexts0;
    var wi := 0;
    while wi < |sentence|
      invariant 0 <= wi <= |sentence|
      invariant ContextsOf(ws, contexts, MarkedBefore(ws, GapMarker, Pos(si, wi)))
    {
      ghost var before := MarkedBefore(ws, GapMarker, Pos(si, wi));
      ghost var after := MarkedBefore(ws, GapMarker, Pos(si, wi + 1));
      MarkedStep(ws, GapMarker, si, wi);
      if Contains(sentence[wi], GapMarker) {
        var left := if wi > 0 then Lower(sentence[wi - 1]) else StartMark;
        var right := if wi < |sentence| - 1 then Lower(sentence[wi + 1]) else EndMark;
        assert Context(left, right) == ContextAt(ws, Pos(si, wi));
        contexts := contexts + [Context(left, right)];
        assert after == before + [Pos(si, wi)];
        assert forall k :: 0 <= k < |before| ==> after[k] == before[k];
      } else {
        assert after == before;
      }
      wi := wi + 1;
    }
  }

  /** Every `___` token also holds `__`, so the word before every gap that
      is not first in its sentence was collected as a prefix to track. */
  lemma GapPrefixesAreTracked(cloze: seq<string>, prefixes: set<string>, p: Pos)
    requires forall x :: x in prefixes <==> PrecedesMarked(Tokenize(cloze), KeyMarker, x)
    requires IsMarked(Tokenize(cloze), GapMarker, p)
    requires p.word > 0
    ensures Tokenize(cloze)[p.sentence][p.word - 1] in prefixes
  {
    var ws := Tokenize(cloze);
    ContainsShorterRun(ws[p.sentence][p.word]);
    assert IsMarked(ws, KeyMarker, p);
  }
}
