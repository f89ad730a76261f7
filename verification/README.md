# Cloze solver scoring engine in Dafny

This project models the statistical core of a cloze solver (`cloze/main.py`).
The solver fills the gaps (`___` tokens) of a short text from a list of
candidate words. It works in four stages:

1. It collects the words to track: every word right before a `__` token, and
   the word right after each such token (the suffixes of interest).
2. It builds a co-occurrence table from a corpus.
   - Every tracked word and every candidate gets a dictionary of follower
     counts and a total.
   - A single scan over the corpus lines, with a window (`inspected_group`)
     and an `overflow` flag carried from line to line, counts
     `key -> next token` transitions.
   - Only transitions that pass a filter are counted: prefix to candidate,
     and candidate to suffix.
3. It extracts each gap's context: the lower-cased word on its left and on
   its right, or the sentence-end markers `<s>` / `</s>`.
4. It assigns candidates to gaps greedily, in text order.
   - Every remaining candidate gets a smoothed bigram score
     `(count + 1) / (total + 1000000)` per side, with `0.25` for a missing
     side.
   - The first candidate with the highest score wins and leaves the pool.

Modules, one per stage, in dependency order:

- `Errors`: the `Result` type and the two Python exceptions the assignment
  can raise (`KeyError`, `ValueError`).
- `Text`:
  - ASCII lower-casing;
  - `str.split()` and `str.split(sep)`, each with its round trip;
  - removal of characters;
  - substring containment.
- `CoTable`:
  - the per-key statistics, modelled as a multiset of followers (a token's
    multiplicity is its count) and a total;
  - counting a sequence of transitions (`Apply`), with the laws it obeys.
- `Extract`:
  - the positions of marked tokens, in reading order;
  - the key and suffix extraction;
  - the gap contexts.
- `CorpusScan`:
  - the corpus loop, as written, over one line and over all lines;
  - a closed form of what each line counts and of the state it leaves;
  - `build_dict_by_corpus`.
- `Assign`: the scores, the first-best choice and the greedy assignment.
- `Solve`: `solve_cloze` as the composition of the stages, file contents
  passed in as strings.
- `Scenario`: a worked example of the corpus scan and the choice it leads
  to.

### How the corpus scan behaves as written

The comment at `cloze/main.py:55` describes a sliding window of three tokens over the
corpus stream. The loop at `cloze/main.py:56-84` does something else, and
this model follows the code.

- **Window size.** Each token is appended and the oldest one is popped in
  the same pass, so within a line the window keeps the size it had when the
  line began.
  - On the first line the window starts empty, so the first line is counted
    as plain bigrams (`CorpusScan.FreshLineCountsBigrams`).
  - The window grows only at a line end, through the `continue` at line 69.
- **End of a line.** Every line that is scanned ends with `overflow` raised.
- **The next line.**
  - With `overflow` raised, the scan pairs no window token with any
    follower.
  - It takes at most one token of the next line, then the `break` at line 84
    drops the rest of that line.
  - So after each counted line, the next non-empty line is skipped.
- **Closed form.** From a state with window `g` and no overflow, scan `s` of
  a line pairs each of the `|g| + 1` stream tokens before `line[s + 1]` with
  `line[s + 1]` (`CorpusScan.LineScans`, `CorpusScan.NextState`).
- **Worked example** (`Scenario`): five lines `the dog barked` followed by
  one line `the cat barked`.
  - Lines 2, 4 and 6 are skipped, the `cat` line among them.
  - Lines 3 and 5 see `the` twice.
  - The table ends with `the -> dog` five times, `the -> cat` never, total
    5, and `dog -> barked` three times.
  - A window that always held the last three tokens, as the comment at
    line 55 suggests, would count `dog` 5 and `cat` 1, with total 6.
  - The gap `the ___ barked` is still filled with `dog`.

## Model

| member | source | states |
|---|---|---|
| Text.Lower | cloze/main.py:111-112 | `lower()`: the result has the input's length and no capital letter. Every non-capital is kept, and every capital `A`-`Z` becomes the character 32 code points above it, its small letter. |
| Text.LowerIdempotent | cloze/main.py:49-50 | Lowering the already lower-cased keys changes nothing, so the list of lowered key names is exactly the key set. |
| Text.LowerFixedPoint | cloze/main.py:130 | A string equals its lower-case form exactly when it holds no capital. This is why a lower-case candidate is found among the lowered keys. |
| Text.SplitWords | cloze/main.py:91 | `split()` yields non-empty pieces free of whitespace. |
| Text.SplitWordsMaximal | cloze/main.py:91 | The input is the pieces of `split()` interleaved with runs of whitespace, the inner runs non-empty. So each piece is a maximal run of non-whitespace, and the pieces come in input order. |
| Text.SplitWordsConcat | cloze/main.py:91 | Concatenated, the pieces of `split()` are the input with its whitespace removed. |
| Text.SplitWordsLower | cloze/main.py:60 | Splitting a lower-cased line gives the lower-cased pieces of splitting the line. Lower-casing maps whitespace to whitespace and nothing else to it. |
| Text.SplitJoinWords | cloze/main.py:104 | Splitting words joined by single spaces gives the words back. |
| Text.SplitOn | cloze/main.py:14 | `split('.')` yields at least one piece, no piece contains the separator, and joining the pieces with it restores the input. |
| Text.SplitJoinOn | cloze/main.py:10 | Splitting pieces that avoid the separator, once joined with it, gives the pieces back. |
| Text.RemoveChars | cloze/main.py:14 | `replace(',', '')`: no dropped character is left, and a string without them is unchanged. |
| Text.RemoveCharsCounts | cloze/main.py:14 | Removal keeps every other character as often as the input has it, and leaves no dropped one. |
| Text.RemoveCharsAppend | cloze/main.py:60 | Removal works character by character: removing from a concatenation is removing from each part. With the counts, this fixes the result, order included. |
| Text.ContainsShorterRun | cloze/main.py:109 | Every token that contains `___` also contains `__`. |
| CoTable.Seed | cloze/main.py:45-46 | Seeding gives exactly the requested keys, each with total 0 and no followers. |
| CoTable.BumpCounts | cloze/main.py:79-80 | One count adds the follower once and raises the key's total by one. No other key changes. |
| CoTable.ApplyCounts | cloze/main.py:79-80 | After a run of transitions, each key's followers are its initial followers plus the followers the run records for it. Its total grows by the same number. |
| CoTable.ApplyAppend | cloze/main.py:59 | Counting one run and then another is counting their concatenation. |
| CoTable.ApplyConsistent | cloze/main.py:79-80 | Counting keeps every total equal to the sum of its key's follower counts. |
| CoTable.ApplyFiltered | cloze/main.py:76-80 | Counting only admissible transitions keeps every recorded follower admissible for its key. |
| Extract.Marked | cloze/main.py:90-93 | The positions of the tokens holding a marker: each one is marked, they are strictly in reading order, and every marked position is among them. |
| Extract.GetRelevantPrefixesAndSuffixes | cloze/main.py:87-100 | A word is a tracked prefix exactly when it stands right before a `__` token. The suffixes are the words right after each `__` token that is not last in its sentence, in reading order. Both are collected over the marked positions in reading order. |
| Extract.ExtractSurroundingWords | cloze/main.py:102-115 | One context per `___` token, in reading order. The left side is `<s>` at a sentence start and the lower-cased previous word otherwise. The right side is `</s>` at a sentence end and the lower-cased next word otherwise. The list is `Extract.GapContexts`, the context of every gap in order. |
| Extract.GapPrefixesAreTracked | cloze/main.py:93-111 | The word before any gap that is not first in its sentence is a tracked prefix. |
| CorpusScan.TokenizeLine | cloze/main.py:60 | A corpus line's tokens are the lower-cased `split()` pieces of the line with `\n , . ;` removed. So they are whitespace-free, hold no capital and none of those four characters. |
| CorpusScan.WindowTransitions | cloze/main.py:71-80 | A window pass counts at most one transition per window token. Each is about a tracked key and passes the filter. |
| CorpusScan.WindowTransitionsFrom | cloze/main.py:71-80 | Every transition of a window pass has a window token as its key and the lookahead as its follower. |
| CorpusScan.WindowTransitionsCount | cloze/main.py:71-80 | Conversely, a window pass counts `w -> lookahead` once per occurrence of `w` in the window when `w` is tracked and the pair passes the filter, and never otherwise. |
| CorpusScan.WindowStep | cloze/main.py:71-80 | Looking at one more window token adds exactly its transition when it is tracked and the filter lets the pair through, and nothing otherwise. |
| CorpusScan.NextState | cloze/main.py:59-84 | Between lines the window holds at most three tokens, and at most two unless the flag is up. An empty line changes neither the window nor the flag. |
| CorpusScan.CountWindow | cloze/main.py:71-80 | One window pass adds no key and counts nothing while the flag is up. Otherwise it counts exactly the window's admissible transitions to the lookahead. |
| CorpusScan.ScanLine | cloze/main.py:59-84 | The literal line loop. It ends in the state of the closed form and counts exactly the line's closed-form transitions. An empty line changes nothing, and nothing is counted when the line starts with the flag up. The lookahead index is proved in bounds. |
| CorpusScan.ScanStep | cloze/main.py:63-84 | One pass of the loop keeps the line's invariant: the window and table match the closed form partway through the line. It makes progress, and when it stops at the `break` the state is the closed-form next state and nothing was counted. |
| CorpusScan.ScanCorpus | cloze/main.py:56-84 | The scan over all lines counts exactly the transitions of the corpus run and adds no key. It keeps count consistency and the follower filter. |
| CorpusScan.BuildDictByCorpus | cloze/main.py:31-85 | The keys are exactly the lower-cased prefixes and candidates, and the table is the seeded table with the corpus run counted. Every total is the sum of its follower counts. A candidate key only has suffixes as followers, and any other key only candidates. |
| CorpusScan.FreshLineCountsBigrams | cloze/main.py:62-81 | A line entered with an empty window is counted as its admissible bigrams. |
| Assign.Factor | cloze/main.py:128-131 | Each smoothed factor is strictly positive. |
| Assign.FactorOfUnseenKey | cloze/main.py:128 | A key with total 0 gives every word the factor 1/1000000. |
| Assign.FactorOrder | cloze/main.py:128 | For one key, a word's factor is larger exactly when its follower count is larger. |
| Assign.Score | cloze/main.py:124-133 | A score exists exactly when the prefix lookup (unless `<s>`) and the candidate lookup (unless `</s>`) succeed. Otherwise it is the `KeyError` of the first failing lookup, prefix first. Every score is strictly positive. |
| Assign.SentinelScore | cloze/main.py:124-125 | A gap with no neighbours scores every candidate 0.25 × 0.25 under any table. |
| Assign.PrefixRanking | cloze/main.py:126-133 | For a gap that ends its sentence, one candidate outscores another exactly when it was seen more often after the prefix. |
| Assign.UnseenPrefixScore | cloze/main.py:126-128 | A never-seen prefix at a sentence-final gap gives every candidate 0.25 × 1/1000000. |
| Assign.FirstBestUnique | cloze/main.py:135-137 | The first best candidate is unique, it maximises the score over the pool, and it is the first occurrence of its word. |
| Assign.ChooseBest | cloze/main.py:121-137 | The inner scan succeeds exactly when every candidate can be scored, returning the first candidate of highest score, or `''` for an empty pool. Otherwise it returns the first failing candidate's error. |
| Assign.RemoveFirst | cloze/main.py:140 | `remove(x)` deletes the first occurrence of `x` only, so the pool loses one element and one copy of `x`. |
| Assign.AssignGap | cloze/main.py:121-140 | One gap: the word chosen is in the pool and is its first best. Removal fails with `ValueError('')` only on an empty pool, and an empty pool always ends in exactly that error. Any other failure is the `KeyError` of the first candidate that cannot be scored. With a non-empty, fully scorable pool it succeeds. |
| Assign.GetBestMatches | cloze/main.py:117-142 | On success there is one word per gap, each the first best of the pool the earlier gaps left. The final pool is the candidates with those words removed, so chosen words and final pool together are the candidates. More gaps than candidates fail, and a `ValueError` arises only then, for `''`. When every lookup is possible it succeeds with enough candidates and otherwise fails with exactly `ValueError('')`. Every failure comes after the earlier gaps were filled as on success, at the first gap that finds the pool empty (`ValueError('')`) or holds a candidate it cannot score (that candidate's error, the first such one). |
| Assign.AssignStep | cloze/main.py:139-140 | Choosing the first best word for the next gap and removing it keeps the bookkeeping. The pool is still what the chosen words leave of the candidates, and each chosen word was the first best of its pool. |
| Assign.ChosenDistinct | cloze/main.py:139-140 | Distinct candidates give pairwise distinct answers. |
| Solve.ReadCandidates | cloze/main.py:10 | `split('\n')` of the candidates file: at least one candidate, none holding a line feed, and joining them with line feeds gives the file back. |
| Solve.ReadCloze | cloze/main.py:14 | The sentences hold neither a full stop nor a comma, and joined with full stops they give the file with its commas removed. |
| Solve.TableCovers | cloze/main.py:17-20 | With lower-case candidates, every lookup the assignment makes is in the built table. |
| Solve.SolveCloze | cloze/main.py:6-20 | More gaps than candidates fail, and with no capital in any candidate they fail with exactly `ValueError('')`. With enough candidates and none holding a capital, it succeeds with one word per gap. Each gap's word is the first best candidate for that gap's context, under the table the corpus builds, among those the earlier gaps left. The chosen words and the rest of the pool are the candidates read from the file. |
| Scenario.ScenarioRun | cloze/main.py:56-84 | On five `the dog barked` lines then `the cat barked`, lines 2, 4 and 6 count nothing. The run counts `the -> dog` five times and `dog -> barked` three times. |
| Scenario.ScenarioTable | cloze/main.py:31-85 | The resulting table: `the` has `dog` five times and total 5, `dog` has `barked` three times, and `cat` is untouched. |
| Scenario.ScenarioChoosesDog | cloze/main.py:117-137 | With that table the gap `the ___ barked` chooses `dog` from `dog, cat`. |

## Left out

- **File reading, encodings, the `config.json` driver, printing and timing**
  (`cloze/main.py:7-15`, `51-53`, `151-170`).
  - The cloze text, the candidates text and the corpus lines are parameters
    of `Solve.SolveCloze` and `CorpusScan.BuildDictByCorpus`.
  - The corpus lines are taken as `readlines()` would return them.
- **`print_hit_percentage`** (`cloze/main.py:22-29`): accuracy reporting
  that re-reads a file and prints.
- **The unused `numpy` and `json` imports.**
- **Python floats.** Scores are exact `real` ratios. Float rounding could
  order two nearly equal products differently, and so break a tie
  differently.
- **Unicode text handling.**
  - `lower()` is modelled on ASCII letters only.
  - `split()` only knows the ASCII whitespace characters: space, tab, line
    feed, vertical tab, form feed, carriage return, and the separators
    U+001C to U+001F. Unicode spaces such as U+0085 and U+00A0 are not
    modelled.
  - The regular expression at line 60 is modelled as removing the four
    characters `\n , . ;`.
- **Reading missing keys from the follower `defaultdict`s** at lines 128
  and 131. This inserts a zero entry, which changes no count or total. A
  multiset has no place for a zero count, so this is not modelled.
- **Candidates with capital letters.** These would miss the lowered keys at
  line 130. Success of `Solve.SolveCloze` is stated only for candidates
  without capitals; otherwise the contract still covers failures and the
  multiset relation.
- **The unused `candidates` parameter of
  `get_relevant_prefixes_and_suffixes`** is dropped from
  `Extract.GetRelevantPrefixesAndSuffixes`.
- **`CoTable.Apply` on an untracked key** skips the transition, where the
  dictionary lookup at line 79 would raise `KeyError`. The scan only ever
  counts tracked keys (`CorpusScan.ScanCorpus` proves it), so this case
  never arises.
- **The statistics are reduced to their key set.** The function returns a
  dictionary whose values are all fresh statistics, so the model returns
  only the key set.
- **The `Scenario` words are abstract.** They are any four distinct words,
  so the example holds for `the`, `dog`, `cat` and `barked` in particular.
  - Its candidate list leaves out `car`. That candidate is never in the
    corpus, so it only adds an untouched key and a third, lower-scoring
    choice.
