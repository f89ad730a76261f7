/** The string handling the solver relies on: ASCII lower-casing, Python's
    `str.split()` (runs of whitespace) and `str.split(sep)` (one character),
    character removal and substring containment. */
module Text {

  /** The characters Python's argument-less `str.split()` treats as
      whitespace, restricted to ASCII: space, tab, line feed, vertical tab,
      form feed, carriage return and the four separators U+001C-U+001F. */
  const Whitespace: set<char> :=
    {' ', '\t', '\n', '\U{000B}', '\U{000C}', '\r', '\U{001C}', '\U{001D}', '\U{001E}', '\U{001F}'}

  predicate IsUpper(c: char) {
    'A' <= c <= 'Z'
  }

  /** The string holds no capital letter. */
  predicate NoCapitals(s: string) {
    forall i :: 0 <= i < |s| ==> !IsUpper(s[i])
  }

  function LowerChar(c: char): (d: char)
    ensures !IsUpper(d)
    ensures !IsUpper(c) ==> d == c
    ensures IsUpper(c) ==> d as int == c as int + 32
  {
    if IsUpper(c) then (c as int + 32) as char else c
  }

  /** `s.lower()` on ASCII text. */
  function Lower(s: string): (r: string)
    ensures |r| == |s|
    ensures NoCapitals(r)
    ensures forall i :: 0 <= i < |s| && !IsUpper(s[i]) ==> r[i] == s[i]
    ensures forall i :: 0 <= i < |s| && IsUpper(s[i]) ==> r[i] as int == s[i] as int + 32
  {
    seq(|s|, i requires 0 <= i < |s| => LowerChar(s[i]))
  }

  lemma LowerIdempotent(s: string)
    ensures Lower(Lower(s)) == Lower(s)
  {
  }

  /** A string is its own lower-case form exactly when it holds no capital. */
  lemma LowerFixedPoint(s: string)
    ensures Lower(s) == s <==> NoCapitals(s)
  {
    if Lower(s) == s {
      forall i | 0 <= i < |s| ensures !IsUpper(s[i]) {
        assert s[i] == Lower(s)[i];
      }
    }
  }

  /** `pat in s` for strings: `pat` occurs as a contiguous piece of `s`. */
  predicate Contains(s: string, pat: string) {
    exists i :: 0 <= i <= |s| && OccursAt(s, pat, i)
  }

  predicate OccursAt(s: string, pat: string, i: nat) {
    i + |pat| <= |s| && s[i..i + |pat|] == pat
  }

  /** Every token holding three underscores also holds two. */
  lemma ContainsShorterRun(s: string)
    requires Contains(s, "___")
    ensures Contains(s, "__")
  {
    var i :| 0 <= i <= |s| && OccursAt(s, "___", i);
    assert s[i..i + 2] == s[i..i + 3][..2];
    assert OccursAt(s, "__", i);
  }

  /** The string with every character of `drop` deleted, the rest kept in order. */
  function RemoveChars(s: string, drop: set<char>): (r: string)
    ensures |r| <= |s|
    ensures forall i :: 0 <= i < |r| ==> r[i] !in drop
    ensures (forall i :: 0 <= i < |s| ==> s[i] !in drop) ==> r == s
    decreases |s|
  {
    if |s| == 0 then ""
    else if s[0] in drop then RemoveChars(s[1..], drop)
    else [s[0]] + RemoveChars(s[1..], drop)
  }

  /** Removal keeps every other character exactly as often as it occurs;
      with `RemoveCharsAppend` this pins the result down, order included. */
  lemma {:induction false} RemoveCharsCounts(s: string, drop: set<char>, c: char)
    ensures multiset(RemoveChars(s, drop))[c] == if c in drop then 0 else multiset(s)[c]
    decreases |s|
  {
    if |s| > 0 {
      assert s == [s[0]] + s[1..];
      RemoveCharsCounts(s[1..], drop, c);
    }
  }

  lemma {:induction false} RemoveCharsAppend(a: string, b: string, drop: set<char>)
    ensures RemoveChars(a + b, drop) == RemoveChars(a, drop) + RemoveChars(b, drop)
    decreases |a|
  {
    if |a| > 0 {
      assert (a + b)[1..] == a[1..] + b;
      RemoveCharsAppend(a[1..], b, drop);
    } else {
      assert a + b == b;
    }
  }

  /** A word as `str.split()` yields it: non-empty and free of whitespace. */
  predicate IsWord(w: string) {
    |w| > 0 && forall i :: 0 <= i < |w| ==> w[i] !in Whitespace
  }

  function Concat(ws: seq<string>): string
    decreases |ws|
  {
    if |ws| == 0 then "" else ws[0] + Concat(ws[1..])
  }

  /** Length of the longest whitespace-free prefix of `s`. */
  function WordLength(s: string): (n: nat)
    ensures n <= |s|
    ensures forall i :: 0 <= i < n ==> s[i] !in Whitespace
    ensures n < |s| ==> s[n] in Whitespace
    decreases |s|
  {
    if |s| == 0 || s[0] in Whitespace then 0 else 1 + WordLength(s[1..])
  }

  /** `s.split()`: the maximal whitespace-free runs of `s`, in order. */
  function SplitWords(s: string): (ws: seq<string>)
    ensures forall k :: 0 <= k < |ws| ==> IsWord(ws[k])
    decreases |s|
  {
    if |s| == 0 then []
    else if s[0] in Whitespace then SplitWords(s[1..])
    else
      var n := WordLength(s);
      [s[..n]] + SplitWords(s[n..])
  }

  /** Concatenated, the pieces are the input with its whitespace removed. */
  lemma {:induction false} SplitWordsConcat(s: string)
    ensures Concat(SplitWords(s)) == RemoveChars(s, Whitespace)
    decreases |s|
  {
    if |s| > 0 && s[0] in Whitespace {
      SplitWordsConcat(s[1..]);
    } else if |s| > 0 {
      var n := WordLength(s);
      SplitWordsConcat(s[n..]);
      assert s == s[..n] + s[n..];
      RemoveCharsAppend(s[..n], s[n..], Whitespace);
      var ws' := SplitWords(s[n..]);
      assert ([s[..n]] + ws')[1..] == ws';
    }
  }

  /** Text made of whitespace only (possibly none). */
  predicate IsSpace(sp: string) {
    forall i :: 0 <= i < |sp| ==> sp[i] in Whitespace
  }

  /** Separators for words: all whitespace, and non-empty between two
      words; the first and the last may be empty. */
  predicate Separators(seps: seq<string>) {
    && (forall k :: 0 <= k < |seps| ==> IsSpace(seps[k]))
    && (forall k :: 0 < k < |seps| - 1 ==> |seps[k]| > 0)
  }

  /** `seps[0] + ws[0] + seps[1] + ... + ws[n - 1] + seps[n]`. */
  function Interleave(seps: seq<string>, ws: seq<string>): string
    requires |seps| == |ws| + 1
    decreases |ws|
  {
    if |ws| == 0 then seps[0] else seps[0] + ws[0] + Interleave(seps[1..], ws[1..])
  }

  /** Text in front of the first separator joins it. */
  lemma InterleaveFront(pre: string, seps: seq<string>, ws: seq<string>)
    requires |seps| == |ws| + 1
    ensures Interleave([pre + seps[0]] + seps[1..], ws) == pre + Interleave(seps, ws)
  {
    var seps' := [pre + seps[0]] + seps[1..];
    assert seps'[1..] == seps[1..];
  }

  /** A word in front, with no separator before it. */
  lemma InterleaveWord(w: string, seps: seq<string>, ws: seq<string>)
    requires |seps| == |ws| + 1
    ensures Interleave([""] + seps, [w] + ws) == w + Interleave(seps, ws)
  {
    var seps', ws' := [""] + seps, [w] + ws;
    assert seps'[1..] == seps && ws'[1..] == ws && seps'[0] == "" && ws'[0] == w;
    calc {
      Interleave(seps', ws');
      seps'[0] + ws'[0] + Interleave(seps'[1..], ws'[1..]);
      "" + w + Interleave(seps, ws);
      { assert "" + w == w; }
      w + Interleave(seps, ws);
    }
  }

  /** The pieces of `split()` are the maximal whitespace-free runs: the
      input is whitespace, then the pieces separated by non-empty
      whitespace, then whitespace. As the pieces hold no whitespace, no
      piece can be extended and no two pieces belong to one run. */
  lemma {:induction false} SplitWordsMaximal(s: string)
    ensures exists seps :: |seps| == |SplitWords(s)| + 1 && Separators(seps) && Interleave(seps, SplitWords(s)) == s
    decreases |s|
  {
    var ws := SplitWords(s);
    if |s| == 0 {
      assert Separators([""]) && Interleave([""], ws) == s;
    } else if s[0] in Whitespace {
      SplitWordsMaximal(s[1..]);
      var seps' :| |seps'| == |ws| + 1 && Separators(seps') && Interleave(seps', ws) == s[1..];
      var seps := [[s[0]] + seps'[0]] + seps'[1..];
      InterleaveFront([s[0]], seps', ws);
      assert s == [s[0]] + s[1..];
      assert Separators(seps) by {
        forall k | 0 <= k < |seps| ensures IsSpace(seps[k]) {
          if k > 0 { assert seps[k] == seps'[k]; }
        }
        forall k | 0 < k < |seps| - 1 ensures |seps[k]| > 0 {
          assert seps[k] == seps'[k];
        }
      }
    } else {
      var n := WordLength(s);
      SplitWordsMaximal(s[n..]);
      var seps' :| |seps'| == |SplitWords(s[n..])| + 1 && Separators(seps') && Interleave(seps', SplitWords(s[n..])) == s[n..];
      SplitWordsMaximalWord(s, seps');
    }
  }

  /** The step of `SplitWordsMaximal` for a string that starts with a word:
      the word goes in front with an empty first separator. */
  lemma SplitWordsMaximalWord(s: string, seps': seq<string>)
    requires |s| > 0 && s[0] !in Whitespace
    requires |seps'| == |SplitWords(s[WordLength(s)..])| + 1 && Separators(seps')
    requires Interleave(seps', SplitWords(s[WordLength(s)..])) == s[WordLength(s)..]
    ensures exists seps :: |seps| == |SplitWords(s)| + 1 && Separators(seps) && Interleave(seps, SplitWords(s)) == s
  {
    var n := WordLength(s);
    var rest := s[n..];
    var ws' := SplitWords(rest);
    var ws := SplitWords(s);
    assert ws == [s[..n]] + ws';
    var seps := [""] + seps';
    InterleaveWord(s[..n], seps', ws');
    assert s == s[..n] + rest;
    if |ws'| > 0 {
      assert rest == seps'[0] + ws'[0] + Interleave(seps'[1..], ws'[1..]);
      SpaceBeforeWord(seps'[0], ws'[0], Interleave(seps'[1..], ws'[1..]));
    }
    assert Separators(seps) by {
      forall k | 0 < k < |seps| ensures IsSpace(seps[k]) && (k < |seps| - 1 ==> |seps[k]| > 0) {
        assert seps[k] == seps'[k - 1];
      }
    }
    assert Interleave(seps, ws) == s;
  }

  lemma LowerCharSpace(c: char)
    ensures LowerChar(c) in Whitespace <==> c in Whitespace
  {
    if IsUpper(c) {
      assert 'a' <= LowerChar(c) <= 'z';
    }
  }

  lemma WhitespaceNotUpper(c: char)
    requires c in Whitespace
    ensures !IsUpper(c) && LowerChar(c) == c
  {
  }

  /** Text that starts with whitespace and continues with a word has a
      non-empty separator in front of the word. */
  lemma SpaceBeforeWord(sep: string, w: string, rest: string)
    requires IsWord(w)
    requires |sep + w + rest| > 0 && (sep + w + rest)[0] in Whitespace
    ensures |sep| > 0
  {
    assert (sep + w + rest)[0] != w[0];
  }

  /** Every word lower-cased. */
  function LowerAll(ws: seq<string>): (r: seq<string>)
    ensures |r| == |ws|
    ensures forall k :: 0 <= k < |ws| ==> r[k] == Lower(ws[k])
    decreases |ws|
  {
    if |ws| == 0 then [] else [Lower(ws[0])] + LowerAll(ws[1..])
  }

  /** Lower-casing works character by character, so it commutes with
      slicing. */
  lemma LowerSplitAt(s: string, n: nat)
    requires n <= |s|
    ensures Lower(s)[..n] == Lower(s[..n])
    ensures Lower(s)[n..] == Lower(s[n..])
  {
    var l := Lower(s);
    forall i | 0 <= i < n ensures l[..n][i] == Lower(s[..n])[i] {
      assert l[..n][i] == LowerChar(s[i]);
      assert Lower(s[..n])[i] == LowerChar(s[..n][i]);
    }
    forall i | 0 <= i < |s| - n ensures l[n..][i] == Lower(s[n..])[i] {
      assert l[n..][i] == LowerChar(s[n + i]);
      assert Lower(s[n..])[i] == LowerChar(s[n..][i]);
    }
  }

  lemma {:induction false} WordLengthLower(s: string)
    ensures WordLength(Lower(s)) == WordLength(s)
    decreases |s|
  {
    if |s| > 0 {
      var l := Lower(s);
      assert l[0] == LowerChar(s[0]);
      LowerCharSpace(s[0]);
      LowerSplitAt(s, 1);
      WordLengthLower(s[1..]);
    }
  }

  /** Lower-casing before splitting gives the lower-cased pieces: no
      whitespace character is a letter. */
  lemma {:induction false} SplitWordsLower(s: string)
    ensures SplitWords(Lower(s)) == LowerAll(SplitWords(s))
    decreases |s|
  {
    if |s| > 0 {
      if s[0] in Whitespace {
        SplitWordsLower(s[1..]);
        SplitWordsLowerSpace(s);
      } else {
        SplitWordsLower(s[WordLength(s)..]);
        SplitWordsLowerWord(s);
      }
    }
  }

  lemma SplitWordsLowerSpace(s: string)
    requires |s| > 0 && s[0] in Whitespace
    requires SplitWords(Lower(s[1..])) == LowerAll(SplitWords(s[1..]))
    ensures SplitWords(Lower(s)) == LowerAll(SplitWords(s))
  {
    var l := Lower(s);
    WhitespaceNotUpper(s[0]);
    assert l[0] == LowerChar(s[0]) == s[0];
    assert l[0] in Whitespace;
    LowerSplitAt(s, 1);
    calc {
      SplitWords(l);
      SplitWords(l[1..]);
      SplitWords(Lower(s[1..]));
      LowerAll(SplitWords(s[1..]));
      LowerAll(SplitWords(s));
    }
  }

  lemma SplitWordsLowerWord(s: string)
    requires |s| > 0 && s[0] !in Whitespace
    requires SplitWords(Lower(s[WordLength(s)..])) == LowerAll(SplitWords(s[WordLength(s)..]))
    ensures SplitWords(Lower(s)) == LowerAll(SplitWords(s))
  {
    var l := Lower(s);
    var n := WordLength(s);
    WordLengthLower(s);
    LowerSplitAt(s, n);
    var ws' := SplitWords(s[n..]);
    assert SplitWords(s) == [s[..n]] + ws';
    assert SplitWords(l) == [Lower(s[..n])] + SplitWords(Lower(s[n..]));
    assert ([s[..n]] + ws')[1..] == ws';
    assert LowerAll([s[..n]] + ws') == [Lower(s[..n])] + LowerAll(ws');
  }

  /** Words joined by single spaces, the inverse of `SplitWords` on words. */
  function JoinWords(ws: seq<string>): string
    decreases |ws|
  {
    if |ws| == 0 then ""
    else if |ws| == 1 then ws[0]
    else ws[0] + " " + JoinWords(ws[1..])
  }

  lemma {:induction false} SplitJoinWords(ws: seq<string>)
    requires forall k :: 0 <= k < |ws| ==> IsWord(ws[k])
    ensures SplitWords(JoinWords(ws)) == ws
    decreases |ws|
  {
    if |ws| == 1 {
      var w := ws[0];
      assert WordLength(w) == |w| by { WordLengthOfWord(w, ""); assert w + "" == w; }
      assert w[..|w|] == w;
      assert w[|w|..] == "";
    } else if |ws| > 1 {
      var w, rest := ws[0], JoinWords(ws[1..]);
      var s := w + " " + rest;
      assert s == w + (" " + rest);
      WordLengthOfWord(w, " " + rest);
      assert s[..|w|] == w;
      assert s[|w|..] == " " + rest;
      assert (" " + rest)[1..] == rest;
      SplitJoinWords(ws[1..]);
    }
  }

  lemma {:induction false} WordLengthOfWord(w: string, tail: string)
    requires IsWord(w)
    requires |tail| == 0 || tail[0] in Whitespace
    ensures WordLength(w + tail) == |w|
    decreases |w|
  {
    var s := w + tail;
    if |w| > 1 {
      assert s[1..] == w[1..] + tail;
      WordLengthOfWord(w[1..], tail);
    } else {
      assert s[1..] == tail;
    }
  }

  /** The pieces joined back with `sep` between consecutive ones. */
  function JoinOn(ps: seq<string>, sep: char): string
    decreases |ps|
  {
    if |ps| == 0 then ""
    else if |ps| == 1 then ps[0]
    else ps[0] + [sep] + JoinOn(ps[1..], sep)
  }

  /** Every character of a piece appears in the joined text. */
  lemma {:induction false} JoinOnHolds(ps: seq<string>, sep: char, k: int, i: int)
    requires 0 <= k < |ps| && 0 <= i < |ps[k]|
    ensures ps[k][i] in JoinOn(ps, sep)
    decreases |ps|
  {
    if |ps| > 1 {
      if k == 0 {
        assert JoinOn(ps, sep)[i] == ps[0][i];
      } else {
        JoinOnHolds(ps[1..], sep, k - 1, i);
        var rest := JoinOn(ps[1..], sep);
        var j :| 0 <= j < |rest| && rest[j] == ps[k][i];
        assert JoinOn(ps, sep)[|ps[0]| + 1 + j] == rest[j];
      }
    }
  }

  /** Index of the first occurrence of `x` in `s`. */
  function IndexOf<T(==)>(s: seq<T>, x: T): (i: nat)
    requires x in s
    ensures i < |s| && s[i] == x
    ensures x !in s[..i]
    decreases |s|
  {
    if s[0] == x then 0 else 1 + IndexOf(s[1..], x)
  }

  /** `s.split(sep)`: never empty, no piece holds `sep`, and joining the
      pieces with `sep` gives `s` back. */
  function SplitOn(s: string, sep: char): (ps: seq<string>)
    ensures |ps| >= 1
    ensures forall k :: 0 <= k < |ps| ==> sep !in ps[k]
    ensures JoinOn(ps, sep) == s
    decreases |s|
  {
    if sep !in s then [s]
    else
      var i := IndexOf(s, sep);
      assert s == s[..i] + [sep] + s[i + 1..];
      [s[..i]] + SplitOn(s[i + 1..], sep)
  }

  /** The other round trip: splitting joined pieces that hold no separator
      gives the pieces back. */
  lemma {:induction false} SplitJoinOn(ps: seq<string>, sep: char)
    requires |ps| >= 1
    requires forall k :: 0 <= k < |ps| ==> sep !in ps[k]
    ensures SplitOn(JoinOn(ps, sep), sep) == ps
    decreases |ps|
  {
    if |ps| > 1 {
      var p, rest := ps[0], JoinOn(ps[1..], sep);
      var s := p + [sep] + rest;
      assert sep in s by { assert s[|p|] == sep; }
      var i := IndexOf(s, sep);
      assert i == |p|;
      assert s[..i] == p;
      assert s[i + 1..] == rest;
      SplitJoinOn(ps[1..], sep);
    }
  }
}
