/** The string primitives the scorer and the template renderer rely on, for ASCII text:
    Python's `str.lower`, `in` on strings, `str.split()`, `str.strip()`,
    `re.findall(r'\b\w+\b', s)` and `re.split(r'[.!?]+', s)`. */
module Text {

  // ---------------------------------------------------------------- character classes

  /** Python's `\w` restricted to ASCII: letters, digits and the underscore. */
  predicate IsWordChar(c: char) {
    ('a' <= c <= 'z') || ('A' <= c <= 'Z') || ('0' <= c <= '9') || c == '_'
  }

  /** The ASCII characters `str.isspace` accepts: tab through carriage return, the
      separators 0x1C-0x1F and the space. */
  predicate IsSpace(c: char) {
    c == ' ' || ('\t' <= c <= '\r') || ('\U{1C}' <= c <= '\U{1F}')
  }

  predicate IsNonSpace(c: char) {
    !IsSpace(c)
  }

  /** A character of the class `[.!?]`. */
  predicate IsTerminator(c: char) {
    c == '.' || c == '!' || c == '?'
  }

  predicate IsNonTerminator(c: char) {
    !IsTerminator(c)
  }

  function LowerChar(c: char): char {
    if 'A' <= c <= 'Z' then (c as int - 'A' as int + 'a' as int) as char else c
  }

  /** `str.lower()` on ASCII text: every upper-case letter is replaced by its lower-case form. */
  function Lower(s: string): (r: string)
    ensures |r| == |s|
    ensures forall i :: 0 <= i < |s| ==> r[i] == LowerChar(s[i])
  {
    if |s| == 0 then [] else [LowerChar(s[0])] + Lower(s[1..])
  }

  /** Text without upper-case letters is its own lower-case form. */
  lemma LowerFixed(s: string)
    requires forall i :: 0 <= i < |s| ==> !('A' <= s[i] <= 'Z')
    ensures Lower(s) == s
  {
    assert forall i :: 0 <= i < |s| ==> Lower(s)[i] == s[i];
  }

  lemma LowerAppend(a: string, b: string)
    ensures Lower(a + b) == Lower(a) + Lower(b)
  {
    var ab, la, lb := Lower(a + b), Lower(a), Lower(b);
    forall i | 0 <= i < |ab|
      ensures ab[i] == (la + lb)[i]
    {
      if i < |a| {
        assert (a + b)[i] == a[i];
      } else {
        assert (a + b)[i] == b[i - |a|];
      }
    }
  }

  // ---------------------------------------------------------------- substring presence

  /** Python's `w in s` for strings: `w` is a prefix of some suffix of `s`. */
  predicate Contains(s: string, w: string)
    decreases |s|
  {
    w <= s || (|s| > 0 && Contains(s[1..], w))
  }

  /** Reference definition of an occurrence: `w` appears in `s` starting at index `i`. */
  predicate OccursAt(s: string, w: string, i: int) {
    0 <= i && i + |w| <= |s| && s[i..i + |w|] == w
  }

  /** An occurrence at any position is found by the scan. */
  lemma {:induction false} OccursImpliesContains(s: string, w: string, i: int)
    requires OccursAt(s, w, i)
    ensures Contains(s, w)
    decreases i
  {
    if i == 0 {
      assert w == s[..|w|];
    } else {
      assert s[1..][i - 1..i - 1 + |w|] == s[i..i + |w|];
      OccursImpliesContains(s[1..], w, i - 1);
    }
  }

  /** The scan only succeeds where there is an occurrence; the witness is returned. */
  lemma {:induction false} ContainsImpliesOccurs(s: string, w: string) returns (i: int)
    requires Contains(s, w)
    ensures OccursAt(s, w, i)
    decreases |s|
  {
    if w <= s {
      i := 0;
    } else {
      var j := ContainsImpliesOccurs(s[1..], w);
      assert s[1..][j..j + |w|] == s[j + 1..j + 1 + |w|];
      i := j + 1;
    }
  }

  /** `any(w in s for w in words)`. */
  predicate AnyPresent(words: seq<string>, s: string) {
    exists i :: 0 <= i < |words| && Contains(s, words[i])
  }

  /** Some entry of `words` occurs in `s` exactly when one has an occurrence at some index. */
  lemma AnyPresentOccurs(words: seq<string>, s: string)
    ensures AnyPresent(words, s) <==> exists k, i :: 0 <= k < |words| && OccursAt(s, words[k], i)
  {
    if AnyPresent(words, s) {
      var k :| 0 <= k < |words| && Contains(s, words[k]);
      var i := ContainsImpliesOccurs(s, words[k]);
    }
    if exists k, i :: 0 <= k < |words| && OccursAt(s, words[k], i) {
      var k, i :| 0 <= k < |words| && OccursAt(s, words[k], i);
      OccursImpliesContains(s, words[k], i);
    }
  }

  /** `sum(1 for w in words if w in s)`: how many entries of `words` occur in `s`. */
  function CountPresent(words: seq<string>, s: string): (n: nat)
    ensures n <= |words|
    ensures n == 0 <==> !AnyPresent(words, s)
  {
    if |words| == 0 then 0
    else
      assert forall i :: 0 < i < |words| ==> words[i] == words[1..][i - 1];
      (if Contains(s, words[0]) then 1 else 0) + CountPresent(words[1..], s)
  }

  predicate Distinct<T(==)>(xs: seq<T>) {
    forall i, j :: 0 <= i < j < |xs| ==> xs[i] != xs[j]
  }

  /** The set of entries of `words` that occur in `s`. */
  function PresentSet(words: seq<string>, s: string): set<string> {
    set w | w in words && Contains(s, w)
  }

  /** The tail of a list without repeats has none, and does not hold the head. */
  lemma DistinctTail(words: seq<string>)
    requires Distinct(words) && |words| > 0
    ensures Distinct(words[1..]) && words[0] !in words[1..]
  {
    var rest := words[1..];
    forall i, j | 0 <= i < j < |rest|
      ensures rest[i] != rest[j]
    {
      assert rest[i] == words[i + 1] && rest[j] == words[j + 1];
    }
    forall j | 0 <= j < |rest|
      ensures rest[j] != words[0]
    {
      assert rest[j] == words[j + 1];
    }
  }

  /** For a list without repeats, the count is the number of distinct entries present. */
  lemma {:induction false} CountPresentIsCardinality(words: seq<string>, s: string)
    requires Distinct(words)
    ensures CountPresent(words, s) == |PresentSet(words, s)|
  {
    if |words| == 0 {
      assert PresentSet(words, s) == {};
    } else {
      var rest := words[1..];
      DistinctTail(words);
      CountPresentIsCardinality(rest, s);
      assert words == [words[0]] + rest;
      if Contains(s, words[0]) {
        assert PresentSet(words, s) == {words[0]} + PresentSet(rest, s);
      } else {
        assert PresentSet(words, s) == PresentSet(rest, s);
      }
    }
  }

  // ---------------------------------------------------------------- maximal runs

  /** Length of the longest prefix of `s` made only of characters satisfying `inRun`. */
  function RunLength(s: string, inRun: char -> bool): (n: nat)
    ensures n <= |s|
    ensures forall i :: 0 <= i < n ==> inRun(s[i])
    ensures n < |s| ==> !inRun(s[n])
  {
    if |s| == 0 || !inRun(s[0]) then 0 else 1 + RunLength(s[1..], inRun)
  }

  lemma RunLengthUnique(s: string, inRun: char -> bool, n: nat)
    requires n <= |s|
    requires forall i :: 0 <= i < n ==> inRun(s[i])
    requires n < |s| ==> !inRun(s[n])
    ensures RunLength(s, inRun) == n
  {
  }

  /** The maximal runs of characters satisfying `inRun`, left to right; this is what
      `re.findall` returns for the pattern `c+` (or `\b\w+\b` when `c` is `\w`). */
  function Runs(s: string, inRun: char -> bool): (r: seq<string>)
    ensures forall k :: 0 <= k < |r| ==> |r[k]| > 0
    ensures forall k, i :: 0 <= k < |r| && 0 <= i < |r[k]| ==> inRun(r[k][i])
    decreases |s|
  {
    if |s| == 0 then []
    else if !inRun(s[0]) then Runs(s[1..], inRun)
    else
      var n := RunLength(s, inRun);
      [s[..n]] + Runs(s[n..], inRun)
  }

  /** There are no runs exactly when no character is in the class. */
  lemma {:induction false} RunsEmpty(s: string, inRun: char -> bool)
    ensures |Runs(s, inRun)| == 0 <==> forall i :: 0 <= i < |s| ==> !inRun(s[i])
  {
    if |s| > 0 && !inRun(s[0]) {
      RunsEmpty(s[1..], inRun);
      assert forall i :: 0 < i < |s| ==> s[i] == s[1..][i - 1];
    }
  }

  /** Runs are separated by at least one character outside the class, so a text of length
      `n` holds at most `(n + 1) / 2` of them. */
  lemma {:induction false} RunsBound(s: string, inRun: char -> bool)
    ensures |Runs(s, inRun)| <= (|s| + 1) / 2
    decreases |s|
  {
    if |s| > 0 {
      if !inRun(s[0]) {
        RunsBound(s[1..], inRun);
      } else {
        var n := RunLength(s, inRun);
        var t := s[n..];
        if |t| > 0 {
          assert t[0] == s[n];
          assert Runs(t, inRun) == Runs(t[1..], inRun);
          RunsBound(t[1..], inRun);
        }
      }
    }
  }

  /** A prefix with no run characters contributes no runs. */
  lemma {:induction false} RunsSkip(s: string, inRun: char -> bool, i: nat)
    requires i <= |s|
    requires forall k :: 0 <= k < i ==> !inRun(s[k])
    ensures Runs(s, inRun) == Runs(s[i..], inRun)
    decreases i
  {
    if i > 0 {
      RunsSkip(s[1..], inRun, i - 1);
      assert s[1..][i - 1..] == s[i..];
    }
  }

  /** A single character of the class is a single run. */
  lemma RunsOfOne(c: char, inRun: char -> bool)
    requires inRun(c)
    ensures Runs([c], inRun) == [[c]]
  {
    var one: string := [c];
    assert RunLength(one, inRun) == 1;
    assert one[..1] == one && one[1..] == [];
  }

  /** A character outside the class separates the runs on its left from those on its right. */
  lemma {:induction false} RunsSplitAt(a: string, c: char, b: string, inRun: char -> bool)
    requires !inRun(c)
    ensures Runs(a + [c] + b, inRun) == Runs(a, inRun) + Runs(b, inRun)
    decreases |a|
  {
    var s := a + [c] + b;
    if |a| == 0 {
      assert s[1..] == b;
      assert Runs(s, inRun) == Runs(s[1..], inRun);
    } else if !inRun(a[0]) {
      assert s[1..] == a[1..] + [c] + b;
      assert Runs(s, inRun) == Runs(s[1..], inRun);
      RunsSplitAt(a[1..], c, b, inRun);
    } else {
      var m := RunLength(a, inRun);
      RunsOfPrefixRun(a, c, b, inRun, m);
      RunsSplitAt(a[m..], c, b, inRun);
    }
  }

  /** The first run of `a + [c] + b`, for `a` starting with a run of length `m`, is that run. */
  lemma RunsOfPrefixRun(a: string, c: char, b: string, inRun: char -> bool, m: nat)
    requires !inRun(c)
    requires 0 < |a| && inRun(a[0]) && m == RunLength(a, inRun)
    ensures Runs(a + [c] + b, inRun) == [a[..m]] + Runs(a[m..] + [c] + b, inRun)
    ensures Runs(a, inRun) == [a[..m]] + Runs(a[m..], inRun)
  {
    var s := a + [c] + b;
    assert s[m..] == a[m..] + [c] + b;
    assert s[..m] == a[..m];
    RunLengthUnique(s, inRun, m);
  }

  /** `re.findall(r'\b\w+\b', s)`: the maximal runs of word characters. */
  function Words(s: string): (ws: seq<string>)
    ensures forall k, i :: 0 <= k < |ws| && 0 <= i < |ws[k]| ==> IsWordChar(ws[k][i])
    ensures forall k :: 0 <= k < |ws| ==> |ws[k]| > 0
    ensures |ws| == 0 <==> forall i :: 0 <= i < |s| ==> !IsWordChar(s[i])
  {
    RunsEmpty(s, IsWordChar);
    Runs(s, IsWordChar)
  }

  /** `s.split()` with no separator: the maximal runs of non-whitespace. */
  function Fields(s: string): (fs: seq<string>)
    ensures forall k, i :: 0 <= k < |fs| && 0 <= i < |fs[k]| ==> !IsSpace(fs[k][i])
    ensures forall k :: 0 <= k < |fs| ==> |fs[k]| > 0
    ensures |fs| == 0 <==> forall i :: 0 <= i < |s| ==> IsSpace(s[i])
  {
    RunsEmpty(s, IsNonSpace);
    Runs(s, IsNonSpace)
  }

  // ---------------------------------------------------------------- splitting and stripping

  /** `re.split(r'[.!?]+', s)`: the pieces between maximal runs of terminators, keeping the
      empty pieces before a leading run and after a trailing one. */
  function SplitSentences(s: string): (r: seq<string>)
    ensures |r| >= 1
    ensures forall k, i :: 0 <= k < |r| && 0 <= i < |r[k]| ==> !IsTerminator(r[k][i])
    decreases |s|
  {
    var i := RunLength(s, IsNonTerminator);
    if i == |s| then [s]
    else
      var j := i + RunLength(s[i..], IsTerminator);
      [s[..i]] + SplitSentences(s[j..])
  }

  /** The split yields one piece more than there are runs of terminators, so even the
      empty string and a text ending in a terminator keep an (empty) piece. */
  lemma {:induction false} SplitSentencesCount(s: string)
    ensures |SplitSentences(s)| == 1 + |Runs(s, IsTerminator)|
    decreases |s|
  {
    var i := RunLength(s, IsNonTerminator);
    RunsSkip(s, IsTerminator, i);
    if i < |s| {
      var t := s[i..];
      var m := RunLength(t, IsTerminator);
      var j := i + m;
      assert t[m..] == s[j..];
      SplitSentencesCount(s[j..]);
    } else {
      assert s[i..] == [];
    }
  }

  /** The pieces with the separators between them: `ps[0] + seps[0] + ps[1] + ...`. */
  function Interleave(ps: seq<string>, seps: seq<string>): string
    requires |ps| == |seps| + 1
  {
    if |seps| == 0 then ps[0] else ps[0] + seps[0] + Interleave(ps[1..], seps[1..])
  }

  /** The pieces of the split, put back together with the maximal runs of terminators they
      were split at, give the text again: the pieces are exactly the segments between
      those runs. */
  lemma {:induction false} SplitSentencesRebuild(s: string)
    ensures |SplitSentences(s)| == |Runs(s, IsTerminator)| + 1
    ensures Interleave(SplitSentences(s), Runs(s, IsTerminator)) == s
    decreases |s|
  {
    var i := RunLength(s, IsNonTerminator);
    RunsSkip(s, IsTerminator, i);
    if i == |s| {
      assert s[i..] == [];
    } else {
      var j := SentenceStep(s, i);
      SplitSentencesRebuild(s[j..]);
      InterleaveCons(s[..i], s[i..j], SplitSentences(s[j..]), Runs(s[j..], IsTerminator));
      ThreeSlices(s, i, j);
    }
  }

  lemma ThreeSlices(s: string, i: nat, j: nat)
    requires i <= j <= |s|
    ensures s[..i] + s[i..j] + s[j..] == s
  {
  }

  /** One step of the split: the first piece ends at the first terminator, at `i`, and the
      run of terminators starting there, up to `j`, is the first run. */
  lemma SentenceStep(s: string, i: nat) returns (j: nat)
    requires i == RunLength(s, IsNonTerminator) < |s|
    ensures i < j <= |s|
    ensures SplitSentences(s) == [s[..i]] + SplitSentences(s[j..])
    ensures Runs(s[i..], IsTerminator) == [s[i..j]] + Runs(s[j..], IsTerminator)
  {
    j := i + RunLength(s[i..], IsTerminator);
    assert s[i..][0] == s[i];
    SplitSentencesUnfold(s, i, j);
    TerminatorRun(s, i, j);
  }

  lemma SplitSentencesUnfold(s: string, i: nat, j: nat)
    requires i == RunLength(s, IsNonTerminator) < |s|
    requires j == i + RunLength(s[i..], IsTerminator)
    ensures SplitSentences(s) == [s[..i]] + SplitSentences(s[j..])
  {
  }

  lemma TerminatorRun(s: string, i: nat, j: nat)
    requires i < |s| && IsTerminator(s[i]) && j == i + RunLength(s[i..], IsTerminator)
    ensures Runs(s[i..], IsTerminator) == [s[i..j]] + Runs(s[j..], IsTerminator)
  {
    var t := s[i..];
    RunsAtStart(t, IsTerminator);
    assert t[j - i..] == s[j..] && t[..j - i] == s[i..j];
  }

  /** A text starting with a character of the class starts with its first run. */
  lemma RunsAtStart(t: string, inRun: char -> bool)
    requires |t| > 0 && inRun(t[0])
    ensures Runs(t, inRun) == [t[..RunLength(t, inRun)]] + Runs(t[RunLength(t, inRun)..], inRun)
  {
  }

  lemma InterleaveCons(p: string, sep: string, ps: seq<string>, seps: seq<string>)
    requires |ps| == |seps| + 1
    ensures Interleave([p] + ps, [sep] + seps) == p + sep + Interleave(ps, seps)
  {
    assert ([p] + ps)[1..] == ps && ([sep] + seps)[1..] == seps;
  }

  /** Every piece of the split is a segment of the text; `pos` gives where each one starts. */
  lemma {:induction false} SplitSentencesOccur(s: string) returns (pos: seq<int>)
    ensures |pos| == |SplitSentences(s)|
    ensures forall k :: 0 <= k < |pos| ==> OccursAt(s, SplitSentences(s)[k], pos[k])
    decreases |s|
  {
    var i := RunLength(s, IsNonTerminator);
    if i == |s| {
      assert SplitSentences(s) == [s] && s[0..|s|] == s;
      pos := [0];
    } else {
      var j := SentenceStep(s, i);
      var rest := SplitSentencesOccur(s[j..]);
      pos := PiecesOccurCons(s, i, j, SplitSentences(s[j..]), rest);
    }
  }

  lemma PiecesOccurCons(s: string, i: nat, j: nat, qs: seq<string>, rest: seq<int>) returns (pos: seq<int>)
    requires i <= j <= |s| && |rest| == |qs|
    requires forall k :: 0 <= k < |qs| ==> OccursAt(s[j..], qs[k], rest[k])
    ensures |pos| == |qs| + 1
    ensures forall k :: 0 <= k < |pos| ==> OccursAt(s, ([s[..i]] + qs)[k], pos[k])
  {
    pos := [0] + seq(|rest|, k requires 0 <= k < |rest| => rest[k] + j);
    forall k | 0 < k < |pos|
      ensures OccursAt(s, ([s[..i]] + qs)[k], pos[k])
    {
      OccursShift(s, j, qs[k - 1], rest[k - 1]);
    }
  }

  /** An occurrence in a suffix is an occurrence in the whole text, shifted. */
  lemma OccursShift(s: string, j: nat, w: string, x: int)
    requires j <= |s| && OccursAt(s[j..], w, x)
    ensures OccursAt(s, w, j + x)
  {
    assert s[j..][x..x + |w|] == s[j + x..j + x + |w|];
  }

  /** An occurrence of `v` in an occurrence of `w` is an occurrence of `v`. */
  lemma OccursWithin(s: string, w: string, i: int, v: string, x: int)
    requires OccursAt(s, w, i) && OccursAt(w, v, x)
    ensures OccursAt(s, v, i + x)
  {
    assert forall k :: 0 <= k < |v| ==> v[k] == w[x + k] == s[i + x + k];
    assert v == s[i + x..i + x + |v|];
  }

  /** Drops leading whitespace. */
  function StripLeft(s: string): (r: string)
    ensures |r| <= |s| && r == s[|s| - |r|..]
    ensures forall i :: 0 <= i < |s| - |r| ==> IsSpace(s[i])
    ensures |r| > 0 ==> !IsSpace(r[0])
  {
    if |s| > 0 && IsSpace(s[0]) then StripLeft(s[1..]) else s
  }

  /** Drops trailing whitespace. */
  function StripRight(s: string): (r: string)
    ensures |r| <= |s| && r == s[..|r|]
    ensures forall i :: |r| <= i < |s| ==> IsSpace(s[i])
    ensures |r| > 0 ==> !IsSpace(r[|r| - 1])
  {
    if |s| > 0 && IsSpace(s[|s| - 1]) then StripRight(s[..|s| - 1]) else s
  }

  /** `str.strip()`: the text without leading and trailing whitespace; it is empty exactly
      when the text is all whitespace. */
  function Strip(s: string): (r: string)
    ensures r == [] <==> forall i :: 0 <= i < |s| ==> IsSpace(s[i])
    ensures |r| > 0 ==> !IsSpace(r[0]) && !IsSpace(r[|r| - 1])
  {
    StripRight(StripLeft(s))
  }

  lemma StripSegment(s: string)
    ensures StrippedAt(s, StripRight(StripLeft(s)), |s| - |StripLeft(s)|)
  {
    NestedSegment(s, StripLeft(s), StripRight(StripLeft(s)));
  }

  /** A prefix `r` of a suffix `l` of `s`, with only whitespace around each, is a segment of
      `s` with only whitespace around it. */
  lemma NestedSegment(s: string, l: string, r: string)
    requires |l| <= |s| && l == s[|s| - |l|..] && |r| <= |l| && r == l[..|r|]
    requires forall k :: 0 <= k < |s| - |l| ==> IsSpace(s[k])
    requires forall k :: |r| <= k < |l| ==> IsSpace(l[k])
    ensures StrippedAt(s, r, |s| - |l|)
  {
    var i := |s| - |l|;
    assert r == s[i..i + |r|];
    forall k | i + |r| <= k < |s|
      ensures IsSpace(s[k])
    {
      assert s[k] == l[k - i];
    }
  }

  /** Where the stripped text starts: `Strip(s)` is the segment of `s` at this offset, and
      only whitespace precedes and follows it. */
  function StripStart(s: string): (i: nat)
    ensures StrippedAt(s, Strip(s), i)
  {
    StripSegment(s);
    |s| - |StripLeft(s)|
  }

  lemma StripStartOccurs(s: string)
    ensures OccursAt(s, Strip(s), StripStart(s))
  {
  }

  /** `r` is the segment of `s` at offset `i`, with only whitespace before and after it. */
  predicate StrippedAt(s: string, r: string, i: nat) {
    i + |r| <= |s| && r == s[i..i + |r|]
    && (forall k :: 0 <= k < i ==> IsSpace(s[k]))
    && (forall k :: i + |r| <= k < |s| ==> IsSpace(s[k]))
  }
}
