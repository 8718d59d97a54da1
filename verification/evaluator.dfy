/** The heuristic response scorer (`ResponseEvaluator`): six independent lexical and numeric
    scores, each in [0, 1], computed from the prompt, the response, the generation latency in
    seconds and the token count. Scores are exact reals; IEEE rounding is not modelled. */
module Evaluator {
  import opened Text
  import Metrics

  // ---------------------------------------------------------------- fixed word lists

  const StopWords: set<string> :=
    {"the", "a", "an", "and", "or", "but", "in", "on", "at", "to", "for",
     "of", "with", "by", "from", "is", "are", "was", "were", "be", "been"}

  const ConfidenceWords: seq<string> :=
    ["definitely", "certainly", "clearly", "specifically",
     "precisely", "exactly", "proven", "established"]

  const HedgeWords: seq<string> :=
    ["maybe", "perhaps", "possibly", "might", "could", "uncertain",
     "unclear", "probably", "likely", "seems", "appears"]

  /** Matched against the response as written (case-sensitive); the fourth is U+2022 BULLET. */
  const StructureMarkers: seq<string> :=
    ["1.", "2.", "-", "\U{2022}", "First", "Second"]

  const ContrastWords: seq<string> :=
    ["however", "but", "although", "contrary", "despite", "on the other hand", "conversely"]

  const BiasIndicators: seq<string> :=
    ["obviously", "clearly", "everyone knows", "it is well known",
     "always", "never", "all", "none", "must", "should",
     "superior", "inferior", "better", "worse", "best", "worst"]

  const BalanceWords: seq<string> :=
    ["consider", "perspective", "may", "can"]

  // ---------------------------------------------------------------- arithmetic helpers

  function Min(a: real, b: real): real {
    if a <= b then a else b
  }

  function Max(a: real, b: real): real {
    if a >= b then a else b
  }

  /** `max(0.0, min(x, 1.0))`: the closest point of [0, 1]. */
  function Clamp01(x: real): (r: real)
    ensures 0.0 <= r <= 1.0
    ensures 0.0 <= x <= 1.0 ==> r == x
    ensures x <= 0.0 ==> r == 0.0
    ensures x >= 1.0 ==> r == 1.0
  {
    Max(0.0, Min(x, 1.0))
  }

  /** The distinct elements of a sequence (`set(xs)`). */
  function Elements<T>(xs: seq<T>): set<T> {
    set x | x in xs
  }

  lemma {:induction false} ElementsCardinality<T>(xs: seq<T>)
    ensures |Elements(xs)| <= |xs|
    ensures |xs| > 0 ==> |Elements(xs)| >= 1
    ensures Distinct(xs) ==> |Elements(xs)| == |xs|
  {
    if |xs| > 0 {
      var rest := xs[1..];
      ElementsCardinality(rest);
      assert xs == [xs[0]] + rest;
      assert Elements(xs) == {xs[0]} + Elements(rest);
      assert xs[0] in Elements(xs);
      if Distinct(xs) {
        assert Distinct(rest) by {
          forall i, j | 0 <= i < j < |rest|
            ensures rest[i] != rest[j]
          {
            assert rest[i] == xs[i + 1] && rest[j] == xs[j + 1];
          }
        }
        assert xs[0] !in Elements(rest) by {
          forall j | 0 <= j < |rest|
            ensures rest[j] != xs[0]
          {
            assert rest[j] == xs[j + 1];
          }
        }
      }
    } else {
      assert Elements(xs) == {};
    }
  }

  /** Scaling a positive score by a ratio in (0, 1] keeps it positive and does not raise it. */
  lemma ScaleByRatio(score: real, num: nat, den: nat)
    requires score > 0.0
    requires 0 < num <= den
    ensures 0.0 < score * (num as real / den as real) <= score
    ensures num == den ==> score * (num as real / den as real) == score
  {
    var q := num as real / den as real;
    assert 0.0 < q <= 1.0;
    assert score * q <= score * 1.0;
  }

  // ---------------------------------------------------------------- relevance

  /** The lower-cased word set of a text without stop words. */
  function ContentWords(s: string): set<string> {
    Elements(Words(Lower(s))) - StopWords
  }

  lemma SubsetCardinality<T>(a: set<T>, b: set<T>)
    requires a <= b
    ensures |a| <= |b|
    ensures |a| == |b| ==> a == b
  {
    assert b == a + (b - a);
    assert |b| == |a| + |b - a|;
    if |a| == |b| {
      assert |b - a| == 0;
      assert b - a == {};
    }
  }

  /** `min(len(p & q) / len(p), 1.0)`, or 0.5 for an empty `p`; the cap is never reached. */
  function OverlapScore(p: set<string>, q: set<string>): (r: real)
    ensures 0.0 <= r <= 1.0
    ensures p == {} ==> r == 0.5
    ensures p != {} ==> r == |p * q| as real / |p| as real
  {
    if |p| == 0 then 0.5
    else
      SubsetCardinality(p * q, p);
      Min(|p * q| as real / |p| as real, 1.0)
  }

  /** Keyword overlap: the share of the prompt's content words that the response repeats,
      and 0.5 when the prompt has no content words. */
  function Relevance(prompt: string, response: string): (r: real)
    ensures 0.0 <= r <= 1.0
    ensures ContentWords(prompt) == {} ==> r == 0.5
    ensures ContentWords(prompt) != {} ==>
              r == |ContentWords(prompt) * ContentWords(response)| as real / |ContentWords(prompt)| as real
  {
    OverlapScore(ContentWords(prompt), ContentWords(response))
  }

  /** Full relevance means exactly that every content word of the prompt is in the response. */
  lemma RelevanceFull(prompt: string, response: string)
    requires ContentWords(prompt) != {}
    ensures Relevance(prompt, response) == 1.0 <==> ContentWords(prompt) <= ContentWords(response)
  {
    OverlapFull(ContentWords(prompt), ContentWords(response));
  }

  lemma OverlapFull(p: set<string>, q: set<string>)
    requires p != {}
    ensures OverlapScore(p, q) == 1.0 <==> p <= q
  {
    SubsetCardinality(p * q, p);
    if p <= q {
      assert p * q == p;
    }
    if OverlapScore(p, q) == 1.0 {
      assert |p * q| as real == |p| as real;
      assert p * q == p;
    }
  }

  /** Zero relevance means exactly that the prompt and response share no content word. */
  lemma RelevanceZero(prompt: string, response: string)
    requires ContentWords(prompt) != {}
    ensures Relevance(prompt, response) == 0.0 <==> ContentWords(prompt) !! ContentWords(response)
  {
    OverlapZero(ContentWords(prompt), ContentWords(response));
  }

  lemma OverlapZero(p: set<string>, q: set<string>)
    requires p != {}
    ensures OverlapScore(p, q) == 0.0 <==> p !! q
  {
    if p * q != {} {
      var w :| w in p * q;
      assert |p * q| >= 1 by {
        SubsetCardinality({w}, p * q);
      }
    } else {
      forall x | x in p
        ensures x !in q
      {
        assert x !in p * q;
      }
    }
  }

  /** A response whose content words include another's is at least as relevant. */
  lemma RelevanceMonotone(prompt: string, response: string, longer: string)
    requires ContentWords(response) <= ContentWords(longer)
    ensures Relevance(prompt, response) <= Relevance(prompt, longer)
  {
    OverlapMonotone(ContentWords(prompt), ContentWords(response), ContentWords(longer));
  }

  lemma OverlapMonotone(p: set<string>, q1: set<string>, q2: set<string>)
    requires q1 <= q2
    ensures OverlapScore(p, q1) <= OverlapScore(p, q2)
  {
    if p != {} {
      SubsetCardinality(p * q1, p * q2);
      var n1 := |p * q1| as real;
      var n2 := |p * q2| as real;
      var d := |p| as real;
      assert n1 / d <= n2 / d;
    }
  }

  /** Appending more words (after a space) to a response never lowers its relevance. */
  lemma RelevanceGrowsWithText(prompt: string, response: string, extra: string)
    ensures Relevance(prompt, response) <= Relevance(prompt, response + " " + extra)
  {
    var longer := response + " " + extra;
    assert longer == response + [' '] + extra;
    LowerAppend(response + [' '], extra);
    LowerAppend(response, [' ']);
    assert Lower([' ']) == [' '];
    assert Lower(longer) == Lower(response) + [' '] + Lower(extra);
    RunsSplitAt(Lower(response), ' ', Lower(extra), IsWordChar);
    assert Words(Lower(longer)) == Words(Lower(response)) + Words(Lower(extra));
    assert Elements(Words(Lower(response))) <= Elements(Words(Lower(longer)));
    RelevanceMonotone(prompt, response, longer);
  }

  /** A non-empty string of word characters is a single word. */
  lemma {:induction false} WordsOfOneWord(w: string)
    requires |w| > 0
    requires forall i :: 0 <= i < |w| ==> IsWordChar(w[i])
    ensures Words(w) == [w]
  {
    RunLengthUnique(w, IsWordChar, |w|);
    assert w[..|w|] == w;
    assert w[|w|..] == [];
    assert Runs(w, IsWordChar) == [w[..|w|]] + Runs(w[|w|..], IsWordChar);
  }

  lemma WordsOfThree(a: string, b: string, c: string)
    requires |a| > 0 && |b| > 0 && |c| > 0
    requires forall i :: 0 <= i < |a| ==> IsWordChar(a[i])
    requires forall i :: 0 <= i < |b| ==> IsWordChar(b[i])
    requires forall i :: 0 <= i < |c| ==> IsWordChar(c[i])
    ensures Words(a + " " + b + " " + c) == [a, b, c]
  {
    WordsOfOneWord(a);
    WordsOfOneWord(b);
    WordsOfOneWord(c);
    assert a + " " + b + " " + c == a + [' '] + (b + [' '] + c);
    RunsSplitAt(b, ' ', c, IsWordChar);
    RunsSplitAt(a, ' ', b + [' '] + c, IsWordChar);
  }

  /** A non-empty word of lower-case ASCII letters. */
  predicate LowerWord(w: string) {
    |w| > 0 && forall i :: 0 <= i < |w| ==> 'a' <= w[i] <= 'z'
  }

  /** The content words of two lower-case words separated by a space. */
  lemma ContentWordsOfTwo(a: string, b: string)
    requires LowerWord(a) && LowerWord(b)
    ensures ContentWords(a + " " + b) == {a, b} - StopWords
  {
    var s := a + [' '] + b;
    assert a + " " + b == s;
    assert forall i :: 0 <= i < |s| ==> !('A' <= s[i] <= 'Z');
    LowerFixed(s);
    WordsOfOneWord(a);
    WordsOfOneWord(b);
    RunsSplitAt(a, ' ', b, IsWordChar);
    assert Elements([a, b]) == {a, b};
  }

  /** The content words of three lower-case words separated by spaces. */
  lemma ContentWordsOfThree(a: string, b: string, c: string)
    requires LowerWord(a) && LowerWord(b) && LowerWord(c)
    ensures ContentWords(a + " " + b + " " + c) == {a, b, c} - StopWords
  {
    LowerOfThree(a, b, c);
    WordsOfThree(a, b, c);
    assert Elements([a, b, c]) == {a, b, c};
  }

  lemma LowerOfThree(a: string, b: string, c: string)
    requires LowerWord(a) && LowerWord(b) && LowerWord(c)
    ensures Lower(a + " " + b + " " + c) == a + " " + b + " " + c
  {
    var s := a + " " + b + " " + c;
    assert forall i :: 0 <= i < |s| ==> !('A' <= s[i] <= 'Z');
    LowerFixed(s);
  }

  /** A response repeating the prompt without its leading stop word is fully relevant. */
  lemma RelevanceDropsStopWord(a: string, b: string, c: string)
    requires LowerWord(a) && LowerWord(b) && LowerWord(c)
    requires a in StopWords && b !in StopWords
    ensures Relevance(a + " " + b + " " + c, b + " " + c) == 1.0
  {
    ContentWordsOfThree(a, b, c);
    ContentWordsOfTwo(b, c);
    assert {a, b, c} - StopWords == {b, c} - StopWords;
    assert b in ContentWords(a + " " + b + " " + c);
    RelevanceFull(a + " " + b + " " + c, b + " " + c);
  }

  /** Full overlap of content words after stop-word removal scores 1.0. */
  lemma RelevanceFullExample()
    ensures Relevance("the cat sat", "cat sat") == 1.0
  {
    RelevanceDropsStopWord("the", "cat", "sat");
    TheCatSatSpelled();
  }

  lemma TheCatSatSpelled()
    ensures "the" + " " + "cat" + " " + "sat" == "the cat sat"
    ensures "cat" + " " + "sat" == "cat sat"
  {
  }

  /** A prompt made only of stop words scores 0.5 whatever the response. */
  lemma RelevanceStopWordsExample(anything: string)
    ensures Relevance("the a an", anything) == 0.5
  {
    ContentWordsOfThree("the", "a", "an");
    assert "the" + " " + "a" + " " + "an" == "the a an";
    assert {"the", "a", "an"} - StopWords == {};
  }

  // ---------------------------------------------------------------- accuracy

  lemma ConfidenceAndHedgeListsDistinct()
    ensures Distinct(ConfidenceWords)
    ensures Distinct(HedgeWords)
  {
  }

  /** Starts at 0.7, plus 0.05 per confidence word, minus 0.05 per hedge word, clamped. */
  function AccuracyScore(confident: nat, hedges: nat): (r: real)
    ensures 0.0 <= r <= 1.0
  {
    Clamp01(0.7 + confident as real * 0.05 - hedges as real * 0.05)
  }

  /** Accuracy counts the distinct confidence and hedge words occurring (as substrings) in the
      lower-cased response; with at most eight confidence and eleven hedge words it stays
      within [0.15, 1.0]. */
  function Accuracy(response: string): (r: real)
    ensures 0.15 <= r <= 1.0
    ensures r == AccuracyScore(|PresentSet(ConfidenceWords, Lower(response))|,
                               |PresentSet(HedgeWords, Lower(response))|)
    ensures (!AnyPresent(ConfidenceWords, Lower(response)) && !AnyPresent(HedgeWords, Lower(response)))
              ==> r == 0.7
  {
    var low := Lower(response);
    ConfidenceAndHedgeListsDistinct();
    CountPresentIsCardinality(ConfidenceWords, low);
    CountPresentIsCardinality(HedgeWords, low);
    AccuracyScore(CountPresent(ConfidenceWords, low), CountPresent(HedgeWords, low))
  }

  /** One confidence word gives 0.75, two hedge words give 0.6, and eight confidence words
      saturate at 1.0. */
  lemma AccuracyExamples()
    ensures AccuracyScore(1, 0) == 0.75
    ensures AccuracyScore(0, 2) == 0.6
    ensures AccuracyScore(8, 0) == 1.0
  {
  }

  /** More confidence words never lower accuracy; more hedge words never raise it. */
  lemma AccuracyScoreMonotone(c1: nat, h1: nat, c2: nat, h2: nat)
    requires c1 <= c2 && h2 <= h1
    ensures AccuracyScore(c1, h1) <= AccuracyScore(c2, h2)
  {
  }

  // ---------------------------------------------------------------- completeness

  /** Number of whitespace-separated words (`len(response.split())`): zero exactly for an
      all-whitespace response, and at most half the length, rounded up, since words are
      separated by whitespace. */
  function WordCount(response: string): (n: nat)
    ensures n == 0 <==> forall i :: 0 <= i < |response| ==> IsSpace(response[i])
    ensures n <= (|response| + 1) / 2
  {
    RunsBound(response, IsNonSpace);
    |Fields(response)|
  }

  /** `len(re.split(r'[.!?]+', response.strip()))`: one more than the number of terminator
      runs, so it is never zero. */
  function SentenceCount(response: string): (n: nat)
    ensures n >= 1
    ensures n == 1 + |Runs(Strip(response), IsTerminator)|
  {
    SplitSentencesCount(Strip(response));
    |SplitSentences(Strip(response))|
  }

  /** Below 100 words the score is proportional; from 100 words on it is
      `max(1 - (n - 200) / 200, 0.5)`, which exceeds 1.0 below 200 words. */
  function WordScore(wordCount: nat): (r: real)
    ensures 0.0 <= r <= 1.5
    ensures wordCount < 100 ==> r < 1.0
    ensures wordCount >= 100 ==> r >= 0.5
  {
    if wordCount < 100 then Min(wordCount as real / 100.0, 1.0)
    else Max(1.0 - (wordCount - 200) as real / 200.0, 0.5)
  }

  function SentenceScore(sentenceCount: nat): (r: real)
    ensures 0.0 <= r <= 1.0
    ensures sentenceCount >= 1 ==> r >= 0.2
  {
    if sentenceCount < 5 then Min(sentenceCount as real / 5.0, 1.0) else 1.0
  }

  /** Whether the response, as written, contains a list or structure marker. */
  predicate HasStructure(response: string) {
    AnyPresent(StructureMarkers, response)
  }

  /** The response has structure exactly when one of the markers occurs in it, case
      and all, at some position. */
  lemma HasStructureOccurs(response: string)
    ensures HasStructure(response) <==>
              exists k, i :: 0 <= k < |StructureMarkers| && OccursAt(response, StructureMarkers[k], i)
  {
    AnyPresentOccurs(StructureMarkers, response);
  }

  /** Mean of the word and sentence scores plus a 0.1 structure bonus, capped at 1.0; since
      the sentence count is at least one the score never drops below 0.1. */
  function Completeness(response: string): (r: real)
    ensures 0.1 <= r <= 1.0
    ensures HasStructure(response) ==> r >= 0.2
  {
    var bonus := if HasStructure(response) then 0.1 else 0.0;
    Min((WordScore(WordCount(response)) + SentenceScore(SentenceCount(response))) / 2.0 + bonus, 1.0)
  }

  /** As written, 150 words score 1.25 before the final cap, more than the 1.0 of 100 words. */
  lemma WordScoreOvershoots()
    ensures WordScore(150) == 1.25
    ensures WordScore(99) < WordScore(150)
  {
  }

  /** Text that neither starts nor ends with whitespace is its own stripped form. */
  lemma StripUnchanged(s: string)
    requires |s| > 0 && !IsSpace(s[0]) && !IsSpace(s[|s| - 1])
    ensures Strip(s) == s
  {
    assert StripLeft(s) == s;
    assert StripRight(s) == s;
  }

  /** A text ending in a terminator keeps the empty trailing piece, so a single sentence with
      its full stop counts as two. */
  lemma TrailingTerminatorCounts(w: string, t: char)
    requires |w| > 0 && !IsSpace(w[0])
    requires forall i :: 0 <= i < |w| ==> !IsTerminator(w[i])
    requires IsTerminator(t)
    ensures SentenceCount(w + [t]) == 2
  {
    StripUnchanged(w + [t]);
    OneTerminatorRun(w, t);
  }

  lemma OneTerminatorRun(w: string, t: char)
    requires forall i :: 0 <= i < |w| ==> !IsTerminator(w[i])
    requires IsTerminator(t)
    ensures |Runs(w + [t], IsTerminator)| == 1
  {
    var s := w + [t];
    RunsSkip(s, IsTerminator, |w|);
    assert s[|w|..] == [t];
    RunsOfOne(t, IsTerminator);
  }

  /** "Hello." counts two sentences, and the empty text counts one. */
  lemma SentenceCountExamples()
    ensures SentenceCount("Hello.") == 2
    ensures SentenceCount("") == 1
  {
    TrailingTerminatorCounts("Hello", '.');
    assert "Hello" + ['.'] == "Hello.";
    assert Strip("") == "";
  }

  // ---------------------------------------------------------------- consistency

  /** 0.9 with no contrast word, 0.7 with one, then 0.5 minus 0.1 per extra word, floored at 0.3. */
  function ContrastBase(contrasts: nat): (r: real)
    ensures 0.3 <= r <= 0.9
    ensures contrasts >= 4 ==> r == 0.3
  {
    if contrasts == 0 then 0.9
    else if contrasts == 1 then 0.7
    else Max(0.5 - (contrasts - 2) as real * 0.1, 0.3)
  }

  /** More contrast words never raise the base score. */
  lemma ContrastBaseAntitone(k1: nat, k2: nat)
    requires k1 <= k2
    ensures ContrastBase(k2) <= ContrastBase(k1)
  {
  }

  lemma ContrastBaseExamples()
    ensures ContrastBase(0) == 0.9
    ensures ContrastBase(1) == 0.7
    ensures ContrastBase(3) == 0.4
  {
  }

  /** Drops the empty items, keeping the others in order. */
  function DropEmpty(xs: seq<string>): (r: seq<string>)
    ensures |r| <= |xs|
    ensures forall k :: 0 <= k < |r| ==> r[k] != []
  {
    if |xs| == 0 then [] else KeepFirst(xs[0], DropEmpty(xs[1..]))
  }

  function KeepFirst(x: string, rest: seq<string>): seq<string> {
    if x == [] then rest else [x] + rest
  }

  /** `idx` lists, increasing, positions of `xs` whose items make up `r`, and every non-empty
      item's position is among them. */
  predicate KeptAt(xs: seq<string>, r: seq<string>, idx: seq<nat>) {
    && |idx| == |r|
    && (forall k :: 0 <= k < |idx| ==> idx[k] < |xs| && r[k] == xs[idx[k]])
    && (forall k, l :: 0 <= k < l < |idx| ==> idx[k] < idx[l])
    && (forall j :: 0 <= j < |xs| && xs[j] != [] ==> j in idx)
  }

  /** The kept items are exactly the non-empty items, in their order. */
  lemma {:induction false} DropEmptyKeeps(xs: seq<string>) returns (idx: seq<nat>)
    ensures |idx| == |DropEmpty(xs)|
    ensures forall k :: 0 <= k < |idx| ==> idx[k] < |xs| && DropEmpty(xs)[k] == xs[idx[k]]
    ensures forall k, l :: 0 <= k < l < |idx| ==> idx[k] < idx[l]
    ensures forall j :: 0 <= j < |xs| && xs[j] != [] ==> j in idx
  {
    if |xs| == 0 {
      idx := [];
    } else {
      var t := DropEmptyKeeps(xs[1..]);
      var shifted := Shifted(xs, DropEmpty(xs[1..]), t);
      idx := KeptCons(xs, DropEmpty(xs[1..]), shifted);
    }
  }

  lemma KeptCons(xs: seq<string>, r: seq<string>, shifted: seq<nat>) returns (idx: seq<nat>)
    requires |xs| > 0 && |shifted| == |r|
    requires forall k :: 0 <= k < |shifted| ==> 0 < shifted[k] < |xs| && r[k] == xs[shifted[k]]
    requires forall k, l :: 0 <= k < l < |shifted| ==> shifted[k] < shifted[l]
    requires forall j :: 1 <= j < |xs| && xs[j] != [] ==> j in shifted
    ensures KeptAt(xs, KeepFirst(xs[0], r), idx)
  {
    if xs[0] == [] {
      idx := shifted;
    } else {
      idx := KeptKeep(xs, r, shifted);
    }
  }

  /** A non-empty first item is kept in front of the tail's items. */
  lemma KeptKeep(xs: seq<string>, r: seq<string>, shifted: seq<nat>) returns (idx: seq<nat>)
    requires |xs| > 0 && xs[0] != [] && |shifted| == |r|
    requires forall k :: 0 <= k < |shifted| ==> 0 < shifted[k] < |xs| && r[k] == xs[shifted[k]]
    requires forall k, l :: 0 <= k < l < |shifted| ==> shifted[k] < shifted[l]
    requires forall j :: 1 <= j < |xs| && xs[j] != [] ==> j in shifted
    ensures KeptAt(xs, [xs[0]] + r, idx)
  {
    idx := [0] + shifted;
    var e := [xs[0]] + r;
    forall k | 0 <= k < |idx|
      ensures idx[k] < |xs| && e[k] == xs[idx[k]]
    {
      if k > 0 {
        assert idx[k] == shifted[k - 1] && e[k] == r[k - 1];
      }
    }
    forall k, l | 0 <= k < l < |idx|
      ensures idx[k] < idx[l]
    {
      assert idx[l] == shifted[l - 1];
      if k > 0 {
        assert idx[k] == shifted[k - 1];
      }
    }
    forall j | 0 <= j < |xs| && xs[j] != []
      ensures j in idx
    {
      if j > 0 {
        var m :| 0 <= m < |shifted| && shifted[m] == j;
        assert idx[m + 1] == j;
      }
    }
  }

  /** The positions `t` of the tail, as positions of the whole sequence. */
  lemma Shifted(xs: seq<string>, r: seq<string>, t: seq<nat>) returns (shifted: seq<nat>)
    requires |xs| > 0 && KeptAt(xs[1..], r, t)
    ensures |shifted| == |r|
    ensures forall k :: 0 <= k < |shifted| ==> 0 < shifted[k] < |xs| && r[k] == xs[shifted[k]]
    ensures forall k, l :: 0 <= k < l < |shifted| ==> shifted[k] < shifted[l]
    ensures forall j :: 1 <= j < |xs| && xs[j] != [] ==> j in shifted
  {
    var tail := xs[1..];
    shifted := seq(|t|, k requires 0 <= k < |t| => t[k] + 1);
    forall k | 0 <= k < |shifted|
      ensures 0 < shifted[k] < |xs| && r[k] == xs[shifted[k]]
    {
      assert r[k] == tail[t[k]] == xs[t[k] + 1];
    }
    forall j | 1 <= j < |xs| && xs[j] != []
      ensures j in shifted
    {
      assert tail[j - 1] == xs[j];
      var k :| 0 <= k < |t| && t[k] == j - 1;
      assert shifted[k] == j;
    }
  }

  /** Every piece, stripped. */
  function StripAll(pieces: seq<string>): (r: seq<string>)
    ensures |r| == |pieces|
  {
    seq(|pieces|, k requires 0 <= k < |pieces| => Strip(pieces[k]))
  }

  /** Strips every piece and drops the ones left empty. */
  function NonBlank(pieces: seq<string>): seq<string> {
    DropEmpty(StripAll(pieces))
  }

  /** The kept items are exactly the stripped pieces that are not empty, in their order:
      `idx` lists, increasing, the pieces they come from, and every piece that does not
      strip to nothing is among them. */
  lemma NonBlankKeeps(pieces: seq<string>) returns (idx: seq<nat>)
    ensures |idx| == |NonBlank(pieces)|
    ensures forall k :: 0 <= k < |idx| ==> idx[k] < |pieces| && NonBlank(pieces)[k] == Strip(pieces[idx[k]])
    ensures forall k, l :: 0 <= k < l < |idx| ==> idx[k] < idx[l]
    ensures forall j :: 0 <= j < |pieces| && Strip(pieces[j]) != [] ==> j in idx
  {
    var xs := StripAll(pieces);
    idx := DropEmptyKeeps(xs);
    assert forall j :: 0 <= j < |pieces| ==> xs[j] == Strip(pieces[j]);
  }

  /** `[s.strip() for s in re.split(r'[.!?]+', response) if s.strip()]`: every sentence is
      non-empty, has no whitespace at either end, holds no terminator and is a segment of
      the response. */
  function Sentences(response: string): (r: seq<string>)
    ensures forall k :: 0 <= k < |r| ==> SentenceIn(response, r[k])
  {
    SentencesFacts(response);
    NonBlank(SplitSentences(response))
  }

  /** `x` could be a sentence of `response`: non-empty, no whitespace at either end, no
      terminator, and a segment of the response. */
  ghost predicate SentenceIn(response: string, x: string) {
    && |x| > 0 && !IsSpace(x[0]) && !IsSpace(x[|x| - 1])
    && (forall i :: 0 <= i < |x| ==> !IsTerminator(x[i]))
    && exists i :: OccursAt(response, x, i)
  }

  lemma SentencesFacts(response: string)
    ensures forall k :: 0 <= k < |NonBlank(SplitSentences(response))| ==>
              SentenceIn(response, NonBlank(SplitSentences(response))[k])
  {
    var pieces := SplitSentences(response);
    var r := NonBlank(pieces);
    var at := SplitSentencesOccur(response);
    var idx := NonBlankKeeps(pieces);
    forall k | 0 <= k < |r|
      ensures SentenceIn(response, r[k])
    {
      PieceSentence(response, pieces[idx[k]], at[idx[k]]);
    }
  }

  /** A piece of the split that does not strip to nothing gives a sentence. */
  lemma PieceSentence(response: string, p: string, a: int)
    requires OccursAt(response, p, a) && Strip(p) != []
    requires forall i :: 0 <= i < |p| ==> !IsTerminator(p[i])
    ensures SentenceIn(response, Strip(p))
  {
    var x := Strip(p);
    StripStartOccurs(p);
    OccursWithin(response, p, a, x, StripStart(p));
    forall i | 0 <= i < |x|
      ensures !IsTerminator(x[i])
    {
      assert x[i] == p[StripStart(p) + i];
    }
  }

  function ContrastCount(response: string): nat {
    CountPresent(ContrastWords, Lower(response))
  }

  /** The contrast base score, multiplied by the share of distinct sentences when there is more
      than one sentence. Repetition can only lower the score and, without repetition, the base
      score is kept. */
  function Consistency(response: string): (r: real)
    ensures 0.0 < r <= 0.9
    ensures r <= ContrastBase(ContrastCount(response))
    ensures Distinct(Sentences(response)) ==> r == ContrastBase(ContrastCount(response))
  {
    var base := ContrastBase(ContrastCount(response));
    var sentences := Sentences(response);
    ElementsCardinality(sentences);
    if |sentences| > 1 then Penalized(base, |Elements(sentences)|, |sentences|)
    else Clamp01(base)
  }

  /** `max(0, min(base * unique / total, 1))` for a positive base of at most one: positive,
      never above the base, and the base itself when nothing repeats. */
  function Penalized(base: real, unique: nat, total: nat): (r: real)
    requires 0.0 < base <= 1.0 && 0 < unique <= total
    ensures 0.0 < r <= base
    ensures unique == total ==> r == base
  {
    ScaleByRatio(base, unique, total);
    Clamp01(base * (unique as real / total as real))
  }

  /** With no contrast word and no repeated sentence the score is 0.9. */
  lemma ConsistencyUnpenalized(response: string)
    requires !AnyPresent(ContrastWords, Lower(response))
    requires Distinct(Sentences(response))
    ensures Consistency(response) == 0.9
  {
  }

  // ---------------------------------------------------------------- efficiency

  function TimeScore(seconds: real): (r: real)
    ensures 0.4 <= r <= 1.0
  {
    if seconds < 2.0 then 1.0
    else if seconds < 5.0 then 0.8
    else if seconds < 10.0 then 0.6
    else 0.4
  }

  function TokenScore(tokens: int): (r: real)
    ensures 0.4 <= r <= 1.0
  {
    if tokens < 150 then 1.0
    else if tokens < 300 then 0.8
    else if tokens < 500 then 0.6
    else 0.4
  }

  /** The mean of the latency and token step scores. */
  function Efficiency(seconds: real, tokens: int): (r: real)
    ensures 0.4 <= r <= 1.0
  {
    (TimeScore(seconds) + TokenScore(tokens)) / 2.0
  }

  /** Slower or longer generations never score higher. */
  lemma EfficiencyAntitone(t1: real, n1: int, t2: real, n2: int)
    requires t1 <= t2 && n1 <= n2
    ensures Efficiency(t2, n2) <= Efficiency(t1, n1)
  {
  }

  lemma EfficiencyExamples()
    ensures Efficiency(1.0, 100) == 1.0
    ensures Efficiency(6.0, 200) == 0.7
    ensures Efficiency(6.0, 400) == 0.6
  {
  }

  // ---------------------------------------------------------------- bias

  /** 1.0 minus 0.1 per loaded phrase; a balancing cue adds 0.1 back, capped at 1.0; clamped. */
  function BiasScore(indicators: nat, balanced: bool): (r: real)
    ensures 0.0 <= r <= 1.0
    ensures indicators == 0 ==> r == 1.0
    ensures indicators >= 11 ==> r == 0.0
  {
    var score := 1.0 - indicators as real * 0.1;
    Clamp01(if balanced then Min(score + 0.1, 1.0) else score)
  }

  /** More loaded phrases never raise the score. */
  lemma BiasScoreAntitone(b1: nat, b2: nat, balanced: bool)
    requires b1 <= b2
    ensures BiasScore(b2, balanced) <= BiasScore(b1, balanced)
  {
  }

  /** A balancing cue raises the score by at most 0.1 and never lowers it. */
  lemma BalanceBonus(indicators: nat)
    ensures BiasScore(indicators, false) <= BiasScore(indicators, true) <= BiasScore(indicators, false) + 0.1
  {
  }

  lemma BiasListDistinct()
    ensures Distinct(BiasIndicators)
  {
  }

  /** Bias counts the distinct loaded phrases occurring in the lower-cased response. */
  function Bias(response: string): (r: real)
    ensures 0.0 <= r <= 1.0
    ensures !AnyPresent(BiasIndicators, Lower(response)) ==> r == 1.0
    ensures r == BiasScore(|PresentSet(BiasIndicators, Lower(response))|,
                           AnyPresent(BalanceWords, Lower(response)))
  {
    var low := Lower(response);
    BiasListDistinct();
    CountPresentIsCardinality(BiasIndicators, low);
    BiasScore(CountPresent(BiasIndicators, low), AnyPresent(BalanceWords, low))
  }

  // ---------------------------------------------------------------- the score map

  /** The score of one dimension. */
  function ScoreOf(d: Metrics.Dimension, prompt: string, response: string, responseTime: real, tokensUsed: int)
    : (r: real)
    ensures 0.0 <= r <= 1.0
  {
    match d
    case Relevance => Relevance(prompt, response)
    case Accuracy => Accuracy(response)
    case Completeness => Completeness(response)
    case Consistency => Consistency(response)
    case Efficiency => Efficiency(responseTime, tokensUsed)
    case Bias => Bias(response)
  }

  /** All six scores keyed by name (`evaluate`): exactly the six keys, every value in [0, 1]. */
  function Evaluate(prompt: string, response: string, responseTime: real, tokensUsed: int)
    : (scores: Metrics.ScoreMap)
    ensures scores.Keys == Metrics.Keys
    ensures forall k :: k in scores ==> 0.0 <= scores[k] <= 1.0
  {
    map k | k in Metrics.Keys :: ScoreOf(Metrics.Named(k), prompt, response, responseTime, tokensUsed)
  }

  /** Each dimension's entry in the map is that dimension's score. */
  lemma EvaluateEntries(prompt: string, response: string, responseTime: real, tokensUsed: int, d: Metrics.Dimension)
    ensures Metrics.Key(d) in Evaluate(prompt, response, responseTime, tokensUsed)
    ensures Evaluate(prompt, response, responseTime, tokensUsed)[Metrics.Key(d)]
              == ScoreOf(d, prompt, response, responseTime, tokensUsed)
  {
    Metrics.KeyNamed(d);
  }
}
