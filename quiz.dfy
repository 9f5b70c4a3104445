/** The quiz component: checking free-text answers (`normalizeAnswer`,
    `compareAnswers`) and the quiz-taking state machine (`handleAnswer`). */
module Quiz {
  import opened Wrappers
  import opened Text
  import Seqs

  // ---------------------------------------------------------------------
  // Normalisation
  // ---------------------------------------------------------------------

  /** The 21 characters of the class `[.,\/#!$%\^&\*;:{}=\-_`~()]`.
      Apostrophes, question marks and double quotes are not among them. */
  predicate IsStrippedPunctuation(c: char) {
    c == '.' || c == ',' || c == '/' || c == '#' || c == '!' || c == '$' || c == '%'
    || c == '^' || c == '&' || c == '*' || c == ';' || c == ':' || c == '{' || c == '}'
    || c == '=' || c == '-' || c == '_' || c == '`' || c == '~' || c == '(' || c == ')'
  }

  predicate KeptByPunctuationFilter(c: char) {
    !IsStrippedPunctuation(c)
  }

  /** `replace(/[.,\/#!$%\^&\*;:{}=\-_`~()]/g, "")`. */
  function StripPunctuation(s: string): (r: string)
    ensures forall i :: 0 <= i < |r| ==> !IsStrippedPunctuation(r[i])
  {
    Seqs.Filter(s, KeptByPunctuationFilter)
  }

  /** `normalizeAnswer`: lower-case, drop the punctuation, collapse each
      whitespace run to one space, trim. */
  function NormalizeAnswer(answer: string): (r: string)
    ensures Normalized(r)
  {
    var stripped := StripPunctuation(ToLower(answer));
    StrippedIsClean(answer);
    var collapsed := ReplaceWhitespaceRuns(stripped, ' ');
    CollapsedIsClean(stripped);
    TrimmedIsNormalized(collapsed);
    Trim(collapsed)
  }

  /** No upper-case ASCII letter and none of the stripped punctuation. */
  predicate CleanChars(t: string) {
    forall i :: 0 <= i < |t| ==> !IsAsciiUpper(t[i]) && !IsStrippedPunctuation(t[i])
  }

  /** Whitespace only as single spaces. */
  predicate SingleSpaces(t: string) {
    (forall i :: 0 <= i < |t| && IsWhitespace(t[i]) ==> t[i] == ' ')
    && NoAdjacentWhitespace(t)
  }

  /** What every normalised answer looks like: no upper-case ASCII letter,
      none of the stripped punctuation, only single spaces as whitespace,
      and no whitespace at either end. */
  predicate Normalized(t: string) {
    CleanChars(t) && SingleSpaces(t) && (t != [] ==> !IsWhitespace(t[0]) && !IsWhitespace(t[|t| - 1]))
  }

  lemma StrippedIsClean(s: string)
    ensures CleanChars(StripPunctuation(ToLower(s)))
  {
    var lowered := ToLower(s);
    var r := StripPunctuation(lowered);
    forall i | 0 <= i < |r|
      ensures !IsAsciiUpper(r[i])
    {
      assert r[i] in lowered;
    }
  }

  lemma CollapsedIsClean(s: string)
    requires CleanChars(s)
    ensures CleanChars(ReplaceWhitespaceRuns(s, ' ')) && SingleSpaces(ReplaceWhitespaceRuns(s, ' '))
  {
    ReplacedCharsComeFromInput(s, ' ');
  }

  lemma TrimmedIsNormalized(c: string)
    requires CleanChars(c) && SingleSpaces(c)
    ensures Normalized(Trim(c))
  {
    var a := TrimStart(c);
    var lo := |c| - |a|;
    SliceIsClean(c, lo, |c|);
    assert c[lo..|c|] == a;
    var r := TrimEnd(a);
    SliceIsClean(a, 0, |r|);
    assert a[0..|r|] == r;
  }

  /** A contiguous piece of a clean, single-spaced string is clean and single-spaced. */
  lemma SliceIsClean(c: string, lo: nat, hi: nat)
    requires lo <= hi <= |c|
    requires CleanChars(c) && SingleSpaces(c)
    ensures CleanChars(c[lo..hi]) && SingleSpaces(c[lo..hi])
  {
    var r := c[lo..hi];
    forall i | 0 <= i < |r|
      ensures !IsAsciiUpper(r[i]) && !IsStrippedPunctuation(r[i])
      ensures IsWhitespace(r[i]) ==> r[i] == ' '
    {
      assert r[i] == c[lo + i];
    }
    forall i, j | 0 <= i < |r| && 0 <= j < |r| && j == i + 1
      ensures !(IsWhitespace(r[i]) && IsWhitespace(r[j]))
    {
      assert r[i] == c[lo + i] && r[j] == c[lo + j];
    }
  }

  lemma {:induction false} ReplacedCharsComeFromInput(s: string, sep: char)
    ensures forall i :: 0 <= i < |ReplaceWhitespaceRuns(s, sep)| ==>
      ReplaceWhitespaceRuns(s, sep)[i] == sep || ReplaceWhitespaceRuns(s, sep)[i] in s
    decreases |s|
  {
    if s != [] {
      if IsWhitespace(s[0]) {
        var t := TrimStart(s[1..]);
        ReplacedCharsComeFromInput(t, sep);
        assert forall x :: x in t ==> x in s;
      } else {
        ReplacedCharsComeFromInput(s[1..], sep);
        assert forall x :: x in s[1..] ==> x in s;
      }
    }
  }

  /** A normalised answer is its own normal form. */
  lemma NormalizedIsFixedPoint(t: string)
    requires Normalized(t)
    ensures NormalizeAnswer(t) == t
  {
    assert ToLower(t) == t;
    Seqs.FilterKeepsAll(t, KeptByPunctuationFilter);
    assert StripPunctuation(t) == t;
    ReplaceWhitespaceRunsFixed(t, ' ');
    assert TrimStart(t) == t;
    assert TrimEnd(t) == t;
  }

  /** `normalizeAnswer` is idempotent. */
  lemma NormalizeIdempotent(s: string)
    ensures NormalizeAnswer(NormalizeAnswer(s)) == NormalizeAnswer(s)
  {
    NormalizedIsFixedPoint(NormalizeAnswer(s));
  }

  // ---------------------------------------------------------------------
  // Whole-word search: `\b(w1|w2|...)\b`
  // ---------------------------------------------------------------------

  /** `\b` at position `i`: exactly one of the neighbouring characters is a
      word character (outside the string counts as a non-word character). */
  predicate AtWordBoundary(s: string, i: nat)
    requires i <= |s|
  {
    (i > 0 && IsWordChar(s[i - 1])) != (i < |s| && IsWordChar(s[i]))
  }

  /** `w` occurs at `i` with a word boundary on both sides. */
  predicate WholeWordAt(s: string, i: nat, w: string)
    requires i <= |s|
  {
    i + |w| <= |s| && s[i..i + |w|] == w && AtWordBoundary(s, i) && AtWordBoundary(s, i + |w|)
  }

  /** The regular expression tried at position `i`: the alternatives are
      tried in order, and the first one followed by a word boundary wins.
      The result is the index of that alternative. */
  function MatchAt(s: string, i: nat, alts: seq<string>): (r: Option<nat>)
    requires i <= |s|
    ensures r.Some? ==> r.value < |alts| && i + |alts[r.value]| <= |s|
  {
    if alts == [] then None
    else if WholeWordAt(s, i, alts[0]) then Some(0)
    else match MatchAt(s, i, alts[1..])
      case None => None
      case Some(k) => Some(k + 1)
  }

  /** The alternative found is the first in list order that matches as a
      whole word, and there is none exactly when no alternative does. */
  lemma {:induction false} MatchAtSpec(s: string, i: nat, alts: seq<string>)
    requires i <= |s|
    ensures MatchAt(s, i, alts).Some? ==> WholeWordAt(s, i, alts[MatchAt(s, i, alts).value])
    ensures MatchAt(s, i, alts).Some? ==>
      forall k :: 0 <= k < MatchAt(s, i, alts).value ==> !WholeWordAt(s, i, alts[k])
    ensures MatchAt(s, i, alts).None? ==> forall k :: 0 <= k < |alts| ==> !WholeWordAt(s, i, alts[k])
  {
    if alts != [] && !WholeWordAt(s, i, alts[0]) {
      MatchAtSpec(s, i, alts[1..]);
      assert forall k :: 1 <= k < |alts| ==> alts[k] == alts[1..][k - 1];
    }
  }

  /** `regex.test(s)` started at `i`: is there a match at some later position? */
  function SearchFrom(s: string, alts: seq<string>, i: nat): (r: bool)
    requires i <= |s|
    ensures r <==> exists j, k :: i <= j <= |s| && 0 <= k < |alts| && WholeWordAt(s, j, alts[k])
    decreases |s| - i
  {
    MatchAtSpec(s, i, alts);
    MatchAt(s, i, alts).Some? || (i < |s| && SearchFrom(s, alts, i + 1))
  }

  /** `(not|cannot|doesn'?t|won'?t|isn'?t)`, each optional apostrophe
      written out as its two spellings. */
  const NegationWords: seq<string> :=
    ["not", "cannot", "doesn't", "doesnt", "won't", "wont", "isn't", "isnt"]

  /** `(a|an|the|is|are|was|were|will|be)`. */
  const StopWords: seq<string> := ["a", "an", "the", "is", "are", "was", "were", "will", "be"]

  predicate HasNegation(s: string) {
    SearchFrom(s, NegationWords, 0)
  }

  predicate AllWordChars(w: string) {
    forall i :: 0 <= i < |w| ==> IsWordChar(w[i])
  }

  predicate NonWordChar(c: char) {
    !IsWordChar(c)
  }

  /** No alternative is empty, so every match moves the scan forward. */
  predicate NonEmptyAlternatives(alts: seq<string>) {
    forall k :: 0 <= k < |alts| ==> alts[k] != []
  }

  /** Every alternative is a non-empty string of word characters. */
  predicate WordAlternatives(alts: seq<string>) {
    NonEmptyAlternatives(alts) && forall k :: 0 <= k < |alts| ==> AllWordChars(alts[k])
  }

  /** `s.replace(/\b(alts)\b/g, "")` continued from position `i`: the
      leftmost match is deleted, the scan resumes right after it, and every
      `\b` is judged in the original string. */
  function DeleteWholeWords(s: string, alts: seq<string>, i: nat): (r: string)
    requires i <= |s|
    requires NonEmptyAlternatives(alts)
    ensures |r| <= |s| - i
    decreases |s| - i
  {
    if i == |s| then []
    else match MatchAt(s, i, alts)
      case Some(k) => DeleteWholeWords(s, alts, i + |alts[k]|)
      case None => [s[i]] + DeleteWholeWords(s, alts, i + 1)
  }

  /** One step of the scan where a word matches: it is skipped. */
  lemma SkipMatched(s: string, alts: seq<string>, i: nat)
    requires i < |s| && MatchAt(s, i, alts).Some?
    requires NonEmptyAlternatives(alts)
    ensures DeleteWholeWords(s, alts, i) == DeleteWholeWords(s, alts, i + |alts[MatchAt(s, i, alts).value]|)
  {
  }

  /** One step of the scan where nothing matches: the character is copied. */
  lemma CopyUnmatched(s: string, alts: seq<string>, i: nat)
    requires i < |s| && MatchAt(s, i, alts).None?
    requires NonEmptyAlternatives(alts)
    ensures DeleteWholeWords(s, alts, i) == [s[i]] + DeleteWholeWords(s, alts, i + 1)
  {
  }

  /** Deleting whole words never deletes a non-word character: in particular
      the spaces on both sides of a deleted word both stay. */
  lemma {:induction false} DeleteKeepsNonWordChars(s: string, alts: seq<string>, i: nat)
    requires i <= |s|
    requires WordAlternatives(alts)
    ensures Seqs.Filter(DeleteWholeWords(s, alts, i), NonWordChar) == Seqs.Filter(s[i..], NonWordChar)
    decreases |s| - i
  {
    if i < |s| {
      var m := MatchAt(s, i, alts);
      if m.Some? {
        DeleteKeepsNonWordChars(s, alts, i + |alts[m.value]|);
        NonWordCharsAfterSkip(s, alts, i);
      } else {
        DeleteKeepsNonWordChars(s, alts, i + 1);
        NonWordCharsAfterCopy(s, alts, i);
      }
    }
  }

  /** The step of `DeleteKeepsNonWordChars` over a matched word. */
  lemma NonWordCharsAfterSkip(s: string, alts: seq<string>, i: nat)
    requires i < |s| && MatchAt(s, i, alts).Some?
    requires WordAlternatives(alts)
    requires var j := i + |alts[MatchAt(s, i, alts).value]|;
      Seqs.Filter(DeleteWholeWords(s, alts, j), NonWordChar) == Seqs.Filter(s[j..], NonWordChar)
    ensures Seqs.Filter(DeleteWholeWords(s, alts, i), NonWordChar) == Seqs.Filter(s[i..], NonWordChar)
  {
    var w := alts[MatchAt(s, i, alts).value];
    var j := i + |w|;
    SkipMatched(s, alts, i);
    MatchAtSpec(s, i, alts);
    assert s[i..] == w + s[j..];
    Seqs.FilterConcat(w, s[j..], NonWordChar);
    Seqs.FilterDropsAll(w, NonWordChar);
  }

  /** The step of `DeleteKeepsNonWordChars` over a copied character. */
  lemma NonWordCharsAfterCopy(s: string, alts: seq<string>, i: nat)
    requires i < |s| && MatchAt(s, i, alts).None?
    requires NonEmptyAlternatives(alts)
    requires Seqs.Filter(DeleteWholeWords(s, alts, i + 1), NonWordChar) == Seqs.Filter(s[i + 1..], NonWordChar)
    ensures Seqs.Filter(DeleteWholeWords(s, alts, i), NonWordChar) == Seqs.Filter(s[i..], NonWordChar)
  {
    var rest := DeleteWholeWords(s, alts, i + 1);
    CopyUnmatched(s, alts, i);
    assert s[i..] == [s[i]] + s[i + 1..];
    Seqs.FilterConcat([s[i]], s[i + 1..], NonWordChar);
    Seqs.FilterConcat([s[i]], rest, NonWordChar);
  }

  /** Without a whole-word match there is nothing to delete. */
  lemma {:induction false} DeleteWithoutMatchIsIdentity(s: string, alts: seq<string>, i: nat)
    requires i <= |s|
    requires NonEmptyAlternatives(alts)
    requires !SearchFrom(s, alts, i)
    ensures DeleteWholeWords(s, alts, i) == s[i..]
    decreases |s| - i
  {
    if i < |s| {
      assert MatchAt(s, i, alts).None?;
      DeleteWithoutMatchIsIdentity(s, alts, i + 1);
      assert s[i..] == [s[i]] + s[i + 1..];
    }
  }

  /** `s[i..j]` is a maximal run of word characters. */
  predicate WordRun(s: string, i: nat, j: nat) {
    i < j <= |s|
    && (i == 0 || !IsWordChar(s[i - 1]))
    && (j == |s| || !IsWordChar(s[j]))
    && forall m :: i <= m < j ==> IsWordChar(s[m])
  }

  /** For alternatives made of word characters only, a match at the start of
      a run is the whole run, and only if the run is one of the alternatives. */
  lemma MatchAtWordRun(s: string, i: nat, j: nat, alts: seq<string>)
    requires WordRun(s, i, j)
    requires WordAlternatives(alts)
    ensures MatchAt(s, i, alts).Some? <==> s[i..j] in alts
    ensures MatchAt(s, i, alts).Some? ==> |alts[MatchAt(s, i, alts).value]| == j - i
  {
    MatchAtSpec(s, i, alts);
    forall k | 0 <= k < |alts| && WholeWordAt(s, i, alts[k])
      ensures i + |alts[k]| == j
    {
      var w := alts[k];
      forall m | i <= m < i + |w|
        ensures IsWordChar(s[m])
      {
        assert s[m] == w[m - i];
      }
    }
    if s[i..j] in alts {
      var k :| 0 <= k < |alts| && alts[k] == s[i..j];
      assert WholeWordAt(s, i, alts[k]);
    }
  }

  /** Where no alternative matches, the scan copies the characters. */
  lemma {:induction false} CopyUnmatchedRange(s: string, alts: seq<string>, m: nat, j: nat)
    requires m <= j <= |s|
    requires NonEmptyAlternatives(alts)
    requires forall n :: m <= n < j ==> MatchAt(s, n, alts).None?
    ensures DeleteWholeWords(s, alts, m) == s[m..j] + DeleteWholeWords(s, alts, j)
    decreases j - m
  {
    if m < j {
      CopyUnmatched(s, alts, m);
      CopyUnmatchedRange(s, alts, m + 1, j);
      assert s[m..j] == [s[m]] + s[m + 1..j];
    }
  }

  /** Strictly inside a run there is no word boundary, so no alternative
      matches there. */
  lemma NoMatchInsideRun(s: string, i: nat, m: nat, j: nat, alts: seq<string>)
    requires WordRun(s, i, j) && i < m < j
    ensures MatchAt(s, m, alts).None?
  {
    assert IsWordChar(s[m - 1]) && IsWordChar(s[m]);
    assert !AtWordBoundary(s, m);
    MatchAtSpec(s, m, alts);
  }

  /** Global deletion works run by run: a run that is one of the
      alternatives disappears, any other run is kept as it is. */
  lemma DeleteAcrossRun(s: string, i: nat, j: nat, alts: seq<string>)
    requires WordRun(s, i, j)
    requires WordAlternatives(alts)
    ensures DeleteWholeWords(s, alts, i) ==
      (if s[i..j] in alts then [] else s[i..j]) + DeleteWholeWords(s, alts, j)
  {
    MatchAtWordRun(s, i, j, alts);
    if s[i..j] in alts {
      SkipMatched(s, alts, i);
    } else {
      forall n | i <= n < j
        ensures MatchAt(s, n, alts).None?
      {
        if n > i {
          NoMatchInsideRun(s, i, n, j, alts);
        }
      }
      CopyUnmatchedRange(s, alts, i, j);
    }
  }

  /** A non-word character is never part of a match, so it is copied. */
  lemma DeleteAtNonWordChar(s: string, i: nat, alts: seq<string>)
    requires i < |s| && !IsWordChar(s[i])
    requires WordAlternatives(alts)
    ensures DeleteWholeWords(s, alts, i) == [s[i]] + DeleteWholeWords(s, alts, i + 1)
  {
    forall k | 0 <= k < |alts|
      ensures !WholeWordAt(s, i, alts[k])
    {
      assert IsWordChar(alts[k][0]);
    }
    MatchAtSpec(s, i, alts);
  }

  /** `replace(/\b(a|an|the|is|are|was|were|will|be)\b/g, "").trim()`. */
  function CleanAnswer(normalized: string): string {
    Trim(DeleteWholeWords(normalized, StopWords, 0))
  }

  /** `compareAnswers`. */
  predicate CompareAnswers(userAnswer: string, correctAnswer: string) {
    CompareNormalized(NormalizeAnswer(userAnswer), NormalizeAnswer(correctAnswer))
  }

  /** The body of `compareAnswers` once both sides are normalised. */
  predicate CompareNormalized(normalizedUser: string, normalizedCorrect: string) {
    if normalizedUser == normalizedCorrect then true
    else if HasNegation(normalizedUser) != HasNegation(normalizedCorrect) then false
    else CleanAnswer(normalizedUser) == CleanAnswer(normalizedCorrect)
  }

  // ---------------------------------------------------------------------
  // Properties of compareAnswers
  // ---------------------------------------------------------------------

  lemma SameNormalFormIsCorrect(x: string, y: string)
    requires NormalizeAnswer(x) == NormalizeAnswer(y)
    ensures CompareAnswers(x, y)
  {
  }

  lemma CompareReflexive(x: string)
    ensures CompareAnswers(x, x)
  {
  }

  lemma CompareSymmetric(x: string, y: string)
    ensures CompareAnswers(x, y) == CompareAnswers(y, x)
  {
    CompareNormalizedSymmetric(NormalizeAnswer(x), NormalizeAnswer(y));
  }

  lemma CompareNormalizedSymmetric(a: string, b: string)
    ensures CompareNormalized(a, b) == CompareNormalized(b, a)
  {
  }

  /** A negation on one side only is never accepted, whatever else matches. */
  lemma NegationMismatchIsWrong(x: string, y: string)
    requires HasNegation(NormalizeAnswer(x)) != HasNegation(NormalizeAnswer(y))
    ensures !CompareAnswers(x, y)
  {
  }

  /** Past the negation test, the answers are compared with the stop words
      deleted and only the two ends trimmed. */
  lemma SameNegationComparesCleaned(x: string, y: string)
    requires HasNegation(NormalizeAnswer(x)) == HasNegation(NormalizeAnswer(y))
    ensures CompareAnswers(x, y) <==>
      NormalizeAnswer(x) == NormalizeAnswer(y)
      || CleanAnswer(NormalizeAnswer(x)) == CleanAnswer(NormalizeAnswer(y))
  {
  }

  lemma LowerThenStripCommuteChar(c: char)
    ensures StripPunctuation(ToLower([c])) == ToLower(StripPunctuation([c]))
  {
    assert ToLower([c]) == [LowerChar(c)];
    Seqs.FilterSingleton(c, KeptByPunctuationFilter);
    Seqs.FilterSingleton(LowerChar(c), KeptByPunctuationFilter);
  }

  lemma {:induction false} LowerThenStripCommute(s: string)
    ensures StripPunctuation(ToLower(s)) == ToLower(StripPunctuation(s))
  {
    if s != [] {
      var c, rest := s[0], s[1..];
      assert s == [c] + rest;
      calc {
        StripPunctuation(ToLower(s));
        { ToLowerConcat([c], rest); }
        StripPunctuation(ToLower([c]) + ToLower(rest));
        { Seqs.FilterConcat(ToLower([c]), ToLower(rest), KeptByPunctuationFilter); }
        StripPunctuation(ToLower([c])) + StripPunctuation(ToLower(rest));
        { LowerThenStripCommute(rest); LowerThenStripCommuteChar(c); }
        ToLower(StripPunctuation([c])) + ToLower(StripPunctuation(rest));
        { ToLowerConcat(StripPunctuation([c]), StripPunctuation(rest)); }
        ToLower(StripPunctuation([c]) + StripPunctuation(rest));
        { Seqs.FilterConcat([c], rest, KeptByPunctuationFilter); }
        ToLower(StripPunctuation(s));
      }
    }
  }

  /** Answers that differ only in letter case and the stripped punctuation
      are graded correct. */
  lemma IgnoresCaseAndPunctuation(x: string, y: string)
    requires ToLower(StripPunctuation(x)) == ToLower(StripPunctuation(y))
    ensures CompareAnswers(x, y)
  {
    LowerThenStripCommute(x);
    LowerThenStripCommute(y);
  }

  lemma WhitespaceIsUnchangedByLowerAndStrip(w: string)
    requires AllWhitespace(w)
    ensures ToLower(w) == w && StripPunctuation(w) == w
  {
    Seqs.FilterKeepsAll(w, KeptByPunctuationFilter);
  }

  /** Trailing whitespace does not change what collapsing and trimming the
      end produce. */
  lemma {:induction false} TrimEndIgnoresTrailingWhitespace(x: string, w: string)
    requires AllWhitespace(w)
    ensures TrimEnd(ReplaceWhitespaceRuns(x + w, ' ')) == TrimEnd(ReplaceWhitespaceRuns(x, ' '))
    decreases |x|
  {
    if x == [] {
      assert x + w == w;
      if w != [] {
        TrimStartOfWhitespace(w[1..]);
      }
    } else {
      assert (x + w)[0] == x[0];
      assert (x + w)[1..] == x[1..] + w;
      if IsWhitespace(x[0]) {
        var t := TrimStart(x[1..]);
        TrimStartConcat(x[1..], w);
        TrimStartOfWhitespace(w);
        if t != [] {
          TrimEndIgnoresTrailingWhitespace(t, w);
          TrimEndAfterPrefix(' ', ReplaceWhitespaceRuns(t + w, ' '), ReplaceWhitespaceRuns(t, ' '));
        }
      } else {
        TrimEndIgnoresTrailingWhitespace(x[1..], w);
        TrimEndAfterPrefix(x[0], ReplaceWhitespaceRuns(x[1..] + w, ' '), ReplaceWhitespaceRuns(x[1..], ' '));
      }
    }
  }

  lemma TrimEndAfterPrefix(c: char, a: string, b: string)
    requires TrimEnd(a) == TrimEnd(b)
    ensures TrimEnd([c] + a) == TrimEnd([c] + b)
  {
    TrimEndConcat([c], a);
    TrimEndConcat([c], b);
  }

  lemma LowerAndStripOfPadded(lead: string, s: string, trail: string)
    requires AllWhitespace(lead) && AllWhitespace(trail)
    ensures StripPunctuation(ToLower(lead + s + trail)) == lead + (StripPunctuation(ToLower(s)) + trail)
  {
    var lowered := ToLower(s);
    calc {
      ToLower(lead + s + trail);
      { ToLowerConcat(lead + s, trail); }
      ToLower(lead + s) + ToLower(trail);
      { ToLowerConcat(lead, s); }
      ToLower(lead) + lowered + ToLower(trail);
      { WhitespaceIsUnchangedByLowerAndStrip(lead); WhitespaceIsUnchangedByLowerAndStrip(trail); }
      lead + lowered + trail;
    }
    calc {
      StripPunctuation(lead + lowered + trail);
      { Seqs.FilterConcat(lead + lowered, trail, KeptByPunctuationFilter); }
      StripPunctuation(lead + lowered) + StripPunctuation(trail);
      { Seqs.FilterConcat(lead, lowered, KeptByPunctuationFilter); }
      StripPunctuation(lead) + StripPunctuation(lowered) + StripPunctuation(trail);
      { WhitespaceIsUnchangedByLowerAndStrip(lead); WhitespaceIsUnchangedByLowerAndStrip(trail); }
      lead + (StripPunctuation(lowered) + trail);
    }
  }

  /** Leading whitespace disappears when the front is trimmed. */
  lemma CollapseIgnoresLeadingWhitespace(lead: string, x: string)
    requires AllWhitespace(lead)
    ensures TrimStart(ReplaceWhitespaceRuns(lead + x, ' ')) == TrimStart(ReplaceWhitespaceRuns(x, ' '))
  {
    TrimStartOfReplaced(lead + x, ' ');
    TrimStartConcat(lead, x);
    TrimStartOfWhitespace(lead);
    TrimStartOfReplaced(x, ' ');
  }

  /** Trailing whitespace disappears when both ends are trimmed. */
  lemma CollapseIgnoresTrailingWhitespace(p: string, trail: string)
    requires AllWhitespace(trail)
    ensures Trim(ReplaceWhitespaceRuns(p + trail, ' ')) == Trim(ReplaceWhitespaceRuns(p, ' '))
  {
    TrimStartOfReplaced(p + trail, ' ');
    TrimStartOfReplaced(p, ' ');
    TrimStartConcat(p, trail);
    TrimStartOfWhitespace(trail);
    var t := TrimStart(p);
    if t != [] {
      TrimEndIgnoresTrailingWhitespace(t, trail);
    }
  }

  /** Leading and trailing whitespace do not change the normal form. */
  lemma NormalizeIgnoresPadding(lead: string, s: string, trail: string)
    requires AllWhitespace(lead) && AllWhitespace(trail)
    ensures NormalizeAnswer(lead + s + trail) == NormalizeAnswer(s)
  {
    var p := StripPunctuation(ToLower(s));
    LowerAndStripOfPadded(lead, s, trail);
    CollapseIgnoresLeadingWhitespace(lead, p + trail);
    CollapseIgnoresTrailingWhitespace(p, trail);
  }

  /** Answers that differ only in surrounding whitespace are graded correct. */
  lemma IgnoresSurroundingWhitespace(lead: string, x: string, trail: string)
    requires AllWhitespace(lead) && AllWhitespace(trail)
    ensures CompareAnswers(lead + x + trail, x)
  {
    NormalizeIgnoresPadding(lead, x, trail);
  }

  /** Lower-casing and stripping work piecewise around a whitespace run. */
  lemma LowerAndStripAround(x: string, w: string, y: string)
    requires AllWhitespace(w)
    ensures StripPunctuation(ToLower(x + w + y)) == StripPunctuation(ToLower(x)) + w + StripPunctuation(ToLower(y))
  {
    var lx, ly := ToLower(x), ToLower(y);
    calc {
      ToLower(x + w + y);
      { ToLowerConcat(x + w, y); ToLowerConcat(x, w); }
      lx + ToLower(w) + ly;
      { WhitespaceIsUnchangedByLowerAndStrip(w); }
      lx + w + ly;
    }
    calc {
      StripPunctuation(lx + w + ly);
      { Seqs.FilterConcat(lx + w, ly, KeptByPunctuationFilter); }
      StripPunctuation(lx + w) + StripPunctuation(ly);
      { Seqs.FilterConcat(lx, w, KeptByPunctuationFilter); }
      StripPunctuation(lx) + StripPunctuation(w) + StripPunctuation(ly);
      { WhitespaceIsUnchangedByLowerAndStrip(w); }
      StripPunctuation(lx) + w + StripPunctuation(ly);
    }
  }

  /** A whitespace run inside an answer normalises to one space, whatever its
      length and whichever whitespace characters it holds. */
  lemma NormalizeIgnoresRunLength(x: string, w1: string, w2: string, y: string)
    requires w1 != [] && AllWhitespace(w1) && w2 != [] && AllWhitespace(w2)
    ensures NormalizeAnswer(x + w1 + y) == NormalizeAnswer(x + w2 + y)
  {
    var sx, sy := StripPunctuation(ToLower(x)), StripPunctuation(ToLower(y));
    LowerAndStripAround(x, w1, y);
    LowerAndStripAround(x, w2, y);
    ReplaceIgnoresRunLength(sx, w1, w2, sy, ' ');
  }

  /** Answers that differ only in the whitespace between their words are
      graded alike. */
  lemma IgnoresInnerWhitespace(x: string, y: string, w1: string, w2: string)
    requires w1 != [] && AllWhitespace(w1) && w2 != [] && AllWhitespace(w2)
    ensures CompareAnswers(x + w1 + y, x + w2 + y)
  {
    NormalizeIgnoresRunLength(x, w1, w2, y);
  }

  /** Every negation word ends in `t` and has at least three letters, so a
      string with no `t` from its third character on has no negation. */
  lemma NoNegationWithoutLateT(s: string)
    requires forall p :: 2 <= p < |s| ==> s[p] != 't'
    ensures !HasNegation(s)
  {
    forall j, k | 0 <= j <= |s| && 0 <= k < |NegationWords|
      ensures !WholeWordAt(s, j, NegationWords[k])
    {
      var w := NegationWords[k];
      assert |w| >= 3 && w[|w| - 1] == 't';
      if j + |w| <= |s| {
        assert s[j..j + |w|][|w| - 1] == s[j + |w| - 1] != 't';
      }
    }
  }

  /** A negation word standing between spaces is found, wherever it is. */
  lemma NegationWordDetected(x: string, y: string, k: nat)
    requires k < |NegationWords|
    ensures HasNegation(x + " " + NegationWords[k] + " " + y)
  {
    var w := NegationWords[k];
    var s := x + " " + w + " " + y;
    var j := |x| + 1;
    assert |w| >= 3 && IsWordChar(w[0]) && w[|w| - 1] == 't';
    assert s[j..j + |w|] == w;
    assert s[j - 1] == ' ' && s[j] == w[0];
    assert s[j + |w| - 1] == 't' && s[j + |w|] == ' ';
    assert WholeWordAt(s, j, NegationWords[k]);
  }

  /** An answer whose normal form adds a negation word to one that has none
      is graded wrong. */
  lemma AddedNegationIsWrong(user: string, correct: string, x: string, y: string, k: nat)
    requires k < |NegationWords|
    requires NormalizeAnswer(user) == x + " " + NegationWords[k] + " " + y
    requires !HasNegation(NormalizeAnswer(correct))
    ensures !CompareAnswers(user, correct)
  {
    NegationWordDetected(x, y, k);
    NegationMismatchIsWrong(user, correct);
  }

  lemma StopWordsAreWords()
    ensures WordAlternatives(StopWords)
  {
  }

  /** Deleting whole words from `x w y` (single spaces, three words, only `w`
      listed) leaves `x`, both spaces and `y`. */
  lemma DeleteInteriorWord(s: string, p: nat, q: nat, alts: seq<string>)
    requires WordAlternatives(alts)
    requires WordRun(s, 0, p) && WordRun(s, p + 1, q) && WordRun(s, q + 1, |s|)
    requires s[p] == ' ' && s[q] == ' '
    requires s[..p] !in alts && s[p + 1..q] in alts && s[q + 1..] !in alts
    ensures DeleteWholeWords(s, alts, 0) == s[..p] + "  " + s[q + 1..]
  {
    var x, y := s[..p], s[q + 1..];
    assert DeleteWholeWords(s, alts, |s|) == [];
    assert DeleteWholeWords(s, alts, q + 1) == y by {
      DeleteAcrossRun(s, q + 1, |s|, alts);
      assert s[q + 1..|s|] == y;
    }
    assert DeleteWholeWords(s, alts, q) == [' '] + y by { DeleteAtNonWordChar(s, q, alts); }
    assert DeleteWholeWords(s, alts, p + 1) == [' '] + y by { DeleteAcrossRun(s, p + 1, q, alts); }
    assert DeleteWholeWords(s, alts, p) == [' ', ' '] + y by { DeleteAtNonWordChar(s, p, alts); }
    assert DeleteWholeWords(s, alts, 0) == x + ([' ', ' '] + y) by {
      DeleteAcrossRun(s, 0, p, alts);
      assert s[0..p] == x;
    }
  }

  /** Deleting whole words from `x y` (single space, neither word listed)
      changes nothing. */
  lemma DeleteKeepsTwoWords(t: string, p: nat, alts: seq<string>)
    requires WordAlternatives(alts)
    requires WordRun(t, 0, p) && WordRun(t, p + 1, |t|) && t[p] == ' '
    requires t[..p] !in alts && t[p + 1..] !in alts
    ensures DeleteWholeWords(t, alts, 0) == t
  {
    var x, y := t[..p], t[p + 1..];
    assert DeleteWholeWords(t, alts, |t|) == [];
    assert DeleteWholeWords(t, alts, p + 1) == y by {
      DeleteAcrossRun(t, p + 1, |t|, alts);
      assert t[p + 1..|t|] == y;
    }
    assert DeleteWholeWords(t, alts, p) == [' '] + y by { DeleteAtNonWordChar(t, p, alts); }
    assert DeleteWholeWords(t, alts, 0) == x + ([' '] + y) by {
      DeleteAcrossRun(t, 0, p, alts);
      assert t[0..p] == x;
    }
    Seqs.SplitAt(t, p);
  }

  /** Trimming a string that starts and ends with a word character changes nothing. */
  lemma TrimOfWordEnds(t: string)
    requires t != [] && IsWordChar(t[0]) && IsWordChar(t[|t| - 1])
    ensures Trim(t) == t
  {
    assert TrimStart(t) == t;
  }

  /** A stop word between two other words is deleted but both spaces around it
      stay, so `x w y` cleans to `x`, two spaces, `y`. */
  lemma InteriorStopWordLeavesDoubleSpace(s: string, p: nat, q: nat)
    requires WordRun(s, 0, p) && WordRun(s, p + 1, q) && WordRun(s, q + 1, |s|)
    requires s[p] == ' ' && s[q] == ' '
    requires s[..p] !in StopWords && s[p + 1..q] in StopWords && s[q + 1..] !in StopWords
    ensures CleanAnswer(s) == s[..p] + "  " + s[q + 1..]
  {
    StopWordsAreWords();
    DeleteInteriorWord(s, p, q, StopWords);
    TrimOfWordEnds(s[..p] + "  " + s[q + 1..]);
  }

  /** Consequently `x w y` is graded wrong against `x y` even though they differ
      only by the stop word `w` (e.g. "cat is big" against "cat big"). */
  lemma InteriorStopWordIsNotIgnored(s: string, p: nat, q: nat)
    requires WordRun(s, 0, p) && WordRun(s, p + 1, q) && WordRun(s, q + 1, |s|)
    requires s[p] == ' ' && s[q] == ' '
    requires s[..p] !in StopWords && s[p + 1..q] in StopWords && s[q + 1..] !in StopWords
    ensures !CompareNormalized(s, s[..p] + " " + s[q + 1..])
  {
    var t := s[..p] + " " + s[q + 1..];
    assert CleanAnswer(t) == t by {
      assert t[..p] == s[..p] && t[p + 1..] == s[q + 1..] && t[p] == ' ';
      assert WordRun(t, 0, p) && WordRun(t, p + 1, |t|) by {
        forall m | p + 1 <= m < |t|
          ensures t[m] == s[m + q - p]
        {
        }
      }
      StopWordsAreWords();
      DeleteKeepsTwoWords(t, p, StopWords);
      TrimOfWordEnds(t);
    }
    assert |CleanAnswer(s)| == |t| + 1 by { InteriorStopWordLeavesDoubleSpace(s, p, q); }
    assert s != t;
  }

  /** Deleting whole words from `w x` (single space, only `w` listed) leaves
      the space and `x`. */
  lemma DeleteLeadingWord(s: string, p: nat, alts: seq<string>)
    requires WordAlternatives(alts)
    requires WordRun(s, 0, p) && WordRun(s, p + 1, |s|) && s[p] == ' '
    requires s[..p] in alts && s[p + 1..] !in alts
    ensures DeleteWholeWords(s, alts, 0) == [' '] + s[p + 1..]
  {
    var x := s[p + 1..];
    assert DeleteWholeWords(s, alts, |s|) == [];
    assert DeleteWholeWords(s, alts, p + 1) == x by {
      DeleteAcrossRun(s, p + 1, |s|, alts);
      assert s[p + 1..|s|] == x;
    }
    assert DeleteWholeWords(s, alts, p) == [' '] + x by { DeleteAtNonWordChar(s, p, alts); }
    assert DeleteWholeWords(s, alts, 0) == [' '] + x by {
      DeleteAcrossRun(s, 0, p, alts);
      assert s[0..p] in alts;
    }
  }

  /** A single word that is not listed survives deletion unchanged. */
  lemma DeleteKeepsOneWord(x: string, alts: seq<string>)
    requires WordAlternatives(alts)
    requires WordRun(x, 0, |x|) && x !in alts
    ensures DeleteWholeWords(x, alts, 0) == x
  {
    DeleteAcrossRun(x, 0, |x|, alts);
    assert x[0..|x|] == x;
  }

  /** Every negation word starts with a word character, ends in `t` and
      holds no space. */
  lemma NegationWordShape(k: nat)
    requires k < |NegationWords|
    ensures |NegationWords[k]| >= 3 && IsWordChar(NegationWords[k][0])
    ensures NegationWords[k][|NegationWords[k]| - 1] == 't'
    ensures ' ' !in NegationWords[k]
  {
  }

  /** No stop word is a negation word. */
  lemma StopWordsAreNotNegations(w: string)
    requires w in StopWords
    ensures w !in NegationWords
  {
  }

  /** A single word carries a negation exactly when it is a negation word. */
  lemma OneWordNegation(x: string)
    requires WordRun(x, 0, |x|)
    ensures HasNegation(x) <==> x in NegationWords
  {
    if x in NegationWords {
      var k :| 0 <= k < |NegationWords| && NegationWords[k] == x;
      NegationWordShape(k);
      assert x[0..|x|] == x;
      assert WholeWordAt(x, 0, NegationWords[k]);
    }
    if HasNegation(x) {
      var j, k :| 0 <= j <= |x| && 0 <= k < |NegationWords| && WholeWordAt(x, j, NegationWords[k]);
      var nw := NegationWords[k];
      NegationWordShape(k);
      var e := j + |nw|;
      assert x[j] == nw[0] && x[e - 1] == nw[|nw| - 1];
      assert j == 0;
      assert e == |x|;
      assert x[0..|x|] == x;
    }
  }

  /** Two words joined by one space carry a negation exactly when the second
      is a negation word, provided the first is not one. */
  lemma TwoWordNegation(s: string, p: nat)
    requires WordRun(s, 0, p) && WordRun(s, p + 1, |s|) && s[p] == ' '
    requires s[..p] !in NegationWords
    ensures HasNegation(s) <==> s[p + 1..] in NegationWords
  {
    var x := s[p + 1..];
    if x in NegationWords {
      var k :| 0 <= k < |NegationWords| && NegationWords[k] == x;
      NegationWordShape(k);
      assert s[p + 1..p + 1 + |x|] == x;
      assert WholeWordAt(s, p + 1, NegationWords[k]);
    }
    if HasNegation(s) {
      var j, k :| 0 <= j <= |s| && 0 <= k < |NegationWords| && WholeWordAt(s, j, NegationWords[k]);
      NegationMatchInTwoWords(s, p, j, k);
    }
  }

  /** A negation word found in `w x` can only be the whole of `x`. */
  lemma NegationMatchInTwoWords(s: string, p: nat, j: nat, k: nat)
    requires WordRun(s, 0, p) && WordRun(s, p + 1, |s|) && s[p] == ' '
    requires s[..p] !in NegationWords
    requires j <= |s| && k < |NegationWords| && WholeWordAt(s, j, NegationWords[k])
    ensures s[p + 1..] == NegationWords[k]
  {
    var nw := NegationWords[k];
    NegationWordShape(k);
    var e := j + |nw|;
    assert s[j..e] == nw;
    assert s[j] == nw[0] && s[e - 1] == nw[|nw| - 1];
    assert j == 0 || j == p + 1;
    assert e == p || e == |s|;
    assert j == p + 1;
    assert s[p + 1..] == nw;
  }

  /** A leading stop word is ignored: `w x` cleans to `x`, a stop word is
      never a negation, so `w x` matches `x` (e.g. "the answer" against
      "answer"). */
  lemma LeadingStopWordIgnored(s: string, p: nat)
    requires WordRun(s, 0, p) && WordRun(s, p + 1, |s|) && s[p] == ' '
    requires s[..p] in StopWords && s[p + 1..] !in StopWords
    ensures CleanAnswer(s) == s[p + 1..] == CleanAnswer(s[p + 1..])
    ensures HasNegation(s) == HasNegation(s[p + 1..])
    ensures CompareNormalized(s, s[p + 1..]) <==> HasNegation(s) == HasNegation(s[p + 1..])
    ensures CompareNormalized(s, s[p + 1..])
  {
    var x := s[p + 1..];
    StopWordsAreNotNegations(s[..p]);
    TwoWordNegation(s, p);
    StopWordsAreWords();
    DeleteLeadingWord(s, p, StopWords);
    TrimOfWordEnds(x);
    assert TrimStart([' '] + x) == TrimStart(x);
    assert WordRun(x, 0, |x|) by {
      forall m | 0 <= m < |x|
        ensures x[m] == s[m + p + 1]
      {
      }
    }
    DeleteKeepsOneWord(x, StopWords);
    OneWordNegation(x);
  }
  /** Two words of a normalised answer's characters joined by one space are
      already in normal form. */
  lemma TwoWordsNormalized(t: string, p: nat)
    requires CleanChars(t)
    requires WordRun(t, 0, p) && WordRun(t, p + 1, |t|) && t[p] == ' '
    ensures Normalized(t)
  {
    forall i | 0 <= i < |t| && i != p
      ensures !IsWhitespace(t[i])
    {
      assert IsWordChar(t[i]);
    }
  }

  /** `compareAnswers` on a normalised answer `w x` against `x`, where `w` is
      a stop word: they always match. */
  lemma LeadingStopWordAnswer(s: string, p: nat)
    requires Normalized(s)
    requires WordRun(s, 0, p) && WordRun(s, p + 1, |s|) && s[p] == ' '
    requires s[..p] in StopWords && s[p + 1..] !in StopWords
    ensures CompareAnswers(s, s[p + 1..]) <==> HasNegation(s) == HasNegation(s[p + 1..])
    ensures CompareAnswers(s, s[p + 1..])
  {
    var x := s[p + 1..];
    assert Normalized(x) by {
      SliceIsClean(s, p + 1, |s|);
      assert s[p + 1..|s|] == x;
      assert IsWordChar(x[0]) && IsWordChar(x[|x| - 1]);
    }
    NormalizedIsFixedPoint(s);
    NormalizedIsFixedPoint(x);
    LeadingStopWordIgnored(s, p);
  }

  /** `compareAnswers` on a normalised answer `x w y`, where `w` is a stop
      word, against `x y`: graded wrong, the stop word is not ignored. */
  lemma InteriorStopWordMakesAnswerWrong(s: string, p: nat, q: nat)
    requires Normalized(s)
    requires WordRun(s, 0, p) && WordRun(s, p + 1, q) && WordRun(s, q + 1, |s|)
    requires s[p] == ' ' && s[q] == ' '
    requires s[..p] !in StopWords && s[p + 1..q] in StopWords && s[q + 1..] !in StopWords
    ensures !CompareAnswers(s, s[..p] + " " + s[q + 1..])
  {
    var t := s[..p] + " " + s[q + 1..];
    assert Normalized(t) by {
      forall m | 0 <= m < |t|
        ensures t[m] == if m < p then s[m] else if m == p then ' ' else s[m + q - p]
      {
      }
      TwoWordsNormalized(t, p);
    }
    NormalizedIsFixedPoint(s);
    NormalizedIsFixedPoint(t);
    InteriorStopWordIsNotIgnored(s, p, q);
  }
}
