/** The JavaScript string primitives the application's rules are built from:
    `\s` and `trim()`, `\w`, `toLowerCase` on ASCII letters, the
    `replace(/\s+/g, c)` idiom, and the decimal rendering of a number. */
module Text {
  import Seqs

  /** ECMAScript WhiteSpace and LineTerminator: the class `\s` matches and
      `String.prototype.trim` removes. */
  predicate IsWhitespace(c: char) {
    c == ' ' || c == '\t' || c == '\n' || c == '\U{B}' || c == '\U{C}' || c == '\r'
    || c == '\U{A0}' || c == '\U{1680}' || ('\U{2000}' <= c <= '\U{200A}')
    || c == '\U{2028}' || c == '\U{2029}' || c == '\U{202F}' || c == '\U{205F}'
    || c == '\U{3000}' || c == '\U{FEFF}'
  }

  /** `\w` of a regular expression without the `u` flag. */
  predicate IsWordChar(c: char) {
    ('a' <= c <= 'z') || ('A' <= c <= 'Z') || ('0' <= c <= '9') || c == '_'
  }

  predicate IsAsciiUpper(c: char) {
    'A' <= c <= 'Z'
  }

  predicate IsDigit(c: char) {
    '0' <= c <= '9'
  }

  predicate HasWhitespace(s: string) {
    exists i :: 0 <= i < |s| && IsWhitespace(s[i])
  }

  /** No two neighbouring characters are both whitespace. */
  predicate NoAdjacentWhitespace(s: string) {
    forall i, j :: 0 <= i < |s| && 0 <= j < |s| && j == i + 1 ==> !(IsWhitespace(s[i]) && IsWhitespace(s[j]))
  }

  predicate AllWhitespace(s: string) {
    forall i :: 0 <= i < |s| ==> IsWhitespace(s[i])
  }

  function LowerChar(c: char): (r: char)
    ensures !IsAsciiUpper(r)
    ensures IsAsciiUpper(c) ==> r as int == c as int + 32
    ensures !IsAsciiUpper(c) ==> r == c
  {
    if IsAsciiUpper(c) then (c as int + 32) as char else c
  }

  /** `toLowerCase`, restricted to the ASCII letters. */
  function ToLower(s: string): (r: string)
    ensures |r| == |s|
    ensures forall i :: 0 <= i < |r| ==> !IsAsciiUpper(r[i])
    ensures forall i :: 0 <= i < |r| ==> r[i] == LowerChar(s[i])
  {
    seq(|s|, i requires 0 <= i < |s| => LowerChar(s[i]))
  }

  lemma ToLowerConcat(a: string, b: string)
    ensures ToLower(a + b) == ToLower(a) + ToLower(b)
  {
  }

  /** `trimStart()`: the suffix that is left once the leading whitespace is gone. */
  function TrimStart(s: string): (r: string)
    ensures |r| <= |s| && r == s[|s| - |r|..]
    ensures r == [] || !IsWhitespace(r[0])
    ensures AllWhitespace(s[..|s| - |r|])
  {
    if s != [] && IsWhitespace(s[0]) then TrimStart(s[1..]) else s
  }

  /** `trimEnd()`: the prefix that is left once the trailing whitespace is gone. */
  function TrimEnd(s: string): (r: string)
    ensures |r| <= |s| && r == s[..|r|]
    ensures r == [] || !IsWhitespace(r[|r| - 1])
    ensures AllWhitespace(s[|r|..])
  {
    if s != [] && IsWhitespace(s[|s| - 1]) then TrimEnd(s[..|s| - 1]) else s
  }

  /** `trim()`. */
  function Trim(s: string): string {
    TrimEnd(TrimStart(s))
  }

  /** `s.replace(/\s+/g, sep)`: every maximal run of whitespace becomes one `sep`. */
  function ReplaceWhitespaceRuns(s: string, sep: char): (r: string)
    ensures |r| <= |s|
    ensures forall i :: 0 <= i < |r| ==> r[i] == sep || !IsWhitespace(r[i])
    ensures s != [] ==> r != [] && r[0] == (if IsWhitespace(s[0]) then sep else s[0])
    ensures NoAdjacentWhitespace(r)
    decreases |s|
  {
    if s == [] then []
    else if IsWhitespace(s[0]) then [sep] + ReplaceWhitespaceRuns(TrimStart(s[1..]), sep)
    else [s[0]] + ReplaceWhitespaceRuns(s[1..], sep)
  }

  /** A string whose whitespace is already single `sep` characters is left alone. */
  lemma {:induction false} ReplaceWhitespaceRunsFixed(s: string, sep: char)
    requires forall i :: 0 <= i < |s| && IsWhitespace(s[i]) ==> s[i] == sep
    requires NoAdjacentWhitespace(s)
    ensures ReplaceWhitespaceRuns(s, sep) == s
  {
    if s != [] {
      if IsWhitespace(s[0]) {
        assert TrimStart(s[1..]) == s[1..];
      }
      ReplaceWhitespaceRunsFixed(s[1..], sep);
    }
  }

  /** Whitespace in front of a string does not survive `trimStart()`. */
  lemma {:induction false} TrimStartConcat(a: string, b: string)
    ensures TrimStart(a + b) == if TrimStart(a) == [] then TrimStart(b) else TrimStart(a) + b
  {
    if a != [] {
      assert (a + b)[0] == a[0];
      if IsWhitespace(a[0]) {
        assert (a + b)[1..] == a[1..] + b;
        TrimStartConcat(a[1..], b);
      }
    } else {
      assert a + b == b;
    }
  }

  /** `trimEnd()` of a concatenation looks at the left part only when the
      right part is all whitespace. */
  lemma {:induction false} TrimEndConcat(a: string, b: string)
    ensures TrimEnd(a + b) == if TrimEnd(b) == [] then TrimEnd(a) else a + TrimEnd(b)
    decreases |b|
  {
    if b == [] {
      assert a + b == a;
    } else {
      var last := |b| - 1;
      assert (a + b)[|a + b| - 1] == b[last];
      if IsWhitespace(b[last]) {
        assert (a + b)[..|a + b| - 1] == a + b[..last];
        TrimEndConcat(a, b[..last]);
      }
    }
  }

  /** Collapsing the runs and then trimming the front is the same as trimming
      the front and then collapsing. */
  lemma TrimStartOfReplaced(s: string, sep: char)
    requires IsWhitespace(sep)
    ensures TrimStart(ReplaceWhitespaceRuns(s, sep)) == ReplaceWhitespaceRuns(TrimStart(s), sep)
  {
    if s != [] && IsWhitespace(s[0]) {
      var t := TrimStart(s[1..]);
      var rest := ReplaceWhitespaceRuns(t, sep);
      assert ReplaceWhitespaceRuns(s, sep) == [sep] + rest;
      assert TrimStart(rest) == rest;
      assert TrimStart(t) == t;
    }
  }

  lemma TrimStartOfWhitespace(w: string)
    requires AllWhitespace(w)
    ensures TrimStart(w) == []
  {
  }

  /** A whitespace run in front becomes one separator, and the whitespace
      right after it belongs to the same run. */
  lemma ReplaceAfterRun(w: string, b: string, sep: char)
    requires w != [] && AllWhitespace(w)
    ensures ReplaceWhitespaceRuns(w + b, sep) == [sep] + ReplaceWhitespaceRuns(TrimStart(b), sep)
  {
    assert (w + b)[0] == w[0];
    assert (w + b)[1..] == w[1..] + b;
    TrimStartConcat(w[1..], b);
    TrimStartOfWhitespace(w[1..]);
  }

  /** `replace` keeps a first character that is not whitespace. */
  lemma ReplaceFrontKept(a: string, c: string, sep: char)
    requires a != [] && !IsWhitespace(a[0])
    ensures ReplaceWhitespaceRuns(a + c, sep) == [a[0]] + ReplaceWhitespaceRuns(a[1..] + c, sep)
  {
    assert (a + c)[0] == a[0];
    assert (a + c)[1..] == a[1..] + c;
  }

  /** `replace` turns a whitespace first character into the separator and
      swallows the whitespace after it. */
  lemma ReplaceFrontBlank(a: string, c: string, sep: char)
    requires a != [] && IsWhitespace(a[0])
    ensures ReplaceWhitespaceRuns(a + c, sep) == [sep] + ReplaceWhitespaceRuns(TrimStart(a[1..] + c), sep)
  {
    assert (a + c)[0] == a[0];
    assert (a + c)[1..] == a[1..] + c;
  }

  /** A run at the very front becomes one separator whatever its length. */
  lemma RunLengthAtFront(w1: string, w2: string, b: string, sep: char)
    requires w1 != [] && AllWhitespace(w1) && w2 != [] && AllWhitespace(w2)
    ensures ReplaceWhitespaceRuns(w1 + b, sep) == ReplaceWhitespaceRuns(w2 + b, sep)
  {
    ReplaceAfterRun(w1, b, sep);
    ReplaceAfterRun(w2, b, sep);
  }

  /** Each maximal run becomes exactly one separator, whatever its length
      and whichever whitespace characters it holds. */
  lemma {:induction false} ReplaceIgnoresRunLength(a: string, w1: string, w2: string, b: string, sep: char)
    requires w1 != [] && AllWhitespace(w1) && w2 != [] && AllWhitespace(w2)
    ensures ReplaceWhitespaceRuns(a + w1 + b, sep) == ReplaceWhitespaceRuns(a + w2 + b, sep)
    decreases |a|, 1
  {
    var c1, c2 := w1 + b, w2 + b;
    assert a + w1 + b == a + c1 && a + w2 + b == a + c2;
    if a == [] {
      assert a + c1 == c1 && a + c2 == c2;
      RunLengthAtFront(w1, w2, b, sep);
    } else if IsWhitespace(a[0]) {
      assert ReplaceWhitespaceRuns(a + c1, sep) == ReplaceWhitespaceRuns(a + c2, sep) by {
        ReplaceFrontBlank(a, c1, sep);
        ReplaceFrontBlank(a, c2, sep);
        RunLengthAfterBlank(a[1..], w1, w2, b, sep);
      }
    } else {
      assert ReplaceWhitespaceRuns(a + c1, sep) == ReplaceWhitespaceRuns(a + c2, sep) by {
        ReplaceFrontKept(a, c1, sep);
        ReplaceFrontKept(a, c2, sep);
        assert a[1..] + c1 == a[1..] + w1 + b && a[1..] + c2 == a[1..] + w2 + b;
        ReplaceIgnoresRunLength(a[1..], w1, w2, b, sep);
      }
    }
  }

  /** The step of `ReplaceIgnoresRunLength` after a whitespace character:
      the run it starts swallows the leading whitespace of the rest. */
  lemma {:induction false} RunLengthAfterBlank(r: string, w1: string, w2: string, b: string, sep: char)
    requires w1 != [] && AllWhitespace(w1) && w2 != [] && AllWhitespace(w2)
    ensures ReplaceWhitespaceRuns(TrimStart(r + (w1 + b)), sep) == ReplaceWhitespaceRuns(TrimStart(r + (w2 + b)), sep)
    decreases |r| + 1, 0
  {
    TrimStartBeforeRun(r, w1, b);
    TrimStartBeforeRun(r, w2, b);
    var t := TrimStart(r);
    if t != [] {
      ReplaceIgnoresRunLength(t, w1, w2, b, sep);
    }
  }

  /** `trimStart()` of `r + w + b` for a whitespace run `w`: the run goes
      too when `r` is all whitespace. */
  lemma TrimStartBeforeRun(r: string, w: string, b: string)
    requires AllWhitespace(w)
    ensures TrimStart(r + (w + b)) == if TrimStart(r) == [] then TrimStart(b) else TrimStart(r) + w + b
  {
    TrimStartConcat(r, w + b);
    if TrimStart(r) == [] {
      TrimStartConcat(w, b);
      TrimStartOfWhitespace(w);
    } else {
      assert TrimStart(r) + (w + b) == TrimStart(r) + w + b;
    }
  }

  /** A whole run of whitespace between two non-whitespace neighbours
      becomes exactly one separator: the text on either side is replaced
      independently. */
  lemma {:induction false} ReplaceSplitsAtRun(a: string, w: string, b: string, sep: char)
    requires a == [] || !IsWhitespace(a[|a| - 1])
    requires w != [] && AllWhitespace(w)
    requires b == [] || !IsWhitespace(b[0])
    ensures ReplaceWhitespaceRuns(a + w + b, sep) == ReplaceWhitespaceRuns(a, sep) + [sep] + ReplaceWhitespaceRuns(b, sep)
    decreases |a|, 1
  {
    if a == [] {
      SplitAtLeadingRun(w, b, sep);
      assert a + w == w;
    } else if IsWhitespace(a[0]) {
      SplitAfterBlank(a, w, b, sep);
    } else {
      SplitAfterKept(a, w, b, sep);
    }
  }

  lemma SplitAtLeadingRun(w: string, b: string, sep: char)
    requires w != [] && AllWhitespace(w)
    requires b == [] || !IsWhitespace(b[0])
    ensures ReplaceWhitespaceRuns(w + b, sep) == [sep] + ReplaceWhitespaceRuns(b, sep)
  {
    ReplaceAfterRun(w, b, sep);
    assert TrimStart(b) == b;
  }

  /** The step of `ReplaceSplitsAtRun` when `a` starts with whitespace. */
  lemma {:induction false} SplitAfterBlank(a: string, w: string, b: string, sep: char)
    requires a != [] && IsWhitespace(a[0]) && !IsWhitespace(a[|a| - 1])
    requires w != [] && AllWhitespace(w)
    requires b == [] || !IsWhitespace(b[0])
    ensures ReplaceWhitespaceRuns(a + w + b, sep) == ReplaceWhitespaceRuns(a, sep) + [sep] + ReplaceWhitespaceRuns(b, sep)
    decreases |a|, 0
  {
    var c := w + b;
    var t := TrimStart(a[1..]);
    assert t != [] && t[|t| - 1] == a[|a| - 1] by {
      assert a[1..][|a| - 2] == a[|a| - 1];
    }
    assert ReplaceWhitespaceRuns(a + c, sep) == [sep] + ReplaceWhitespaceRuns(t + c, sep) by {
      ReplaceFrontBlank(a, c, sep);
      TrimStartConcat(a[1..], c);
    }
    Seqs.ConcatAssoc(a, w, b);
    Seqs.ConcatAssoc(t, w, b);
    ReplaceSplitsAtRun(t, w, b, sep);
    Seqs.PrependRegroup([sep], ReplaceWhitespaceRuns(t, sep), [sep], ReplaceWhitespaceRuns(b, sep));
  }

  /** The step of `ReplaceSplitsAtRun` when `a` starts with a kept character. */
  lemma {:induction false} SplitAfterKept(a: string, w: string, b: string, sep: char)
    requires a != [] && !IsWhitespace(a[0]) && !IsWhitespace(a[|a| - 1])
    requires w != [] && AllWhitespace(w)
    requires b == [] || !IsWhitespace(b[0])
    ensures ReplaceWhitespaceRuns(a + w + b, sep) == ReplaceWhitespaceRuns(a, sep) + [sep] + ReplaceWhitespaceRuns(b, sep)
    decreases |a|, 0
  {
    var c := w + b;
    var r := a[1..];
    assert r == [] || !IsWhitespace(r[|r| - 1]) by {
      if r != [] {
        assert r[|r| - 1] == a[|a| - 1];
      }
    }
    assert ReplaceWhitespaceRuns(a + c, sep) == [a[0]] + ReplaceWhitespaceRuns(r + c, sep) by {
      ReplaceFrontKept(a, c, sep);
    }
    Seqs.ConcatAssoc(a, w, b);
    Seqs.ConcatAssoc(r, w, b);
    ReplaceSplitsAtRun(r, w, b, sep);
    Seqs.PrependRegroup([a[0]], ReplaceWhitespaceRuns(r, sep), [sep], ReplaceWhitespaceRuns(b, sep));
  }

  /** Only whitespace is replaced: every character that is neither
      whitespace nor the separator survives, in order. */
  lemma {:induction false} ReplaceKeepsOtherChars(s: string, sep: char, p: char -> bool)
    requires forall c :: p(c) ==> !IsWhitespace(c) && c != sep
    ensures Seqs.Filter(ReplaceWhitespaceRuns(s, sep), p) == Seqs.Filter(s, p)
    decreases |s|
  {
    if s != [] {
      var rest := s[1..];
      assert Seqs.Filter(s, p) == (if p(s[0]) then [s[0]] else []) + Seqs.Filter(rest, p) by {
        assert s == [s[0]] + rest;
        FilterCons(s[0], rest, p);
      }
      if IsWhitespace(s[0]) {
        var t := TrimStart(rest);
        assert Seqs.Filter(ReplaceWhitespaceRuns(s, sep), p) == Seqs.Filter(ReplaceWhitespaceRuns(t, sep), p) by {
          FilterCons(sep, ReplaceWhitespaceRuns(t, sep), p);
        }
        ReplaceKeepsOtherChars(t, sep, p);
        FilterOfTrimStart(rest, p);
      } else {
        assert Seqs.Filter(ReplaceWhitespaceRuns(s, sep), p) == (if p(s[0]) then [s[0]] else []) + Seqs.Filter(ReplaceWhitespaceRuns(rest, sep), p) by {
          FilterCons(s[0], ReplaceWhitespaceRuns(rest, sep), p);
        }
        ReplaceKeepsOtherChars(rest, sep, p);
      }
    }
  }

  lemma FilterCons(x: char, s: string, p: char -> bool)
    ensures Seqs.Filter([x] + s, p) == (if p(x) then [x] else []) + Seqs.Filter(s, p)
  {
    Seqs.FilterConcat([x], s, p);
    Seqs.FilterSingleton(x, p);
  }

  /** `trimStart()` removes nothing that a filter of non-whitespace keeps. */
  lemma FilterOfTrimStart(s: string, p: char -> bool)
    requires forall c :: p(c) ==> !IsWhitespace(c)
    ensures Seqs.Filter(TrimStart(s), p) == Seqs.Filter(s, p)
  {
    var t := TrimStart(s);
    var lead := s[..|s| - |t|];
    assert s == lead + t;
    Seqs.FilterConcat(lead, t, p);
    Seqs.FilterDropsAll(lead, p);
  }

  // ---- decimal rendering: `${n}` and `n.toString()` for a non-negative integer ----

  function DigitChar(d: nat): (c: char)
    requires d < 10
    ensures IsDigit(c)
  {
    ('0' as int + d) as char
  }

  function DigitValue(c: char): nat
    requires IsDigit(c)
  {
    c as int - '0' as int
  }

  /** The decimal digits of `n`, without leading zeros. */
  function NatToString(n: nat): (r: string)
    ensures 1 <= |r|
    ensures forall i :: 0 <= i < |r| ==> IsDigit(r[i])
    ensures r[0] == '0' ==> n == 0 && r == "0"
  {
    if n < 10 then [DigitChar(n)] else NatToString(n / 10) + [DigitChar(n % 10)]
  }

  /** Reads a string of decimal digits back as a number. */
  function ParseDecimal(s: string): nat
    requires forall i :: 0 <= i < |s| ==> IsDigit(s[i])
  {
    if s == [] then 0 else 10 * ParseDecimal(s[..|s| - 1]) + DigitValue(s[|s| - 1])
  }

  lemma {:induction false} ParseNatToString(n: nat)
    ensures ParseDecimal(NatToString(n)) == n
  {
    var r := NatToString(n);
    if n >= 10 {
      ParseNatToString(n / 10);
      assert r[..|r| - 1] == NatToString(n / 10);
    }
  }

  /** Two numbers render the same exactly when they are equal. */
  lemma NatToStringInjective(m: nat, n: nat)
    ensures NatToString(m) == NatToString(n) <==> m == n
  {
    if NatToString(m) == NatToString(n) {
      ParseNatToString(m);
      ParseNatToString(n);
    }
  }
}
