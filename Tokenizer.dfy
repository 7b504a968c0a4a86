/**
 * The tokenizer of the word extractor: the word pattern `\b[\p{L}\p{M}]+\b`
 * (compiled with UNICODE_CHARACTER_CLASS), applied left to right over the
 * whole text, each match lower-cased, and every result of at most one
 * UTF-16 unit dropped.
 *
 * Text is a sequence of Unicode code points. The Unicode tables and the
 * platform's lower-casing are not modelled: they are the fields of a
 * `UnicodeRules` value that every operation takes as a parameter.
 */
module Tokenizer {

  import opened Wrappers

  /** The Unicode facts the word pattern depends on.
      - lettersAndMarks: the character class `[\p{L}\p{M}]`;
      - wordChars: the class `\w` under UNICODE_CHARACTER_CLASS (letters and
        other alphabetic code points, marks, digits, connector punctuation,
        join controls), against which `\b` is defined;
      - toLowerCase: the platform's `String.toLowerCase()`, which may change
        the length of its argument. */
  datatype UnicodeRules = UnicodeRules(
    lettersAndMarks: iset<char>,
    wordChars: iset<char>,
    toLowerCase: string -> string)

  /** Every letter or mark is a word character: `\p{L}` lies inside Alphabetic
      and `\p{M}` is Mn, Mc and Me, all of which `\w` contains. */
  ghost predicate Wellformed(u: UnicodeRules)
  {
    u.lettersAndMarks <= u.wordChars
  }

  /** A match of the pattern, as the half-open range [start, end) of the text. */
  datatype Span = Span(start: nat, end: nat)

  /** Every span is non-empty and lies within [lo, hi). */
  predicate SpansWithin(spans: seq<Span>, lo: nat, hi: nat)
  {
    forall i :: 0 <= i < |spans| ==> lo <= spans[i].start < spans[i].end <= hi
  }

  // ---------------------------------------------------------------------
  // Lengths in UTF-16 code units (Java's String.length())
  // ---------------------------------------------------------------------

  /** A code point above U+FFFF takes two UTF-16 units (a surrogate pair). */
  function Utf16Units(c: char): nat
  {
    if c as int > 0xFFFF then 2 else 1
  }

  function Utf16Length(s: string): (n: nat)
    ensures |s| <= n <= 2 * |s|
  {
    if s == [] then 0 else Utf16Units(s[0]) + Utf16Length(s[1..])
  }

  /** The filter `!word.isEmpty() && word.length() > 1`. */
  predicate LongEnough(w: string)
  {
    Utf16Length(w) > 1
  }

  /** A token is kept exactly when it has two code points or more, or is one
      code point outside the Basic Multilingual Plane. */
  lemma {:induction false} LongEnoughIff(w: string)
    ensures LongEnough(w) <==> |w| >= 2 || (|w| == 1 && w[0] as int > 0xFFFF)
  {
    if |w| == 1 {
      assert w[1..] == [];
    }
  }

  // ---------------------------------------------------------------------
  // The pattern, stated declaratively
  // ---------------------------------------------------------------------

  /** `\b` at position i: exactly one of the characters around i is a word
      character (outside the text there is none). */
  predicate IsBoundary(u: UnicodeRules, t: string, i: nat)
    requires i <= |t|
  {
    var before := i > 0 && t[i - 1] in u.wordChars;
    var after := i < |t| && t[i] in u.wordChars;
    before != after
  }

  predicate AllLettersOrMarks(u: UnicodeRules, t: string, p: nat, q: nat)
    requires p <= q <= |t|
  {
    forall k :: p <= k < q ==> t[k] in u.lettersAndMarks
  }

  /** `\b[\p{L}\p{M}]+\b` matches t[p..q]. */
  predicate IsMatch(u: UnicodeRules, t: string, p: nat, q: nat)
  {
    && p < q <= |t|
    && IsBoundary(u, t, p)
    && AllLettersOrMarks(u, t, p, q)
    && IsBoundary(u, t, q)
  }

  /** A match is a whole run of letters and marks: neither the character
      before it nor the one after it is a letter or mark. */
  lemma MatchIsMaximalRun(u: UnicodeRules, t: string, p: nat, q: nat)
    requires Wellformed(u)
    requires IsMatch(u, t, p, q)
    ensures p == 0 || t[p - 1] !in u.lettersAndMarks
    ensures q == |t| || t[q] !in u.lettersAndMarks
  {
    assert t[p] in u.lettersAndMarks;
    assert t[q - 1] in u.lettersAndMarks;
  }

  // ---------------------------------------------------------------------
  // The matcher, as the left-to-right scan that Matcher.results() performs
  // ---------------------------------------------------------------------

  /** The end of the longest run of letters and marks starting at p (the
      greedy `+`). */
  function RunEnd(u: UnicodeRules, t: string, p: nat): (q: nat)
    requires p <= |t|
    ensures p <= q <= |t|
    ensures AllLettersOrMarks(u, t, p, q)
    ensures q < |t| ==> t[q] !in u.lettersAndMarks
    decreases |t| - p
  {
    if p < |t| && t[p] in u.lettersAndMarks then RunEnd(u, t, p + 1) else p
  }

  /** The attempt to match at start position p: `\b`, the greedy run, `\b`.
      Backtracking the run never helps (MatchAtIsOnlyMatch), so the attempt
      either succeeds with the whole run or fails. */
  function MatchAt(u: UnicodeRules, t: string, p: nat): (r: Option<nat>)
    requires p <= |t|
    ensures r.Some? ==> IsMatch(u, t, p, r.value)
  {
    var q := RunEnd(u, t, p);
    if p < q && IsBoundary(u, t, p) && IsBoundary(u, t, q) then Some(q) else None
  }

  /** At each start position the pattern has at most one match, and the
      greedy attempt finds it. */
  lemma MatchAtIsOnlyMatch(u: UnicodeRules, t: string, p: nat, q: nat)
    requires Wellformed(u)
    requires p <= |t|
    ensures IsMatch(u, t, p, q) <==> MatchAt(u, t, p) == Some(q)
  {
    var e := RunEnd(u, t, p);
    forall i | p < i < e
      ensures !IsBoundary(u, t, i)
    {
      NoBoundaryInsideRun(u, t, p, i);
    }
  }

  /** A start position strictly inside a run of letters and marks is never
      a boundary. */
  lemma NoBoundaryInsideRun(u: UnicodeRules, t: string, p: nat, i: nat)
    requires Wellformed(u)
    requires p <= |t| && p < i < RunEnd(u, t, p)
    ensures !IsBoundary(u, t, i)
  {
    assert t[i - 1] in u.lettersAndMarks && t[i] in u.lettersAndMarks;
    assert t[i - 1] in u.wordChars && t[i] in u.wordChars;
  }

  /** The successive matches found from position `from` on: each attempt
      that succeeds resumes the search at the end of its match, each one that
      fails at the next position. */
  function Scan(u: UnicodeRules, t: string, from: nat): (r: seq<Span>)
    requires from <= |t|
    ensures SpansWithin(r, from, |t|)
    decreases |t| - from
  {
    if from == |t| then []
    else match MatchAt(u, t, from)
      case Some(q) => [Span(from, q)] + Scan(u, t, q)
      case None => Scan(u, t, from + 1)
  }

  /** Matches come out in text order and do not overlap. */
  ghost predicate InTextOrder(spans: seq<Span>)
  {
    forall i, j :: 0 <= i < j < |spans| ==> spans[i].end <= spans[j].start
  }

  lemma {:induction false} ScanInTextOrder(u: UnicodeRules, t: string, from: nat)
    requires from <= |t|
    ensures InTextOrder(Scan(u, t, from))
    decreases |t| - from
  {
    if from < |t| {
      match MatchAt(u, t, from)
      case Some(q) =>
        ScanInTextOrder(u, t, q);
        var r := Scan(u, t, from);
        assert r == [Span(from, q)] + Scan(u, t, q);
        forall i, j | 0 <= i < j < |r| ensures r[i].end <= r[j].start {
          if i == 0 {
            assert r[j] in Scan(u, t, q);
          } else {
            assert r[i] == Scan(u, t, q)[i - 1] && r[j] == Scan(u, t, q)[j - 1];
          }
        }
      case None =>
        ScanInTextOrder(u, t, from + 1);
    }
  }

  /** The scan from `from` yields exactly the pattern's matches that start
      at `from` or later. */
  lemma {:induction false} ScanFindsAllMatches(u: UnicodeRules, t: string, from: nat, p: nat, q: nat)
    requires Wellformed(u)
    requires from <= |t|
    ensures Span(p, q) in Scan(u, t, from) <==> from <= p && IsMatch(u, t, p, q)
    decreases |t| - from
  {
    if from < |t| {
      MatchAtIsOnlyMatch(u, t, from, q);
      match MatchAt(u, t, from)
      case Some(e) =>
        ScanFindsAllMatches(u, t, e, p, q);
        if from < p < e {
          NoBoundaryInsideRun(u, t, from, p);
        }
      case None =>
        ScanFindsAllMatches(u, t, from + 1, p, q);
    }
  }

  // ---------------------------------------------------------------------
  // Tokens
  // ---------------------------------------------------------------------

  /** What one match contributes: its lower-cased text when that is long
      enough, nothing otherwise. */
  function Kept(w: string): (r: seq<string>)
  {
    if LongEnough(w) then [w] else []
  }

  /** Lower-case the text of each match, keeping the results that are long
      enough, in the order of the matches. */
  function LowerAndFilter(u: UnicodeRules, t: string, spans: seq<Span>): (words: seq<string>)
    requires SpansWithin(spans, 0, |t|)
    ensures |words| <= |spans|
  {
    if spans == [] then []
    else
      var w := u.toLowerCase(t[spans[0].start..spans[0].end]);
      Kept(w) + LowerAndFilter(u, t, spans[1..])
  }

  /** extractWords: the tokens of a text. */
  function ExtractWords(u: UnicodeRules, text: string): (words: seq<string>)
    ensures forall i :: 0 <= i < |words| ==> Utf16Length(words[i]) >= 2
  {
    var spans := Scan(u, text, 0);
    LowerAndFilterKeepsLong(u, text, spans);
    LowerAndFilter(u, text, spans)
  }

  /** Every result of the filter passes the length test. */
  lemma {:induction false} LowerAndFilterKeepsLong(u: UnicodeRules, t: string, spans: seq<Span>)
    requires SpansWithin(spans, 0, |t|)
    ensures forall i :: 0 <= i < |LowerAndFilter(u, t, spans)| ==> LongEnough(LowerAndFilter(u, t, spans)[i])
  {
    if spans != [] {
      var w := u.toLowerCase(t[spans[0].start..spans[0].end]);
      var rest := LowerAndFilter(u, t, spans[1..]);
      LowerAndFilterKeepsLong(u, t, spans[1..]);
      forall i | 0 <= i < |Kept(w) + rest| ensures LongEnough((Kept(w) + rest)[i]) {
        if i >= |Kept(w)| {
          assert (Kept(w) + rest)[i] == rest[i - |Kept(w)|];
        }
      }
    }
  }

  lemma AppendAssociative(a: seq<string>, b: seq<string>, c: seq<string>)
    ensures a + (b + c) == (a + b) + c
  {
  }

  lemma {:induction false} LowerAndFilterAppend(u: UnicodeRules, t: string, a: seq<Span>, b: seq<Span>)
    requires SpansWithin(a, 0, |t|) && SpansWithin(b, 0, |t|)
    ensures SpansWithin(a + b, 0, |t|)
    ensures LowerAndFilter(u, t, a + b) == LowerAndFilter(u, t, a) + LowerAndFilter(u, t, b)
  {
    assert SpansWithin(a + b, 0, |t|);
    if a == [] {
      assert a + b == b;
    } else {
      var first := LowerAndFilter(u, t, [a[0]]);
      assert (a + b)[0] == a[0] && (a + b)[1..] == a[1..] + b;
      LowerAndFilterFirst(u, t, a + b);
      LowerAndFilterFirst(u, t, a);
      LowerAndFilterAppend(u, t, a[1..], b);
      AppendAssociative(first, LowerAndFilter(u, t, a[1..]), LowerAndFilter(u, t, b));
    }
  }

  /** The results of a match list: those of its first match, then those of
      the rest. */
  lemma LowerAndFilterFirst(u: UnicodeRules, t: string, spans: seq<Span>)
    requires spans != [] && SpansWithin(spans, 0, |t|)
    ensures SpansWithin([spans[0]], 0, |t|)
    ensures LowerAndFilter(u, t, spans) == LowerAndFilter(u, t, [spans[0]]) + LowerAndFilter(u, t, spans[1..])
  {
    assert [spans[0]][1..] == [];
  }

  /** Every token is the lower-cased text of a match of the pattern. */
  lemma {:induction false} TokensComeFromMatches(u: UnicodeRules, t: string, spans: seq<Span>, w: string)
    requires SpansWithin(spans, 0, |t|)
    requires w in LowerAndFilter(u, t, spans)
    ensures exists s :: s in spans && w == u.toLowerCase(t[s.start..s.end])
  {
    var w0 := u.toLowerCase(t[spans[0].start..spans[0].end]);
    if w == w0 {
      assert spans[0] in spans;
    } else {
      TokensComeFromMatches(u, t, spans[1..], w);
      var s :| s in spans[1..] && w == u.toLowerCase(t[s.start..s.end]);
      assert s in spans;
    }
  }

  lemma {:induction false} LongMatchesAreKept(u: UnicodeRules, t: string, spans: seq<Span>, s: Span)
    requires SpansWithin(spans, 0, |t|)
    requires s in spans
    requires LongEnough(u.toLowerCase(t[s.start..s.end]))
    ensures u.toLowerCase(t[s.start..s.end]) in LowerAndFilter(u, t, spans)
  {
    if s != spans[0] {
      LongMatchesAreKept(u, t, spans[1..], s);
    }
  }

  /** A string is a token of the text exactly when it is long enough and is
      the lower-cased text of some match of the pattern. */
  lemma TokenIff(u: UnicodeRules, text: string, w: string)
    requires Wellformed(u)
    ensures w in ExtractWords(u, text) <==>
      LongEnough(w) &&
      exists p: nat, q: nat :: IsMatch(u, text, p, q) && q <= |text| && w == u.toLowerCase(text[p..q])
  {
    var spans := Scan(u, text, 0);
    if w in ExtractWords(u, text) {
      TokensComeFromMatches(u, text, spans, w);
      var s :| s in spans && w == u.toLowerCase(text[s.start..s.end]);
      ScanFindsAllMatches(u, text, 0, s.start, s.end);
    }
    if LongEnough(w) && exists p: nat, q: nat :: IsMatch(u, text, p, q) && q <= |text| && w == u.toLowerCase(text[p..q]) {
      var p: nat, q: nat :| IsMatch(u, text, p, q) && q <= |text| && w == u.toLowerCase(text[p..q]);
      ScanFindsAllMatches(u, text, 0, p, q);
      LongMatchesAreKept(u, text, spans, Span(p, q));
    }
  }

  /** A text without letters or marks (the empty text among them) has no
      tokens. */
  lemma NoLettersNoTokens(u: UnicodeRules, text: string)
    requires forall k :: 0 <= k < |text| ==> text[k] !in u.lettersAndMarks
    ensures ExtractWords(u, text) == []
  {
    NoLettersNoMatches(u, text, 0);
  }

  lemma {:induction false} NoLettersNoMatches(u: UnicodeRules, t: string, from: nat)
    requires from <= |t|
    requires forall k :: 0 <= k < |t| ==> t[k] !in u.lettersAndMarks
    ensures Scan(u, t, from) == []
    decreases |t| - from
  {
    if from < |t| {
      assert RunEnd(u, t, from) == from;
      NoLettersNoMatches(u, t, from + 1);
    }
  }

  // ---------------------------------------------------------------------
  // Composition: the tokens of a text split at a non-word character
  // ---------------------------------------------------------------------

  function ShiftSpan(s: Span, offset: nat): Span
  {
    Span(s.start + offset, s.end + offset)
  }

  function Shift(spans: seq<Span>, offset: nat): (r: seq<Span>)
    ensures |r| == |spans|
  {
    if spans == [] then [] else [ShiftSpan(spans[0], offset)] + Shift(spans[1..], offset)
  }

  /** Run ends agree between a text and its extension by a non-letter. */
  lemma {:induction false} RunEndPrefix(u: UnicodeRules, a: string, t: string, p: nat)
    requires |a| < |t| && a == t[..|a|] && t[|a|] !in u.lettersAndMarks
    requires p <= |a|
    ensures RunEnd(u, t, p) == RunEnd(u, a, p)
    decreases |a| - p
  {
    if p < |a| && a[p] in u.lettersAndMarks {
      RunEndPrefix(u, a, t, p + 1);
    }
  }

  lemma {:induction false} RunEndSuffix(u: UnicodeRules, t: string, b: string, off: nat, k: nat)
    requires off + |b| == |t| && b == t[off..]
    requires k <= |b|
    ensures RunEnd(u, t, off + k) == off + RunEnd(u, b, k)
    decreases |b| - k
  {
    if k < |b| && b[k] in u.lettersAndMarks {
      RunEndSuffix(u, t, b, off, k + 1);
    }
  }

  /** The attempt to match at a position after a non-word character is the
      attempt on the rest of the text alone. */
  lemma MatchAtSuffix(u: UnicodeRules, t: string, b: string, off: nat, k: nat)
    requires off + |b| == |t| && b == t[off..]
    requires off > 0 ==> t[off - 1] !in u.wordChars
    requires k <= |b|
    ensures MatchAt(u, t, off + k).Some? == MatchAt(u, b, k).Some?
    ensures MatchAt(u, b, k).Some? ==> MatchAt(u, t, off + k).value == off + MatchAt(u, b, k).value
  {
    var e := RunEnd(u, b, k);
    RunEndSuffix(u, t, b, off, k);
    assert IsBoundary(u, t, off + k) == IsBoundary(u, b, k) by {
      if k > 0 { assert t[off + k - 1] == b[k - 1]; }
      if k < |b| { assert t[off + k] == b[k]; }
    }
    assert IsBoundary(u, t, off + e) == IsBoundary(u, b, e) by {
      if e > 0 { assert t[off + e - 1] == b[e - 1]; }
      if e < |b| { assert t[off + e] == b[e]; }
    }
  }

  /** One step of the scan: a successful attempt emits its match and resumes
      at its end ... */
  lemma ScanMatched(u: UnicodeRules, t: string, p: nat, q: nat)
    requires p < |t| && MatchAt(u, t, p) == Some(q)
    ensures Scan(u, t, p) == [Span(p, q)] + Scan(u, t, q)
  {
  }

  /** ... and a failed one resumes at the next position. */
  lemma ScanUnmatched(u: UnicodeRules, t: string, p: nat)
    requires p < |t| && MatchAt(u, t, p).None?
    ensures Scan(u, t, p) == Scan(u, t, p + 1)
  {
  }

  lemma ShiftCons(s: Span, rest: seq<Span>, off: nat)
    ensures Shift([s] + rest, off) == [ShiftSpan(s, off)] + Shift(rest, off)
  {
    assert ([s] + rest)[1..] == rest;
  }

  /** Scanning the part of a text after a non-word character is scanning
      that part on its own. */
  lemma {:induction false} ScanSuffix(u: UnicodeRules, t: string, b: string, off: nat, k: nat)
    requires off + |b| == |t| && b == t[off..]
    requires off > 0 ==> t[off - 1] !in u.wordChars
    requires k <= |b|
    ensures Scan(u, t, off + k) == Shift(Scan(u, b, k), off)
    decreases |b| - k, 1
  {
    if k == |b| {
      assert Scan(u, b, k) == [];
    } else {
      match MatchAt(u, b, k)
      case Some(q) => ScanSuffixMatch(u, t, b, off, k, q);
      case None => ScanSuffixNoMatch(u, t, b, off, k);
    }
  }

  /** ScanSuffix when the attempt at k succeeds and ends at q. */
  lemma {:induction false} ScanSuffixMatch(u: UnicodeRules, t: string, b: string, off: nat, k: nat, q: nat)
    requires off + |b| == |t| && b == t[off..]
    requires off > 0 ==> t[off - 1] !in u.wordChars
    requires k < |b| && MatchAt(u, b, k) == Some(q)
    ensures Scan(u, t, off + k) == Shift(Scan(u, b, k), off)
    decreases |b| - k, 0
  {
    var rest := Scan(u, b, q);
    assert Scan(u, t, off + k) == [Span(off + k, off + q)] + Scan(u, t, off + q) by {
      MatchAtSuffix(u, t, b, off, k);
      ScanMatched(u, t, off + k, off + q);
    }
    assert Scan(u, b, k) == [Span(k, q)] + rest by {
      ScanMatched(u, b, k, q);
    }
    assert Scan(u, t, off + q) == Shift(rest, off) by {
      ScanSuffix(u, t, b, off, q);
    }
    assert Shift([Span(k, q)] + rest, off) == [Span(off + k, off + q)] + Shift(rest, off) by {
      ShiftCons(Span(k, q), rest, off);
    }
  }

  /** ScanSuffix when the attempt at k fails. */
  lemma {:induction false} ScanSuffixNoMatch(u: UnicodeRules, t: string, b: string, off: nat, k: nat)
    requires off + |b| == |t| && b == t[off..]
    requires off > 0 ==> t[off - 1] !in u.wordChars
    requires k < |b| && MatchAt(u, b, k).None?
    ensures Scan(u, t, off + k) == Shift(Scan(u, b, k), off)
    decreases |b| - k, 0
  {
    assert Scan(u, t, off + k) == Scan(u, t, off + k + 1) by {
      MatchAtSuffix(u, t, b, off, k);
      ScanUnmatched(u, t, off + k);
    }
    assert Scan(u, b, k) == Scan(u, b, k + 1) by {
      ScanUnmatched(u, b, k);
    }
    ScanSuffix(u, t, b, off, k + 1);
  }

  /** The attempt to match at a position before a non-word character is the
      attempt on the text up to that character alone. */
  lemma MatchAtPrefix(u: UnicodeRules, a: string, t: string, p: nat)
    requires Wellformed(u)
    requires |a| < |t| && a == t[..|a|] && t[|a|] !in u.wordChars
    requires p < |a|
    ensures MatchAt(u, t, p) == MatchAt(u, a, p)
  {
    var e := RunEnd(u, a, p);
    RunEndPrefix(u, a, t, p);
    assert IsBoundary(u, t, p) == IsBoundary(u, a, p) by {
      if p > 0 { assert t[p - 1] == a[p - 1]; }
      assert t[p] == a[p];
    }
    assert IsBoundary(u, t, e) == IsBoundary(u, a, e) by {
      if e > 0 { assert t[e - 1] == a[e - 1]; }
      if e < |a| { assert t[e] == a[e]; }
    }
  }

  /** Scanning the part of a text before a non-word character is scanning
      that part on its own, followed by the scan after it. */
  lemma {:induction false} ScanPrefix(u: UnicodeRules, a: string, t: string, from: nat)
    requires Wellformed(u)
    requires |a| < |t| && a == t[..|a|] && t[|a|] !in u.wordChars
    requires from <= |a|
    ensures Scan(u, t, from) == Scan(u, a, from) + Scan(u, t, |a| + 1)
    decreases |a| - from
  {
    if from == |a| {
      assert RunEnd(u, t, from) == from;
    } else {
      match MatchAt(u, a, from)
      case Some(q) =>
        assert Scan(u, t, from) == [Span(from, q)] + Scan(u, t, q) by {
          MatchAtPrefix(u, a, t, from);
          ScanMatched(u, t, from, q);
        }
        assert Scan(u, a, from) == [Span(from, q)] + Scan(u, a, q) by {
          ScanMatched(u, a, from, q);
        }
        ScanPrefix(u, a, t, q);
      case None =>
        assert Scan(u, t, from) == Scan(u, t, from + 1) by {
          MatchAtPrefix(u, a, t, from);
          ScanUnmatched(u, t, from);
        }
        assert Scan(u, a, from) == Scan(u, a, from + 1) by {
          ScanUnmatched(u, a, from);
        }
        ScanPrefix(u, a, t, from + 1);
    }
  }

  lemma {:induction false} LowerAndFilterPrefix(u: UnicodeRules, a: string, t: string, spans: seq<Span>)
    requires |a| <= |t| && a == t[..|a|]
    requires SpansWithin(spans, 0, |a|)
    ensures LowerAndFilter(u, t, spans) == LowerAndFilter(u, a, spans)
  {
    if spans != [] {
      assert t[spans[0].start..spans[0].end] == a[spans[0].start..spans[0].end];
      LowerAndFilterPrefix(u, a, t, spans[1..]);
    }
  }

  lemma ShiftWithin(spans: seq<Span>, off: nat, hi: nat)
    requires SpansWithin(spans, 0, hi)
    ensures SpansWithin(Shift(spans, off), 0, hi + off)
  {
  }

  lemma SliceShift(t: string, b: string, off: nat, p: nat, q: nat)
    requires off + |b| == |t| && b == t[off..]
    requires p <= q <= |b|
    ensures t[p + off..q + off] == b[p..q]
  {
  }

  lemma {:induction false} LowerAndFilterShift(u: UnicodeRules, t: string, b: string, off: nat, spans: seq<Span>)
    requires off + |b| == |t| && b == t[off..]
    requires SpansWithin(spans, 0, |b|)
    ensures SpansWithin(Shift(spans, off), 0, |t|)
    ensures LowerAndFilter(u, t, Shift(spans, off)) == LowerAndFilter(u, b, spans)
  {
    ShiftWithin(spans, off, |b|);
    if spans != [] {
      ShiftWithin(spans[1..], off, |b|);
      LowerAndFilterShift(u, t, b, off, spans[1..]);
      SliceShift(t, b, off, spans[0].start, spans[0].end);
      LowerAndFilterShiftStep(u, t, b, off, spans);
    }
  }

  /** The first match of the shifted list gives the same token as the
      first match of the original one. */
  lemma LowerAndFilterShiftStep(u: UnicodeRules, t: string, b: string, off: nat, spans: seq<Span>)
    requires spans != [] && SpansWithin(spans, 0, |b|) && off + |b| == |t|
    requires t[spans[0].start + off..spans[0].end + off] == b[spans[0].start..spans[0].end]
    requires SpansWithin(Shift(spans, off), 0, |t|)
    requires SpansWithin(Shift(spans[1..], off), 0, |t|)
    requires LowerAndFilter(u, t, Shift(spans[1..], off)) == LowerAndFilter(u, b, spans[1..])
    ensures LowerAndFilter(u, t, Shift(spans, off)) == LowerAndFilter(u, b, spans)
  {
    var shifted := Shift(spans, off);
    ShiftFirst(spans, off);
    var head := shifted[0];
    assert head.start == spans[0].start + off && head.end == spans[0].end + off;
    assert t[head.start..head.end] == b[spans[0].start..spans[0].end];
    LowerAndFilterSameHead(u, t, b, shifted, spans);
  }

  /** Two match lists whose first matches cover the same text and whose
      remaining matches give the same tokens give the same tokens. */
  lemma LowerAndFilterSameHead(u: UnicodeRules, t: string, b: string, xs: seq<Span>, ys: seq<Span>)
    requires xs != [] && ys != [] && SpansWithin(xs, 0, |t|) && SpansWithin(ys, 0, |b|)
    requires t[xs[0].start..xs[0].end] == b[ys[0].start..ys[0].end]
    requires LowerAndFilter(u, t, xs[1..]) == LowerAndFilter(u, b, ys[1..])
    ensures LowerAndFilter(u, t, xs) == LowerAndFilter(u, b, ys)
  {
  }

  lemma ShiftFirst(spans: seq<Span>, off: nat)
    requires spans != []
    ensures Shift(spans, off)[0] == ShiftSpan(spans[0], off)
    ensures Shift(spans, off)[1..] == Shift(spans[1..], off)
  {
  }

  /** Splitting a text at a non-word character splits its tokens: the
      tokens of both parts, in order, with repeats kept. */
  lemma SplitAtNonWordChar(u: UnicodeRules, a: string, c: char, b: string)
    requires Wellformed(u)
    requires c !in u.wordChars
    ensures ExtractWords(u, a + [c] + b) == ExtractWords(u, a) + ExtractWords(u, b)
  {
    var t := a + [c] + b;
    assert t[..|a|] == a && t[|a|] == c && t[|a| + 1..] == b;
    ScanPrefix(u, a, t, 0);
    ScanSuffix(u, t, b, |a| + 1, 0);
    var sa, sb := Scan(u, a, 0), Scan(u, b, 0);
    assert Scan(u, t, 0) == sa + Shift(sb, |a| + 1);
    LowerAndFilterShift(u, t, b, |a| + 1, sb);
    LowerAndFilterAppend(u, t, sa, Shift(sb, |a| + 1));
    LowerAndFilterPrefix(u, a, t, sa);
  }

  lemma {:induction false} RunEndAll(u: UnicodeRules, t: string, p: nat)
    requires p <= |t|
    requires forall k :: p <= k < |t| ==> t[k] in u.lettersAndMarks
    ensures RunEnd(u, t, p) == |t|
    decreases |t| - p
  {
    if p < |t| {
      RunEndAll(u, t, p + 1);
    }
  }

  /** A text that is one run of letters and marks is a single match. */
  lemma SingleRun(u: UnicodeRules, t: string)
    requires Wellformed(u)
    requires |t| > 0 && forall k :: 0 <= k < |t| ==> t[k] in u.lettersAndMarks
    ensures ExtractWords(u, t) ==
      (if LongEnough(u.toLowerCase(t)) then [u.toLowerCase(t)] else [])
  {
    RunEndAll(u, t, 0);
    assert t[0] in u.wordChars && t[|t| - 1] in u.wordChars;
    assert IsBoundary(u, t, 0) && IsBoundary(u, t, |t|);
    assert t[0..|t|] == t;
    assert Scan(u, t, 0) == [Span(0, |t|)];
  }

  /** In a run of letters, then a character that is not one, then text
      without letters, every run ends where the letters end. */
  lemma {:induction false} RunEndGlued(u: UnicodeRules, a: string, d: char, r: string, p: nat)
    requires forall k :: 0 <= k < |a| ==> a[k] in u.lettersAndMarks
    requires d !in u.lettersAndMarks
    requires forall k :: 0 <= k < |r| ==> r[k] !in u.lettersAndMarks
    requires p <= |a + [d] + r|
    ensures RunEnd(u, a + [d] + r, p) == if p <= |a| then |a| else p
    decreases |a| - p
  {
    var t := a + [d] + r;
    if p < |a| {
      assert t[p] == a[p];
      RunEndGlued(u, a, d, r, p + 1);
    } else if p == |a| {
      assert t[p] == d;
    } else if p < |t| {
      assert t[p] == r[p - |a| - 1];
    }
  }

  lemma {:induction false} GluedScanEmpty(u: UnicodeRules, a: string, d: char, r: string, from: nat)
    requires Wellformed(u)
    requires forall k :: 0 <= k < |a| ==> a[k] in u.lettersAndMarks
    requires d in u.wordChars && d !in u.lettersAndMarks
    requires forall k :: 0 <= k < |r| ==> r[k] !in u.lettersAndMarks
    requires from <= |a + [d] + r|
    ensures Scan(u, a + [d] + r, from) == []
    decreases |a + [d] + r| - from
  {
    var t := a + [d] + r;
    if from < |t| {
      RunEndGlued(u, a, d, r, from);
      if from < |a| {
        assert t[|a| - 1] == a[|a| - 1] && t[|a|] == d;
        assert a[|a| - 1] in u.lettersAndMarks;
        assert t[|a| - 1] in u.wordChars;
        assert !IsBoundary(u, t, |a|);
      }
      GluedScanEmpty(u, a, d, r, from + 1);
    }
  }

  /** A text that is one run of letters glued to a word character that is
      not a letter or mark (a digit, an underscore), then a tail without
      letters, has no token: `\b` does not hold between the run and the
      glue character. So "abc123" has no token. GluedRunIsNoMatch states
      the general case. */
  lemma GluedToWordCharNoToken(u: UnicodeRules, a: string, d: char, r: string)
    requires Wellformed(u)
    requires forall k :: 0 <= k < |a| ==> a[k] in u.lettersAndMarks
    requires d in u.wordChars && d !in u.lettersAndMarks
    requires forall k :: 0 <= k < |r| ==> r[k] !in u.lettersAndMarks
    ensures ExtractWords(u, a + [d] + r) == []
  {
    GluedScanEmpty(u, a, d, r, 0);
  }

  /** A run of letters and marks glued, on either side, to a word character
      that is no letter or mark (a digit, an underscore) overlaps no match
      of the pattern, wherever it stands in the text: `\b` does not hold at
      the glued end, and a match cannot stop inside the run or extend past
      it. So the run gives no token ("abc123def", "x abc1", "1abc"). */
  lemma GluedRunIsNoMatch(u: UnicodeRules, t: string, p: nat, q: nat)
    requires Wellformed(u)
    requires p <= q <= |t| && AllLettersOrMarks(u, t, p, q)
    requires || (q < |t| && t[q] in u.wordChars && t[q] !in u.lettersAndMarks)
             || (0 < p && t[p - 1] in u.wordChars && t[p - 1] !in u.lettersAndMarks)
    ensures forall s :: s in Scan(u, t, 0) ==> s.end <= p || q <= s.start
  {
    forall s | s in Scan(u, t, 0) ensures s.end <= p || q <= s.start {
      ScanFindsAllMatches(u, t, 0, s.start, s.end);
      MatchIsMaximalRun(u, t, s.start, s.end);
    }
  }
}
