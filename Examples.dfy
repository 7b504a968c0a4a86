/**
 * The pipeline on concrete inputs, with ASCII stand-ins for the Unicode
 * rules: letters are A-Z and a-z, word characters add the digits and '_',
 * and lower-casing maps A-Z to a-z. Each example is derived from the
 * general lemmas rather than by unfolding the scanner.
 */
module Examples {

  import opened Tokenizer
  import opened Statistics
  import opened FrequencyOrder

  predicate IsAsciiLetter(c: char)
  {
    'a' <= c <= 'z' || 'A' <= c <= 'Z'
  }

  function AsciiLower(s: string): (r: string)
    ensures |r| == |s|
  {
    seq(|s|, i requires 0 <= i < |s| => if 'A' <= s[i] <= 'Z' then (s[i] as int + 32) as char else s[i])
  }

  const AsciiLetters: iset<char> := iset c | IsAsciiLetter(c)
  const AsciiWordChars: iset<char> := iset c | IsAsciiLetter(c) || '0' <= c <= '9' || c == '_'

  const Ascii := UnicodeRules(AsciiLetters, AsciiWordChars, s => AsciiLower(s))

  lemma AsciiWellformed()
    ensures Wellformed(Ascii)
  {
  }

  lemma AsciiNoLetters(t: string)
    requires forall k :: 0 <= k < |t| ==> !IsAsciiLetter(t[k])
    ensures ExtractWords(Ascii, t) == []
  {
    NoLettersNoTokens(Ascii, t);
  }

  lemma AsciiWord(t: string)
    requires |t| > 0 && forall k :: 0 <= k < |t| ==> IsAsciiLetter(t[k])
    ensures ExtractWords(Ascii, t) == if |t| >= 2 then [AsciiLower(t)] else []
  {
    AsciiWellformed();
    SingleRun(Ascii, t);
    LongEnoughIff(AsciiLower(t));
  }

  /** "Hello, world! 123": punctuation and digits split and vanish, the
      words come out lower-cased. */
  lemma HelloWorld(t: string)
    requires t == "Hello, world! 123"
    ensures ExtractWords(Ascii, t) == ["hello", "world"]
  {
    var hello, rest := t[..5], t[6..];
    assert t == hello + [t[5]] + rest;
    assert AsciiLower(hello) == "hello";
    AsciiWord(hello);
    WorldTail(rest);
    AsciiWellformed();
    SplitAtNonWordChar(Ascii, hello, t[5], rest);
  }

  lemma WorldTail(t: string)
    requires t == " world! 123"
    ensures ExtractWords(Ascii, t) == ["world"]
  {
    assert t == [] + [t[0]] + ("world" + ['!'] + " 123");
    AsciiNoLetters([]);
    WorldThenDigits("world", " 123");
    AsciiWellformed();
    SplitAtNonWordChar(Ascii, [], t[0], "world" + ['!'] + " 123");
  }

  lemma WorldThenDigits(world: string, tail: string)
    requires world == "world" && tail == " 123"
    ensures ExtractWords(Ascii, world + ['!'] + tail) == ["world"]
  {
    assert AsciiLower(world) == "world";
    AsciiWord(world);
    AsciiNoLetters(tail);
    AsciiWellformed();
    SplitAtNonWordChar(Ascii, world, '!', tail);
  }

  /** "a bb ccc": the one-letter word is dropped. */
  lemma ShortWordDropped(t: string)
    requires t == "a bb ccc"
    ensures ExtractWords(Ascii, t) == ["bb", "ccc"]
  {
    var a, rest := t[..1], t[2..];
    assert t == a + [t[1]] + rest;
    AsciiWord(a);
    TwoLongWords(rest);
    AsciiWellformed();
    SplitAtNonWordChar(Ascii, a, t[1], rest);
  }

  lemma TwoLongWords(t: string)
    requires t == "bb ccc"
    ensures ExtractWords(Ascii, t) == ["bb", "ccc"]
  {
    var bb, ccc := t[..2], t[3..];
    assert t == bb + [t[2]] + ccc;
    assert AsciiLower(bb) == "bb";
    assert AsciiLower(ccc) == "ccc";
    AsciiWord(bb);
    AsciiWord(ccc);
    AsciiWellformed();
    SplitAtNonWordChar(Ascii, bb, t[2], ccc);
  }

  /** "abc123 de": letters glued to digits are no word at all. */
  lemma GluedToDigits(t: string)
    requires t == "abc123 de"
    ensures ExtractWords(Ascii, t) == ["de"]
  {
    var glued, de := t[..6], t[7..];
    var abc, digits := glued[..3], glued[4..];
    assert t == glued + [t[6]] + de;
    assert glued == abc + [glued[3]] + digits;
    AsciiWellformed();
    SplitAtNonWordChar(Ascii, glued, t[6], de);
    GluedToWordCharNoToken(Ascii, abc, glued[3], digits);
    AsciiWord(de);
    assert AsciiLower(de) == "de";
  }

  /** Counting ["a","b","a","c","b","a"] gives a:3, b:2, c:1. */
  lemma AggregationExample(words: seq<string>, stats: WordStatistics)
    requires words == ["a", "b", "a", "c", "b", "a"]
    requires IsStatisticsOf(stats, words)
    ensures stats == WordStatistics(6, 3, map["a" := 3, "b" := 2, "c" := 1])
  {
    var expected := WordStatistics(6, 3, map["a" := 3, "b" := 2, "c" := 1]);
    ExampleCounts(words);
    assert IsStatisticsOf(expected, words);
    StatisticsDetermined(stats, expected, words);
  }

  lemma ExampleCounts(words: seq<string>)
    requires words == ["a", "b", "a", "c", "b", "a"]
    ensures Distinct(words) == {"a", "b", "c"}
    ensures multiset(words)["a"] == 3 && multiset(words)["b"] == 2 && multiset(words)["c"] == 1
  {
    var a, b, c := words[0], words[1], words[3];
    assert words == [a, b, a, c, b, a];
    assert multiset(words) == multiset{a, a, a, b, b, c};
  }

  /** Whatever the map's iteration order, the frequency section of that
      example reads a, b, c. */
  lemma FrequencyExample(order: seq<string>)
    requires Enumerates(order, {"a", "b", "c"})
    ensures FrequencyListing(map["a" := 3, "b" := 2, "c" := 1], order) ==
      [Entry("a", 3), Entry("b", 2), Entry("c", 1)]
  {
    var m := map["a" := 3, "b" := 2, "c" := 1];
    assert m.Keys == {"a", "b", "c"};
    FrequencyListingIsSortedPermutation(m, order);
    assert |m| == 3;
    ExampleListing(m, FrequencyListing(m, order));
  }

  /** The only listing of that map with one entry per key, each with its
      count, no token twice and counts non-increasing. */
  lemma ExampleListing(m: map<string, int>, l: seq<Entry>)
    requires m == map["a" := 3, "b" := 2, "c" := 1]
    requires |l| == 3
    requires forall i :: 0 <= i < |l| ==> l[i].word in m && l[i].count == m[l[i].word]
    requires DistinctWords(l) && NonIncreasing(l)
    ensures l == [Entry("a", 3), Entry("b", 2), Entry("c", 1)]
  {
    assert l[0].count >= l[1].count >= l[2].count;
    assert l[0].word != l[1].word && l[1].word != l[2].word && l[0].word != l[2].word;
    assert l[0].word == "a";
    assert l[1].word == "b";
    assert l[2].word == "c";
  }
}
