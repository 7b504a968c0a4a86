/**
 * The plain-text report (`generateTxtOutput`) as the sequence of lines it
 * writes: a banner, the summary, every token numbered from 1 in text order,
 * and the frequency section. Opening and writing the file is not modelled;
 * each element is one `println`/`printf` line without its line separator.
 */
module TxtReport {

  import opened Wrappers
  import opened Strings
  import opened Statistics
  import opened FrequencyOrder
  import opened FileNames

  const Title := "PDF Word Extraction Results"
  const TitleRule := "==========================="
  const WordsTitle := "All Words (in order of appearance):"
  const WordsRule := "-----------------------------------"
  const FrequencyTitle := "Word Frequency (sorted by frequency):"
  const FrequencyRule := "------------------------------------"
  const TotalLabel := "Total words: "
  const UniqueLabel := "Unique words: "
  const StampLabel := "Generated on: "

  /** The eight lines before the numbered listing. */
  function Header(totalWordCount: int, uniqueWordCount: int, generatedOn: string): (lines: seq<string>)
  {
    [ Title,
      TitleRule,
      TotalLabel + FormatInt(totalWordCount),
      UniqueLabel + FormatInt(uniqueWordCount),
      StampLabel + generatedOn,
      "",
      WordsTitle,
      WordsRule ]
  }

  /** The summary lines of the header read back to the two counts, and the
      time-stamp line to the stamp, whatever their values. */
  lemma HeaderReadsBack(totalWordCount: int, uniqueWordCount: int, generatedOn: string)
    ensures var h := Header(totalWordCount, uniqueWordCount, generatedOn);
      && |h| == 8
      && |TotalLabel| <= |h[2]| && ParseInt(h[2][|TotalLabel|..]) == Some(totalWordCount)
      && |UniqueLabel| <= |h[3]| && ParseInt(h[3][|UniqueLabel|..]) == Some(uniqueWordCount)
      && |StampLabel| <= |h[4]| && h[4][|StampLabel|..] == generatedOn
  {
    var h := Header(totalWordCount, uniqueWordCount, generatedOn);
    assert h[2] == TotalLabel + FormatInt(totalWordCount);
    assert h[3] == UniqueLabel + FormatInt(uniqueWordCount);
    assert h[4] == StampLabel + generatedOn;
    LabelledCountReadsBack(TotalLabel, totalWordCount);
    LabelledCountReadsBack(UniqueLabel, uniqueWordCount);
    assert (StampLabel + generatedOn)[|StampLabel|..] == generatedOn;
  }

  /** A count written after a label reads back after the label. */
  lemma LabelledCountReadsBack(prefix: string, n: int)
    ensures ParseInt((prefix + FormatInt(n))[|prefix|..]) == Some(n)
  {
    assert (prefix + FormatInt(n))[|prefix|..] == FormatInt(n);
    ParseFormatInt(n);
  }

  /** `printf("%d. %s%n", i + 1, words.get(i))`. */
  function NumberedLine(number: int, word: string): string
  {
    FormatInt(number) + ". " + word
  }

  /** `printf("%s: %d%n", key, value)`. */
  function FrequencyLine(e: Entry): string
  {
    e.word + ": " + FormatInt(e.count)
  }

  /** Read a numbered line back: the number before the first '.', then a
      space, then the token. */
  function ParseNumberedLine(line: string): (r: Option<(int, string)>)
  {
    var dot := IndexOf(line, '.');
    if dot < 0 || dot + 1 >= |line| || line[dot + 1] != ' ' then None
    else match ParseInt(line[..dot])
      case Some(n) => Some((n, line[dot + 2..]))
      case None => None
  }

  /** Read a frequency line back: the token before the last ':', then a
      space, then the count. */
  function ParseFrequencyLine(line: string): (r: Option<Entry>)
  {
    var colon := LastIndexOf(line, ':');
    if colon < 0 || colon + 1 >= |line| || line[colon + 1] != ' ' then None
    else match ParseInt(line[colon + 2..])
      case Some(n) => Some(Entry(line[..colon], n))
      case None => None
  }

  /** A numbered line gives back its number and its token, whatever
      characters the token holds. */
  lemma ParseNumberedLineRoundTrip(number: int, word: string)
    ensures ParseNumberedLine(NumberedLine(number, word)) == Some((number, word))
  {
    var digits := FormatInt(number);
    var line := NumberedLine(number, word);
    assert line == digits + ['.'] + ([' '] + word);
    FormatIntChars(number, '.');
    IndexOfSplit(digits, '.', [' '] + word);
    assert line[..|digits|] == digits;
    assert line[|digits| + 2..] == word;
    ParseFormatInt(number);
  }

  /** A frequency line gives back its entry, whatever characters the token
      holds. */
  lemma ParseFrequencyLineRoundTrip(e: Entry)
    ensures ParseFrequencyLine(FrequencyLine(e)) == Some(e)
  {
    var digits := FormatInt(e.count);
    var line := FrequencyLine(e);
    assert line == e.word + [':'] + ([' '] + digits);
    FormatIntChars(e.count, ':');
    LastIndexOfSplit(e.word, ':', [' '] + digits);
    assert line[..|e.word|] == e.word;
    assert line[|e.word| + 2..] == digits;
    ParseFormatInt(e.count);
  }

  /** The numbered listing: line i is the (i+1)-th token, numbered i + 1. */
  method NumberedListing(words: seq<string>) returns (lines: seq<string>)
    ensures |lines| == |words|
    ensures forall i :: 0 <= i < |words| ==> lines[i] == NumberedLine(i + 1, words[i])
  {
    lines := [];
    for i := 0 to |words|
      invariant |lines| == i
      invariant forall j :: 0 <= j < i ==> lines[j] == NumberedLine(j + 1, words[j])
    {
      lines := lines + [NumberedLine(i + 1, words[i])];
    }
  }

  /** Reading the numbered listing back gives every token, at its place and
      with its number: the listing loses nothing and reorders nothing. */
  lemma NumberedListingRecoversWords(words: seq<string>, lines: seq<string>)
    requires |lines| == |words|
    requires forall i :: 0 <= i < |words| ==> lines[i] == NumberedLine(i + 1, words[i])
    ensures forall i :: 0 <= i < |lines| ==> ParseNumberedLine(lines[i]) == Some((i + 1, words[i]))
  {
    forall i | 0 <= i < |lines| ensures ParseNumberedLine(lines[i]) == Some((i + 1, words[i])) {
      ParseNumberedLineRoundTrip(i + 1, words[i]);
    }
  }

  function FrequencyLines(listing: seq<Entry>): (lines: seq<string>)
    ensures |lines| == |listing|
    ensures forall i :: 0 <= i < |listing| ==> lines[i] == FrequencyLine(listing[i])
  {
    if listing == [] then [] else [FrequencyLine(listing[0])] + FrequencyLines(listing[1..])
  }

  /** generateTxtOutput: the report's file name and lines. `separator` is
      the platform's file separator, `generatedOn` the rendered time stamp,
      `order` the frequency map's iteration order. */
  method GenerateTxtOutput(
    words: seq<string>, stats: WordStatistics, baseFileName: string,
    separator: string, generatedOn: string, order: seq<string>)
    returns (fileName: string, lines: seq<string>)
    requires Enumerates(order, stats.wordFrequency.Keys)
    ensures fileName == TxtFileName(separator, baseFileName)
    ensures IsReportOf(lines, words, stats, generatedOn, order)
  {
    fileName := TxtFileName(separator, baseFileName);
    var header := Header(stats.totalWordCount, stats.uniqueWordCount, generatedOn);
    var numbered := NumberedListing(words);
    var frequencies := FrequencyLines(FrequencyListing(stats.wordFrequency, order));
    FrequencyListingLength(stats.wordFrequency, order);
    var tail := ["", FrequencyTitle, FrequencyRule] + frequencies;
    lines := header + numbered + tail;
    ThreeSections(header, numbered, tail);
    assert tail[..3] == ["", FrequencyTitle, FrequencyRule] && tail[3..] == frequencies;
    forall i | 0 <= i < |words| ensures lines[8 + i] == NumberedLine(i + 1, words[i]) {
      InMiddleSection(header, numbered, tail, i);
    }
  }

  /** The layout of a text report of `words`: the header, one numbered
      line per token in text order, the frequency section's blank line,
      title and rule, and one line per entry of the frequency listing. */
  ghost predicate IsReportOf(
    lines: seq<string>, words: seq<string>, stats: WordStatistics,
    generatedOn: string, order: seq<string>)
    requires Enumerates(order, stats.wordFrequency.Keys)
  {
    && |lines| == 11 + |words| + |order|
    && lines[..8] == Header(stats.totalWordCount, stats.uniqueWordCount, generatedOn)
    && (forall i :: 0 <= i < |words| ==> lines[8 + i] == NumberedLine(i + 1, words[i]))
    && lines[8 + |words|..11 + |words|] == ["", FrequencyTitle, FrequencyRule]
    && lines[11 + |words|..] == FrequencyLines(FrequencyListing(stats.wordFrequency, order))
  }

  /** The first and the last of three consecutive sections. */
  lemma ThreeSections(a: seq<string>, b: seq<string>, c: seq<string>)
    ensures (a + b + c)[..|a|] == a
    ensures (a + b + c)[|a| + |b|..] == c
  {
  }

  /** An element of the middle one of three consecutive sections. */
  lemma InMiddleSection(a: seq<string>, b: seq<string>, c: seq<string>, i: nat)
    requires i < |b|
    ensures (a + b + c)[|a| + i] == b[i]
  {
  }

  /** A line of the frequency section reads back to its token and the
      token's number of occurrences. */
  lemma FrequencyLineReadsBack(stats: WordStatistics, words: seq<string>, listing: seq<Entry>, i: nat)
    requires IsStatisticsOf(stats, words)
    requires i < |listing|
    requires listing[i].word in stats.wordFrequency
    requires listing[i].count == stats.wordFrequency[listing[i].word]
    ensures ParseFrequencyLine(FrequencyLines(listing)[i]) == Some(Entry(listing[i].word, multiset(words)[listing[i].word]))
  {
    ParseFrequencyLineRoundTrip(listing[i]);
  }

  /** The frequency section of the report lists each distinct token once,
      with its count, highest counts first, and reads back to those
      entries. */
  lemma FrequencySectionFaithful(stats: WordStatistics, words: seq<string>, order: seq<string>)
    requires IsStatisticsOf(stats, words)
    requires Enumerates(order, stats.wordFrequency.Keys)
    ensures |FrequencyLines(FrequencyListing(stats.wordFrequency, order))| == stats.uniqueWordCount
    ensures forall i :: 0 <= i < |FrequencyListing(stats.wordFrequency, order)| ==>
      ParseFrequencyLine(FrequencyLines(FrequencyListing(stats.wordFrequency, order))[i]) ==
        Some(Entry(FrequencyListing(stats.wordFrequency, order)[i].word,
                   multiset(words)[FrequencyListing(stats.wordFrequency, order)[i].word]))
    ensures forall w :: w in words ==>
      exists i :: 0 <= i < |FrequencyListing(stats.wordFrequency, order)| &&
        FrequencyListing(stats.wordFrequency, order)[i].word == w
    ensures DistinctWords(FrequencyListing(stats.wordFrequency, order))
    ensures NonIncreasing(FrequencyListing(stats.wordFrequency, order))
  {
    var listing := FrequencyListing(stats.wordFrequency, order);
    FrequencyListingIsSortedPermutation(stats.wordFrequency, order);
    forall i | 0 <= i < |listing|
      ensures ParseFrequencyLine(FrequencyLines(listing)[i]) == Some(Entry(listing[i].word, multiset(words)[listing[i].word]))
    {
      FrequencyLineReadsBack(stats, words, listing, i);
    }
    forall w | w in words
      ensures exists i :: 0 <= i < |listing| && listing[i].word == w
    {
      assert w in Distinct(words);
    }
  }
}
