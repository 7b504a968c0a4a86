/**
 * The frequency aggregator: `generateStatistics` and the `WordStatistics`
 * record it returns. A hash map from token to count is filled in a loop
 * over the token list; the record holds the list's length, the number of
 * distinct tokens and the map.
 */
module Statistics {

  /** WordStatistics: total number of tokens, number of distinct tokens and
      the count of each distinct token. */
  datatype WordStatistics = WordStatistics(
    totalWordCount: int,
    uniqueWordCount: int,
    wordFrequency: map<string, int>)

  /** The distinct tokens of a list. */
  function Distinct(words: seq<string>): set<string>
  {
    set w | w in words
  }

  /** What the statistics of a token list are: the length of the list, one
      key per distinct token, each mapped to its number of occurrences, and
      the number of keys. */
  ghost predicate IsStatisticsOf(stats: WordStatistics, words: seq<string>)
  {
    && stats.totalWordCount == |words|
    && stats.wordFrequency.Keys == Distinct(words)
    && (forall w :: w in stats.wordFrequency ==> stats.wordFrequency[w] == multiset(words)[w])
    && stats.uniqueWordCount == |stats.wordFrequency|
  }

  /** `Map.getOrDefault`. */
  function GetOrDefault(m: map<string, int>, key: string, default: int): int
  {
    if key in m then m[key] else default
  }

  /** generateStatistics: count the occurrences of every token. */
  method GenerateStatistics(words: seq<string>) returns (stats: WordStatistics)
    ensures IsStatisticsOf(stats, words)
    ensures forall w :: w in stats.wordFrequency ==> stats.wordFrequency[w] >= 1
    ensures SumOfCounts(stats.wordFrequency) == stats.totalWordCount
  {
    var wordFrequency: map<string, int> := map[];
    for i := 0 to |words|
      invariant wordFrequency.Keys == Distinct(words[..i])
      invariant forall w :: w in wordFrequency ==> wordFrequency[w] == multiset(words[..i])[w]
    {
      var word := words[i];
      assert words[..i + 1] == words[..i] + [word];
      wordFrequency := wordFrequency[word := GetOrDefault(wordFrequency, word, 0) + 1];
    }
    assert words[..|words|] == words;
    stats := WordStatistics(|words|, |wordFrequency|, wordFrequency);
    SumOfCountsIsTotal(stats, words);
  }

  /** The sum of all counts in a frequency map. */
  ghost function SumOfCounts(m: map<string, int>): int
    decreases |m|
  {
    if m == map[] then 0
    else
      var k :| k in m;
      assert m.Keys == (m - {k}).Keys + {k};
      m[k] + SumOfCounts(m - {k})
  }

  /** The sum does not depend on which key is taken out first. */
  lemma {:induction false} SumOfCountsRemove(m: map<string, int>, k: string)
    requires k in m
    ensures SumOfCounts(m) == m[k] + SumOfCounts(m - {k})
    decreases |m|
  {
    var j :| j in m && SumOfCounts(m) == m[j] + SumOfCounts(m - {j});
    if j != k {
      assert (m - {j}).Keys == m.Keys - {j};
      assert (m - {k}).Keys == m.Keys - {k};
      assert |m - {j}| < |m|;
      assert |m - {k}| < |m|;
      SumOfCountsRemove(m - {j}, k);
      SumOfCountsRemove(m - {k}, j);
      assert (m - {j}) - {k} == (m - {k}) - {j};
    }
  }

  /** Counting one more occurrence of a token adds one to the sum. */
  lemma SumOfCountsIncrement(m: map<string, int>, k: string)
    ensures SumOfCounts(m[k := GetOrDefault(m, k, 0) + 1]) == SumOfCounts(m) + 1
  {
    var m' := m[k := GetOrDefault(m, k, 0) + 1];
    SumOfCountsRemove(m', k);
    if k in m {
      SumOfCountsRemove(m, k);
      assert m' - {k} == m - {k};
    } else {
      assert m' - {k} == m;
    }
  }

  /** The frequency map of a token list, as the statistics describe it. */
  ghost function FrequencyOf(words: seq<string>): (m: map<string, int>)
    ensures IsStatisticsOf(WordStatistics(|words|, |m|, m), words)
  {
    map w | w in Distinct(words) :: multiset(words)[w]
  }

  /** Appending a token counts one more occurrence of it. */
  lemma FrequencyOfAppend(prefix: seq<string>, last: string)
    ensures FrequencyOf(prefix + [last]) ==
      FrequencyOf(prefix)[last := GetOrDefault(FrequencyOf(prefix), last, 0) + 1]
  {
    var words := prefix + [last];
    var before := FrequencyOf(prefix);
    var after := before[last := GetOrDefault(before, last, 0) + 1];
    DistinctAppend(prefix, last);
    forall w | w in after ensures FrequencyOf(words)[w] == after[w] {
      CountAppend(prefix, last, w);
    }
  }

  lemma DistinctAppend(prefix: seq<string>, last: string)
    ensures Distinct(prefix + [last]) == Distinct(prefix) + {last}
  {
  }

  lemma CountAppend(prefix: seq<string>, last: string, w: string)
    ensures multiset(prefix + [last])[w] == multiset(prefix)[w] + if w == last then 1 else 0
  {
    assert multiset(prefix + [last]) == multiset(prefix) + multiset{last};
  }

  /** The counts of a token list add up to its length. */
  lemma SumOfCountsIsTotal(stats: WordStatistics, words: seq<string>)
    requires IsStatisticsOf(stats, words)
    ensures SumOfCounts(stats.wordFrequency) == stats.totalWordCount
  {
    var m := FrequencyOf(words);
    StatisticsDetermined(stats, WordStatistics(|words|, |m|, m), words);
    SumOfFrequency(words);
  }

  lemma {:induction false} SumOfFrequency(words: seq<string>)
    ensures SumOfCounts(FrequencyOf(words)) == |words|
  {
    if words == [] {
      assert FrequencyOf(words) == map[];
    } else {
      var prefix, last := words[..|words| - 1], words[|words| - 1];
      assert words == prefix + [last];
      SumOfFrequency(prefix);
      SumOfFrequencyAppend(prefix, last);
    }
  }

  lemma SumOfFrequencyAppend(prefix: seq<string>, last: string)
    requires SumOfCounts(FrequencyOf(prefix)) == |prefix|
    ensures SumOfCounts(FrequencyOf(prefix + [last])) == |prefix| + 1
  {
    FrequencyOfAppend(prefix, last);
    SumOfCountsStep(FrequencyOf(prefix), FrequencyOf(prefix + [last]), last, |prefix|);
  }

  lemma SumOfCountsStep(before: map<string, int>, after: map<string, int>, last: string, n: int)
    requires after == before[last := GetOrDefault(before, last, 0) + 1]
    requires SumOfCounts(before) == n
    ensures SumOfCounts(after) == n + 1
  {
    SumOfCountsIncrement(before, last);
  }

  /** The statistics of a token list are determined by the list: running
      the aggregator twice on the same tokens gives the same result. */
  lemma StatisticsDetermined(s1: WordStatistics, s2: WordStatistics, words: seq<string>)
    requires IsStatisticsOf(s1, words) && IsStatisticsOf(s2, words)
    ensures s1 == s2
  {
    assert s1.wordFrequency == s2.wordFrequency;
  }

  /** An empty token list has empty statistics. */
  lemma EmptyStatistics(stats: WordStatistics)
    requires IsStatisticsOf(stats, [])
    ensures stats == WordStatistics(0, 0, map[])
  {
    assert stats.wordFrequency.Keys == {};
  }

  /** When every token is distinct, every count is 1 and the number of
      distinct tokens is the number of tokens. */
  lemma {:induction false} AllDistinct(stats: WordStatistics, words: seq<string>)
    requires IsStatisticsOf(stats, words)
    requires forall i, j :: 0 <= i < j < |words| ==> words[i] != words[j]
    ensures forall w :: w in stats.wordFrequency ==> stats.wordFrequency[w] == 1
    ensures stats.uniqueWordCount == stats.totalWordCount
  {
    forall w | w in stats.wordFrequency
      ensures stats.wordFrequency[w] == 1
    {
      DistinctOccursOnce(words, w);
    }
    DistinctSize(words);
  }

  lemma {:induction false} DistinctOccursOnce(words: seq<string>, w: string)
    requires forall i, j :: 0 <= i < j < |words| ==> words[i] != words[j]
    requires w in words
    ensures multiset(words)[w] == 1
  {
    if words[0] == w {
      assert words == [w] + words[1..];
      assert w !in words[1..] by {
        forall k | 0 <= k < |words[1..]| ensures words[1..][k] != w {
          assert words[1..][k] == words[k + 1];
        }
      }
    } else {
      assert words == [words[0]] + words[1..];
      DistinctOccursOnce(words[1..], w);
    }
  }

  lemma {:induction false} DistinctSize(words: seq<string>)
    requires forall i, j :: 0 <= i < j < |words| ==> words[i] != words[j]
    ensures |Distinct(words)| == |words|
  {
    if words != [] {
      var rest := words[1..];
      assert words == [words[0]] + rest;
      assert Distinct(words) == Distinct(rest) + {words[0]};
      assert words[0] !in Distinct(rest) by {
        forall k | 0 <= k < |rest| ensures rest[k] != words[0] {
          assert rest[k] == words[k + 1];
        }
      }
      DistinctSize(rest);
    }
  }
}
