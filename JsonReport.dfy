/**
 * The structured report (`generateJsonOutput`) as the value handed to the
 * JSON serializer: the metadata, the token list and the frequency map.
 * Serialization and writing the file are not modelled.
 */
module JsonReport {

  import opened Statistics
  import opened FileNames

  /** The `metadata` object. */
  datatype Metadata = Metadata(
    totalWords: int,
    uniqueWords: int,
    generatedOn: string,
    sourceFile: string,
    encoding: string)

  /** The top-level object: `metadata`, `words`, `wordFrequency`. */
  datatype JsonOutput = JsonOutput(
    metadata: Metadata,
    words: seq<string>,
    wordFrequency: map<string, int>)

  const Encoding := "UTF-8"

  /** The object built by generateJsonOutput. */
  function BuildJsonOutput(words: seq<string>, stats: WordStatistics, baseFileName: string, generatedOn: string): (j: JsonOutput)
  {
    JsonOutput(
      Metadata(stats.totalWordCount, stats.uniqueWordCount, generatedOn, SourceFileName(baseFileName), Encoding),
      words,
      stats.wordFrequency)
  }

  /** When the statistics are those of the token list, the payload agrees
      with itself: the totals are the list's length and the map's size, the
      map counts the list exactly, its counts add up to the total, and the
      source file names the input whenever that ends in ".pdf". */
  lemma JsonOutputConsistent(words: seq<string>, stats: WordStatistics, fileName: string, generatedOn: string)
    requires IsStatisticsOf(stats, words)
    ensures var j := BuildJsonOutput(words, stats, BaseFileName(fileName), generatedOn);
      && j.metadata.totalWords == |j.words|
      && j.metadata.uniqueWords == |j.wordFrequency|
      && j.wordFrequency.Keys == Distinct(j.words)
      && (forall w :: w in j.wordFrequency ==> j.wordFrequency[w] == multiset(j.words)[w])
      && SumOfCounts(j.wordFrequency) == j.metadata.totalWords
      && j.metadata.encoding == "UTF-8"
      && (|fileName| >= 5 && fileName[|fileName| - 4..] == ".pdf" ==> j.metadata.sourceFile == fileName)
  {
    SumOfCountsIsTotal(stats, words);
    SourceFileNameIff(fileName);
  }
}
