/**
 * The per-document pipeline (`extractWordsFromPDF`) once the document's
 * text is in hand: tokens, statistics, base name, then both reports.
 * Reading the PDF, creating the output directory and writing the files are
 * not modelled; the outputs are returned as values.
 */
module Extractor {

  import opened Tokenizer
  import opened Statistics
  import opened FrequencyOrder
  import opened FileNames
  import TxtReport
  import opened JsonReport

  /** Everything one document produces. */
  datatype DocumentOutputs = DocumentOutputs(
    words: seq<string>,
    stats: WordStatistics,
    txtFileName: string,
    txtLines: seq<string>,
    jsonFileName: string,
    json: JsonOutput)

  /** extractWordsFromPDF, from the extracted text of the file `fileName`.
      `order` is the iteration order of the frequency map the statistics
      step builds: some enumeration of the distinct tokens. The program
      reads the clock once per report, so each report has its own rendered
      time stamp: `txtGeneratedOn` and `jsonGeneratedOn`. */
  method ExtractWordsFromPdf(
    u: UnicodeRules, text: string, fileName: string, separator: string,
    txtGeneratedOn: string, jsonGeneratedOn: string, order: seq<string>)
    returns (out: DocumentOutputs)
    requires Enumerates(order, Distinct(ExtractWords(u, text)))
    ensures out.words == ExtractWords(u, text)
    ensures IsStatisticsOf(out.stats, out.words)
    ensures out.txtFileName == TxtFileName(separator, BaseFileName(fileName))
    ensures out.jsonFileName == JsonFileName(separator, BaseFileName(fileName))
    ensures out.txtFileName != out.jsonFileName
    ensures |out.txtLines| == 11 + |out.words| + out.stats.uniqueWordCount
    ensures TxtReport.IsReportOf(out.txtLines, out.words, out.stats, txtGeneratedOn, order)
    ensures out.json == BuildJsonOutput(out.words, out.stats, BaseFileName(fileName), jsonGeneratedOn)
    ensures out.json.metadata.totalWords == |out.json.words|
    ensures SumOfCounts(out.json.wordFrequency) == out.json.metadata.totalWords
  {
    var words := ExtractWords(u, text);
    var stats := GenerateStatistics(words);
    var baseFileName := BaseFileName(fileName);
    var txtFileName, txtLines := TxtReport.GenerateTxtOutput(words, stats, baseFileName, separator, txtGeneratedOn, order);
    var json := BuildJsonOutput(words, stats, baseFileName, jsonGeneratedOn);
    EnumerationSize(order, stats.wordFrequency.Keys);
    TxtAndJsonNamesDiffer(separator, baseFileName, baseFileName);
    JsonOutputConsistent(words, stats, fileName, jsonGeneratedOn);
    out := DocumentOutputs(words, stats, txtFileName, txtLines, JsonFileName(separator, baseFileName), json);
  }
}
