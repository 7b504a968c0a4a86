# PDF word extractor: a Dafny model of the pipeline after text extraction

The extractor reads a PDF, turns it into a string and then does four things
with that string:

- it cuts the string into lower-cased tokens with the pattern
  `\b[\p{L}\p{M}]+\b`;
- it counts the tokens in a hash map;
- it writes a plain-text report and a JSON report;
- it names both reports after the input file.

This project models everything after the string is in hand. It proves what
each step guarantees.

- **Tokenizer** (`Tokenizer.dfy`).
  - The pattern is stated declaratively (`IsMatch`). It is also modelled as
    the left-to-right scan that `Matcher.results()` performs (`Scan`). After
    a match, the search resumes at its end; after a failed attempt, at the
    next position.
  - Each match is lower-cased. Results of at most one UTF-16 unit are
    dropped.
  - The Unicode tables and the platform's lower-casing are not modelled.
    They are the fields of a `UnicodeRules` value that every operation takes.
    The letter/mark class and the word-character class behind `\b` are kept
    separate: under `UNICODE_CHARACTER_CLASS`, `\w` also holds digits and
    `_`. So a letter run glued to a digit (`abc123`) is not a match.
- **Statistics** (`Statistics.dfy`). `generateStatistics` is a method that
  fills a `map<string, int>` in a loop. The loop invariant says the map
  counts the tokens processed so far. `IsStatisticsOf` states what a
  `WordStatistics` record must be for a token list.
- **Frequency order** (`FrequencyOrder.dfy`).
  - The hash map's iteration order is a parameter: any enumeration of its
    keys.
  - `.sorted(comparingByValue().reversed())` sorts by count, highest first. The
    entry-set stream of a hash map is unordered, so the sort is modelled as
    a stable sort over the given iteration order.
  - Whatever the enumeration, the section lists every distinct token once,
    with its count, in non-increasing order of count.
- **Reports** (`TxtReport.dfy`, `JsonReport.dfy`).
  - The plain-text report is the sequence of lines it prints. The banner,
    summary and section titles are constants.
  - The numbered listing is a loop.
  - Numbered lines and frequency lines read back to what they print.
  - The JSON report is the record handed to the serializer.
- **File names** (`FileNames.dfy`, `Strings.dfy`). `getBaseFileName`,
  `lastIndexOf`, the two output file names and the `sourceFile` field.
- **Pipeline** (`Extractor.dfy`). `extractWordsFromPDF` from the extracted
  text to both outputs.
- **Examples** (`Examples.dfy`). The pipeline on concrete inputs, with ASCII
  stand-ins for the Unicode rules.

Three behaviours of the code are easy to misread; the model follows the
code:

- **Length filter.** One might expect a token to need two code points. The
  code tests `word.length() > 1`, which counts UTF-16 units, so a single
  code point outside the Basic Multilingual Plane is kept
  (`LongEnoughIff`).
- **Digits.** One might expect a word boundary wherever the text changes
  between letters/marks and anything else, so that digits would split a
  word. In the code, `\b` is defined by `\w`, which holds digits and `_`.
  A run of letters and marks touching a digit or an underscore on either
  side therefore overlaps no match, wherever it stands in the text, and
  gives no token (`GluedRunIsNoMatch`): `abc123def`, `x abc1` and `1abc`
  give no token from the glued run.
- **Case.** The code lower-cases with `String.toLowerCase()`, not with full
  Unicode case folding. The model takes that function as a parameter.

## Model

| member | source | states |
|---|---|---|
| Tokenizer.IsMatch | src/main/java/com/scotiaword/extractor/PDFWordExtractor.java:23 | definition, no contract: [p, q) is a match when it is non-empty, holds only letters and marks, and has a `\b` (a change between word and non-word characters) at both ends |
| Tokenizer.MatchIsMaximalRun | src/main/java/com/scotiaword/extractor/PDFWordExtractor.java:23 | a match is a whole run of letters and marks: neither the character before it nor the one after it is a letter or mark |
| Tokenizer.RunEnd | src/main/java/com/scotiaword/extractor/PDFWordExtractor.java:23 | the greedy `+`: everything from the start to the result is a letter or mark, and the result is the end of the text or a character that is neither |
| Tokenizer.MatchAt | src/main/java/com/scotiaword/extractor/PDFWordExtractor.java:23 | a successful attempt at a position is a match of the pattern there |
| Tokenizer.MatchAtIsOnlyMatch | src/main/java/com/scotiaword/extractor/PDFWordExtractor.java:23 | at a start position, the pattern matches [p, q) exactly when the greedy attempt succeeds and ends at q, so backtracking never finds another match |
| Tokenizer.GluedRunIsNoMatch | src/main/java/com/scotiaword/extractor/PDFWordExtractor.java:23 | in any text, a run of letters and marks glued on either side to a word character that is no letter or mark (a digit, `_`) overlaps none of the matches the scan finds, because `\b` fails at the glued end; so it gives no token |
| Tokenizer.GluedToWordCharNoToken | src/main/java/com/scotiaword/extractor/PDFWordExtractor.java:23 | the special case of a whole text made of one letter run, a glue character right after it, then a tail without letters or marks: the text has no tokens at all |
| Tokenizer.Scan | src/main/java/com/scotiaword/extractor/PDFWordExtractor.java:98-99 | every match found lies in the text, starts at or after the search position and is non-empty |
| Tokenizer.ScanInTextOrder | src/main/java/com/scotiaword/extractor/PDFWordExtractor.java:98-99 | the matches come out in text order and do not overlap |
| Tokenizer.ScanFindsAllMatches | src/main/java/com/scotiaword/extractor/PDFWordExtractor.java:98-99 | the scan from a position yields a range exactly when the pattern matches that range at or after the position |
| Tokenizer.LongEnoughIff | src/main/java/com/scotiaword/extractor/PDFWordExtractor.java:101 | a result is kept iff it has two code points or more, or is one code point above U+FFFF (two UTF-16 units) |
| Tokenizer.LowerAndFilter | src/main/java/com/scotiaword/extractor/PDFWordExtractor.java:100-101 | each match lower-cased, the short ones dropped, in order: never more results than matches |
| Tokenizer.LowerAndFilterKeepsLong | src/main/java/com/scotiaword/extractor/PDFWordExtractor.java:100-101 | every result of the lower-case-and-filter stage passes the length test |
| Tokenizer.ExtractWords | src/main/java/com/scotiaword/extractor/PDFWordExtractor.java:94-105 | every token is at least two UTF-16 units long |
| Tokenizer.TokensComeFromMatches | src/main/java/com/scotiaword/extractor/PDFWordExtractor.java:100 | every token is the lower-cased text of one of the matches |
| Tokenizer.LongMatchesAreKept | src/main/java/com/scotiaword/extractor/PDFWordExtractor.java:100-101 | the lower-cased text of any match that passes the length test is among the tokens |
| Tokenizer.TokenIff | src/main/java/com/scotiaword/extractor/PDFWordExtractor.java:94-105 | a string is a token iff it passes the length test and is the lower-cased text of some match of the pattern |
| Tokenizer.NoLettersNoTokens | src/main/java/com/scotiaword/extractor/PDFWordExtractor.java:94-105 | a text without letters or marks, the empty text included, has no tokens |
| Tokenizer.SplitAtNonWordChar | src/main/java/com/scotiaword/extractor/PDFWordExtractor.java:98-102 | splitting a text at a non-word character splits its tokens: those of the first part followed by those of the second, in order and with repeats kept |
| Tokenizer.LowerAndFilterAppend | src/main/java/com/scotiaword/extractor/PDFWordExtractor.java:100-102 | lower-casing and filtering a concatenation of match lists concatenates the results, keeping their order |
| Tokenizer.SingleRun | src/main/java/com/scotiaword/extractor/PDFWordExtractor.java:98-102 | a text that is one run of letters and marks gives its lower-cased form as its only token when that is long enough, and nothing otherwise |
| Statistics.IsStatisticsOf | src/main/java/com/scotiaword/extractor/PDFWordExtractor.java:117-121 | definition, no contract: what a `WordStatistics` record of a token list must hold (total = list length, keys = distinct tokens, each count = occurrences, unique = number of keys); GenerateStatistics establishes it and the lemmas below use it |
| Statistics.GetOrDefault | src/main/java/com/scotiaword/extractor/PDFWordExtractor.java:114 | definition, no contract: `Map.getOrDefault`, the stored count when the token is a key and the default otherwise; FrequencyOfAppend and SumOfCountsIncrement state what line 114 does with it |
| Statistics.GenerateStatistics | src/main/java/com/scotiaword/extractor/PDFWordExtractor.java:110-122 | the total is the list's length; the keys are the distinct tokens; each count is the token's number of occurrences and at least 1; the unique count is the number of keys; the counts add up to the total |
| Statistics.FrequencyOfAppend | src/main/java/com/scotiaword/extractor/PDFWordExtractor.java:113-114 | processing one more token adds one to its count, or enters it with count 1, and changes nothing else |
| Statistics.SumOfCountsIncrement | src/main/java/com/scotiaword/extractor/PDFWordExtractor.java:114 | one `put(word, getOrDefault(word, 0) + 1)` raises the sum of the counts by exactly one |
| Statistics.SumOfCountsIsTotal | src/main/java/com/scotiaword/extractor/PDFWordExtractor.java:117-121 | for the statistics of any token list, the counts add up to the total word count |
| Statistics.StatisticsDetermined | src/main/java/com/scotiaword/extractor/PDFWordExtractor.java:110-122 | two statistics of the same token list are equal: the result depends only on the tokens |
| Statistics.EmptyStatistics | src/main/java/com/scotiaword/extractor/PDFWordExtractor.java:117-121 | an empty token list gives totals of zero and an empty map |
| Statistics.AllDistinct | src/main/java/com/scotiaword/extractor/PDFWordExtractor.java:111-121 | when no token repeats, every count is 1 and the unique count equals the total |
| FrequencyOrder.Insert | src/main/java/com/scotiaword/extractor/PDFWordExtractor.java:151 | inserting an entry adds exactly that entry to the sequence |
| FrequencyOrder.SortByCountDescending | src/main/java/com/scotiaword/extractor/PDFWordExtractor.java:151 | the sorted sequence is a permutation of its input |
| FrequencyOrder.InsertNonIncreasing | src/main/java/com/scotiaword/extractor/PDFWordExtractor.java:151 | inserting into a sequence ordered by non-increasing count keeps it ordered |
| FrequencyOrder.SortNonIncreasing | src/main/java/com/scotiaword/extractor/PDFWordExtractor.java:151 | the sorted sequence is ordered by non-increasing count |
| FrequencyOrder.PermutationKeepsDistinctWords | src/main/java/com/scotiaword/extractor/PDFWordExtractor.java:150-151 | a permutation of entries with distinct tokens still has distinct tokens |
| FrequencyOrder.EnumerationSize | src/main/java/com/scotiaword/extractor/PDFWordExtractor.java:150 | an iteration order of the map visits as many entries as the map has keys |
| FrequencyOrder.FrequencyListing | src/main/java/com/scotiaword/extractor/PDFWordExtractor.java:150-151 | definition, no contract: the map entries in the given iteration order, sorted by count, highest first; FrequencyListingIsSortedPermutation states what comes out |
| FrequencyOrder.FrequencyListingLength | src/main/java/com/scotiaword/extractor/PDFWordExtractor.java:150-152 | the frequency section has one entry per visited map entry |
| FrequencyOrder.FrequencyListingIsSortedPermutation | src/main/java/com/scotiaword/extractor/PDFWordExtractor.java:150-152 | whatever the hash map's iteration order: one entry per key, each with the key's count, every key present, no token twice, and counts non-increasing |
| TxtReport.Header | src/main/java/com/scotiaword/extractor/PDFWordExtractor.java:133-141 | definition, no contract: the banner, its rule, `Total words: ` and `Unique words: ` with the counts in decimal, `Generated on: ` with the stamp, a blank line, the listing's title and rule; HeaderReadsBack states what can be read back |
| TxtReport.HeaderReadsBack | src/main/java/com/scotiaword/extractor/PDFWordExtractor.java:135-137 | the header has eight lines; its summary lines read back to the total and unique counts, and its stamp line to the time stamp |
| TxtReport.NumberedLine | src/main/java/com/scotiaword/extractor/PDFWordExtractor.java:143 | definition, no contract: the number in decimal, `. `, then the token; ParseNumberedLineRoundTrip reads it back |
| TxtReport.NumberedListing | src/main/java/com/scotiaword/extractor/PDFWordExtractor.java:142-143 | exactly one line per token, and line i is `(i+1). ` followed by the i-th token |
| TxtReport.ParseNumberedLineRoundTrip | src/main/java/com/scotiaword/extractor/PDFWordExtractor.java:143 | a numbered line reads back to its number and its token, whatever characters the token holds |
| TxtReport.NumberedListingRecoversWords | src/main/java/com/scotiaword/extractor/PDFWordExtractor.java:142-143 | reading the numbered listing back gives every token at its place with its 1-based number |
| TxtReport.FrequencyLine | src/main/java/com/scotiaword/extractor/PDFWordExtractor.java:152 | definition, no contract: the token, `: `, then the count in decimal; ParseFrequencyLineRoundTrip reads it back |
| TxtReport.FrequencyLines | src/main/java/com/scotiaword/extractor/PDFWordExtractor.java:152 | one `token: count` line per entry, in the entries' order |
| TxtReport.ParseFrequencyLineRoundTrip | src/main/java/com/scotiaword/extractor/PDFWordExtractor.java:152 | a frequency line reads back to its token and count, even when the token holds a colon |
| TxtReport.IsReportOf | src/main/java/com/scotiaword/extractor/PDFWordExtractor.java:133-152 | definition, no contract: the report's layout, that is the header, one numbered line per token in order, a blank line with the section's title and rule, then one line per entry of the frequency listing and nothing else |
| TxtReport.GenerateTxtOutput | src/main/java/com/scotiaword/extractor/PDFWordExtractor.java:127-153 | the report's name, and lines laid out as IsReportOf says: header with the counts and the stamp, every token numbered in order, the section header, then the frequency lines in sorted order, nothing else |
| TxtReport.FrequencySectionFaithful | src/main/java/com/scotiaword/extractor/PDFWordExtractor.java:146-152 | the frequency section has one line per distinct token and no token twice; each line reads back to a token and its number of occurrences, every token of the text appears, and counts never increase down the section |
| JsonReport.BuildJsonOutput | src/main/java/com/scotiaword/extractor/PDFWordExtractor.java:166-176 | definition, no contract: the record given to the serializer, holding the totals, the stamp, `sourceFile` (base name + `.pdf`), the encoding `UTF-8`, the tokens and the frequency map; JsonOutputConsistent states its properties |
| JsonReport.JsonOutputConsistent | src/main/java/com/scotiaword/extractor/PDFWordExtractor.java:166-176 | the JSON payload's totals are the list's length and the map's size, the map counts the list exactly and sums to the total, the encoding is UTF-8, and `sourceFile` names the input when that ends in `.pdf` |
| Strings.LastIndexOf | src/main/java/com/scotiaword/extractor/PDFWordExtractor.java:206 | -1 when the character does not occur; otherwise an index holding it with no occurrence after it |
| Strings.LastIndexOfSplit | src/main/java/com/scotiaword/extractor/PDFWordExtractor.java:206 | in `a + [c] + b` with no `c` in `b`, the last occurrence of `c` is at index `|a|` |
| Strings.FormatInt | src/main/java/com/scotiaword/extractor/PDFWordExtractor.java:135-136 | at least one character: the decimal digits of the value, with a leading minus sign for negatives; ParseFormatInt shows it parses back |
| Strings.ParseFormatInt | src/main/java/com/scotiaword/extractor/PDFWordExtractor.java:143 | the decimal rendering of any integer, negative ones included, parses back to it |
| Strings.FormatIntChars | src/main/java/com/scotiaword/extractor/PDFWordExtractor.java:152 | a rendered integer contains no character other than a minus sign and digits, so none of the report's separators |
| FileNames.BaseFileName | src/main/java/com/scotiaword/extractor/PDFWordExtractor.java:204-208 | the base name is a prefix of the name; it is shorter iff a dot occurs after the first character; when shorter, it stops at the last dot |
| FileNames.BaseFileNameStripsExtension | src/main/java/com/scotiaword/extractor/PDFWordExtractor.java:206-207 | a non-empty stem followed by a dot and a dot-free extension has that stem as base name |
| FileNames.BaseFileNameWithoutExtension | src/main/java/com/scotiaword/extractor/PDFWordExtractor.java:206-207 | a name with no dot after its first character, such as `README` or `.pdf`, is its own base name |
| FileNames.TxtFileName | src/main/java/com/scotiaword/extractor/PDFWordExtractor.java:129 | definition, no contract: `output`, the separator, the base name, `_words.txt`; OutputNamesInjective and TxtAndJsonNamesDiffer state its properties |
| FileNames.JsonFileName | src/main/java/com/scotiaword/extractor/PDFWordExtractor.java:163 | definition, no contract: `output`, the separator, the base name, `_words.json` |
| FileNames.SourceFileName | src/main/java/com/scotiaword/extractor/PDFWordExtractor.java:171 | definition, no contract: the base name followed by `.pdf`; SourceFileNameIff says when that is the input's own name |
| FileNames.SourceFileNameIff | src/main/java/com/scotiaword/extractor/PDFWordExtractor.java:171 | `sourceFile` equals the input's name iff that name ends in `.pdf` after at least one other character (`x.PDF` gives `x.pdf`, `.pdf` gives `.pdf.pdf`) |
| FileNames.TxtAndJsonNamesDiffer | src/main/java/com/scotiaword/extractor/PDFWordExtractor.java:163 | the text report's name never equals the JSON report's name |
| FileNames.OutputNamesInjective | src/main/java/com/scotiaword/extractor/PDFWordExtractor.java:129 | different base names give different report names |
| Extractor.ExtractWordsFromPdf | src/main/java/com/scotiaword/extractor/PDFWordExtractor.java:54-76 | from the extracted text: the tokens, their statistics, both report names (which differ); the text report laid out as IsReportOf says, with its own time stamp, over the same frequency listing; the JSON payload with its own time stamp, whose counts sum to its total |
| Examples.HelloWorld | src/main/java/com/scotiaword/extractor/PDFWordExtractor.java:94-105 | "Hello, world! 123" gives ["hello", "world"] |
| Examples.ShortWordDropped | src/main/java/com/scotiaword/extractor/PDFWordExtractor.java:101 | "a bb ccc" gives ["bb", "ccc"] |
| Examples.GluedToDigits | src/main/java/com/scotiaword/extractor/PDFWordExtractor.java:23 | "abc123 de" gives ["de"] |
| Examples.AggregationExample | src/main/java/com/scotiaword/extractor/PDFWordExtractor.java:110-122 | ["a","b","a","c","b","a"] gives total 6, unique 3 and a:3, b:2, c:1 |
| Examples.FrequencyExample | src/main/java/com/scotiaword/extractor/PDFWordExtractor.java:150-152 | whatever the iteration order, counts a:3, b:2, c:1 are listed a, b, c |

## Left out

- `main` (lines 25-49) is not modelled. It lists the PDF files of the
  current directory and processes each in a `try`/`catch`, so one failing
  file does not stop the rest. That is file-system enumeration and console
  logging.
- `extractTextFromPDF` (lines 81-89) is a PDFBox call followed by a UTF-8
  round trip. The extracted text is a parameter of
  `Extractor.ExtractWordsFromPdf`.
- `createOutputDirectory`, opening and writing both files, and the console
  messages are I/O. The model returns the file names and contents as values.
- Extractor.ExtractWordsFromPdf: always returns both reports. In the code an
  `IOException` opening the text file (`new FileOutputStream`, line 132)
  propagates out of `extractWordsFromPDF`, so `generateJsonOutput` (line 72)
  never runs. Write errors after that are swallowed by the `PrintWriter`
  (line 131), which only sets a flag that nothing reads: the text report is
  then truncated and the JSON report is still written. File I/O is not
  modelled.
- Jackson serialization (lines 179-185), with its escaping and indentation,
  is a foreign library. The model stops at the record handed to it.
- `new Date()` (lines 137 and 170) is the clock, read once for each report.
  The two rendered time stamps are the `txtGeneratedOn` and
  `jsonGeneratedOn` parameters of `Extractor.ExtractWordsFromPdf`, so they
  may differ.
- `File.separator` is a platform constant. It is the `separator` parameter.
- `Paths.get(filePath).getFileName()` (line 205) is platform path parsing.
  `FileNames.BaseFileName` takes the file-name part of the path.
- The Unicode tables behind `\p{L}`, `\p{M}` and `\w`, and the locale-
  dependent `String.toLowerCase()`, are not modelled. They are fields of
  `Tokenizer.UnicodeRules`. Only one fact about them is assumed: every
  letter or mark is a word character.
- Regex-engine internals are not modelled. The scan is the pattern's
  left-to-right semantics: for this pattern, backtracking never yields
  another match at the same start.
- Text is modelled as a sequence of Unicode code points, so a lone
  surrogate cannot occur.
- Java's 32-bit `int` is not modelled. Counts, totals and line numbers are
  unbounded integers; a list of 2^31 tokens cannot be built in Java anyway.
- `%d` and `"..." + int` are rendered with ASCII digits. The platform
  locale's digits for `printf` are not modelled.
- The line separator of `println` and `%n` is not modelled. Each report
  line is one string without it.
- FrequencyOrder.FrequencyListing: ties between equal counts come out in
  the order of the given iteration order. The real order depends on the
  hash map's layout and the sort's handling of an unordered stream. That
  order is not modelled; only the properties that hold for every iteration
  order are proved.
