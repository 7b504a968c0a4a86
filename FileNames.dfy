/**
 * The names the extractor derives from an input file name: the base name
 * (`getBaseFileName`), the two output files in the output directory and the
 * `sourceFile` entry of the structured report.
 */
module FileNames {

  import opened Strings

  /** OUTPUT_DIR. */
  const OutputDir: string := "output"

  /** getBaseFileName, on the file-name part of the path: everything before
      the last dot, unless there is no dot or the only dot that counts is
      the first character (a hidden file such as ".pdf"). */
  function BaseFileName(fileName: string): (base: string)
    ensures base <= fileName
    ensures |base| < |fileName| <==> exists i :: 0 < i < |fileName| && fileName[i] == '.'
    ensures |base| < |fileName| ==> fileName[|base|] == '.' && '.' !in fileName[|base| + 1..]
  {
    var lastDotIndex := LastIndexOf(fileName, '.');
    if lastDotIndex > 0 then fileName[..lastDotIndex] else fileName
  }

  /** The name of the plain-text report, with the platform's separator. */
  function TxtFileName(separator: string, base: string): (name: string)
  {
    OutputDir + separator + base + "_words.txt"
  }

  /** The name of the structured report. */
  function JsonFileName(separator: string, base: string): (name: string)
  {
    OutputDir + separator + base + "_words.json"
  }

  /** The `sourceFile` field of the structured report. */
  function SourceFileName(base: string): (name: string)
  {
    base + ".pdf"
  }

  /** Stripping a dot-free extension from a name that does not start with
      that dot gives the name back. */
  lemma BaseFileNameStripsExtension(stem: string, extension: string)
    requires |stem| > 0 && '.' !in extension
    ensures BaseFileName(stem + "." + extension) == stem
  {
    var name := stem + "." + extension;
    assert name[|stem|] == '.';
    forall j | |stem| < j < |name| ensures name[j] != '.' {
      assert name[j] == extension[j - |stem| - 1];
    }
    assert name[..|stem|] == stem;
  }

  /** A name with no dot after its first character is its own base name:
      "README", ".pdf". */
  lemma BaseFileNameWithoutExtension(fileName: string)
    requires forall i :: 0 < i < |fileName| ==> fileName[i] != '.'
    ensures BaseFileName(fileName) == fileName
  {
  }

  /** The `sourceFile` field gives back the input's name exactly when that
      name ends in ".pdf" after at least one other character; "x.PDF" comes
      back as "x.pdf" and ".pdf" as ".pdf.pdf". */
  lemma SourceFileNameIff(fileName: string)
    ensures SourceFileName(BaseFileName(fileName)) == fileName <==>
      |fileName| >= 5 && fileName[|fileName| - 4..] == ".pdf"
  {
    var base := BaseFileName(fileName);
    var n := |fileName|;
    if |fileName| >= 5 && fileName[n - 4..] == ".pdf" {
      assert fileName == fileName[..n - 4] + "." + "pdf";
      BaseFileNameStripsExtension(fileName[..n - 4], "pdf");
    }
    if SourceFileName(base) == fileName {
      assert |base| + 4 == n;
      assert fileName[n - 4..] == SourceFileName(base)[|base|..];
    }
  }

  lemma {:induction false} SuffixDiffers(a: string, b: string, x: string, y: string)
    requires |x| > 0 && |y| > 0 && x[|x| - 1] != y[|y| - 1]
    ensures a + x != b + y
  {
    var l, r := a + x, b + y;
    assert l[|l| - 1] == x[|x| - 1];
    assert r[|r| - 1] == y[|y| - 1];
  }

  /** The two reports of a document never share a file name, whatever the
      base names. */
  lemma TxtAndJsonNamesDiffer(separator: string, base1: string, base2: string)
    ensures TxtFileName(separator, base1) != JsonFileName(separator, base2)
  {
    SuffixDiffers(OutputDir + separator + base1, OutputDir + separator + base2, "_words.txt", "_words.json");
  }

  /** Different base names give different report file names. */
  lemma OutputNamesInjective(separator: string, base1: string, base2: string)
    ensures TxtFileName(separator, base1) == TxtFileName(separator, base2) ==> base1 == base2
    ensures JsonFileName(separator, base1) == JsonFileName(separator, base2) ==> base1 == base2
  {
    var p := OutputDir + separator;
    if TxtFileName(separator, base1) == TxtFileName(separator, base2) {
      var n1 := TxtFileName(separator, base1);
      assert |base1| == |base2|;
      assert base1 == n1[|p|..|p| + |base1|];
      assert base2 == TxtFileName(separator, base2)[|p|..|p| + |base2|];
    }
    if JsonFileName(separator, base1) == JsonFileName(separator, base2) {
      var n1 := JsonFileName(separator, base1);
      assert |base1| == |base2|;
      assert base1 == n1[|p|..|p| + |base1|];
      assert base2 == JsonFileName(separator, base2)[|p|..|p| + |base2|];
    }
  }
}
