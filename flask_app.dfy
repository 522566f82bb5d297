/** The pure helpers of the Flask front end and its per-task progress store: the
    extension check, the language flag passed to the OCR engine, the name of the
    OCR output, and the `progress/<task id>.txt` files, held here as a map from
    task id to file text. */
module FlaskApp {
  import opened Text
  import UploadRoute

  /** The only member of the set of allowed extensions. */
  const AllowedExtension: string := "pdf"
  const DefaultLanguage: string := "eng"
  const MaxLanguages: nat := 3
  const OcrSuffix: string := "-ocr.pdf"

  /** `allowed_file`: the name has a dot and the text after the last dot, lower-cased,
      is an allowed extension (membership in a one-element set, written as equality). */
  predicate AllowedFile(filename: string)
    ensures AllowedFile(filename) ==> '.' in filename && |filename| >= 4
  {
    var i := LastIndexOf(filename, '.');
    i >= 0 && ToLower(filename[i + 1..]) == AllowedExtension
  }

  /** The Flask check and the Next.js check accept exactly the same names: those whose
      last four characters, lower-cased, are `.pdf`. */
  lemma AllowedFileIsPdfName(filename: string)
    ensures AllowedFile(filename) <==> UploadRoute.IsPdfName(filename)
    ensures AllowedFile(filename) <==> |filename| >= 4 && ToLower(filename[|filename| - 4..]) == ".pdf"
  {
    PdfNameLowerTail(filename);
    if AllowedFile(filename) {
      AllowedHasPdfTail(filename);
    }
    if UploadRoute.IsPdfName(filename) {
      PdfTailIsAllowed(filename);
    }
  }

  /** The `.pdf` check of the Next.js route, read on the last four characters alone. */
  lemma PdfNameLowerTail(filename: string)
    ensures UploadRoute.IsPdfName(filename) <==> |filename| >= 4 && ToLower(filename[|filename| - 4..]) == ".pdf"
  {
    if |filename| >= 4 {
      ToLowerSlice(filename, |filename| - 4);
    }
  }

  lemma AllowedHasPdfTail(filename: string)
    requires AllowedFile(filename)
    ensures |filename| >= 4 && ToLower(filename[|filename| - 4..]) == ".pdf"
  {
    var n := |filename|;
    var i := LastIndexOf(filename, '.');
    var ext := filename[i + 1..];
    assert |ToLower(ext)| == 3;
    var tail := filename[n - 4..];
    forall k | 0 <= k < 4
      ensures ToLower(tail)[k] == ".pdf"[k]
    {
      if k > 0 {
        assert tail[k] == ext[k - 1];
        assert ToLower(ext)[k - 1] == "pdf"[k - 1];
      }
    }
  }

  lemma PdfTailIsAllowed(filename: string)
    requires UploadRoute.IsPdfName(filename)
    ensures AllowedFile(filename)
  {
    var n := |filename|;
    PdfNameLowerTail(filename);
    UploadRoute.PdfNameTail(filename);
    LastIndexOfIsLast(filename, '.');
    var i := LastIndexOf(filename, '.');
    assert i == n - 4;
    var tail := filename[n - 4..];
    var ext := filename[n - 3..];
    forall k | 0 <= k < 3
      ensures ToLower(ext)[k] == "pdf"[k]
    {
      assert ext[k] == tail[k + 1];
      assert ToLower(tail)[k + 1] == ".pdf"[k + 1];
    }
  }

  /** An upper-case extension passes. */
  lemma AllowedFileIgnoresCase()
    ensures AllowedFile("a.PDF")
  {
    var upper := "a.PDF";
    AllowedFileIsPdfName(upper);
    forall k | 0 <= k < 4
      ensures ToLower(upper[1..])[k] == ".pdf"[k]
    {
      assert upper[1..][k] == ".PDF"[k];
    }
  }

  /** A name without a dot does not pass, even when it reads `pdf`. */
  lemma AllowedFileNeedsDot()
    ensures !AllowedFile("pdf")
  {
    AllowedFileIsPdfName("pdf");
  }

  /** Only the last extension counts. */
  lemma AllowedFileLastExtension()
    ensures !AllowedFile("a.pdf.txt")
  {
    var other := "a.pdf.txt";
    AllowedFileIsPdfName(other);
    assert ToLower(other[5..])[1] == LowerChar('t') == 't';
  }

  /** The `-l` flag for the OCR engine: `eng` when no language is selected, otherwise the
      first three selections joined with `+`. */
  function LanguageFlag(selected: seq<string>): (flag: string)
    ensures |selected| == 0 ==> flag == DefaultLanguage
    ensures |selected| > 0 ==> |flag| >= |selected[0]| && flag[..|selected[0]|] == selected[0]
  {
    var languages := if |selected| == 0 then [DefaultLanguage] else selected;
    Join(languages[..Min(MaxLanguages, |languages|)], '+')
  }

  function Min(a: nat, b: nat): nat
  {
    if a <= b then a else b
  }

  /** Read back by splitting on `+`, the flag lists `eng` for an empty selection, and
      otherwise the first `min(3, n)` selections in order, provided none of them contains `+`. */
  lemma LanguageFlagSplits(selected: seq<string>)
    requires forall k :: 0 <= k < |selected| ==> '+' !in selected[k]
    ensures |selected| == 0 ==> Split(LanguageFlag(selected), '+') == [DefaultLanguage]
    ensures |selected| > 0 ==> Split(LanguageFlag(selected), '+') == selected[..Min(MaxLanguages, |selected|)]
    ensures 1 <= |Split(LanguageFlag(selected), '+')| <= MaxLanguages
  {
    var languages := if |selected| == 0 then [DefaultLanguage] else selected;
    SplitJoin(languages[..Min(MaxLanguages, |languages|)], '+');
  }

  /** The name the OCR output of `filename` is written to: the part before the last dot
      (the whole name when there is none) followed by `-ocr.pdf`. */
  function OcrOutputName(filename: string): (r: string)
    ensures EndsWith(r, OcrSuffix)
  {
    var i := LastIndexOf(filename, '.');
    (if i >= 0 then filename[..i] else filename) + OcrSuffix
  }

  /** The stem of the output name is the whole name when it has no dot, and otherwise the
      prefix before a dot after which no dot follows. */
  lemma OcrOutputNameStem(filename: string)
    ensures var r := OcrOutputName(filename);
            var stem := r[..|r| - |OcrSuffix|];
            && |stem| <= |filename| && stem == filename[..|stem|]
            && (|stem| == |filename| <==> '.' !in filename)
            && (|stem| < |filename| ==> filename[|stem|] == '.' && '.' !in filename[|stem| + 1..])
  {
    LastIndexOfIsLast(filename, '.');
  }

  /** For an allowed file the output replaces the final `.pdf` (any case) by `-ocr.pdf`. */
  lemma OcrOutputNameOfAllowed(filename: string)
    requires AllowedFile(filename)
    ensures OcrOutputName(filename) == filename[..|filename| - 4] + OcrSuffix
  {
    AllowedFileIsPdfName(filename);
    UploadRoute.PdfNameTail(filename);
    LastIndexOfIsLast(filename, '.');
    assert LastIndexOf(filename, '.') == |filename| - 4;
  }

  /** What a progress file holds after a write: the decimal text of the value, which reads
      back, stripped and parsed, as that value. */
  lemma ProgressTextReadsBack(progress: nat)
    ensures Strip(NatToString(progress)) == NatToString(progress)
    ensures ParseNat(Strip(NatToString(progress))) == progress
  {
    StripNatToString(progress);
    ParseNatToString(progress);
  }

  /** `get_progress` over the progress files: the stripped text of the file of `taskId`, or `0`
      when it has none. */
  function ReadProgress(files: map<string, string>, taskId: string): (r: string)
    ensures taskId !in files ==> r == "0"
    ensures taskId in files ==> |r| <= |files[taskId]|
  {
    if taskId in files then Strip(files[taskId]) else "0"
  }

  /** After `update_progress(taskId, p)`, `taskId` reads back as `p`, in text and parsed,
      and every other task reads as before. */
  lemma ReadAfterWrite(files: map<string, string>, taskId: string, other: string, progress: nat)
    ensures ReadProgress(files[taskId := NatToString(progress)], taskId) == NatToString(progress)
    ensures ParseNat(ReadProgress(files[taskId := NatToString(progress)], taskId)) == progress
    ensures other != taskId ==>
              ReadProgress(files[taskId := NatToString(progress)], other) == ReadProgress(files, other)
  {
    ProgressTextReadsBack(progress);
  }

  /** The progress files, one per task. */
  class ProgressStore {
    var files: map<string, string>

    constructor ()
      ensures files == map[]
    {
      files := map[];
    }

    function Get(taskId: string): string
      reads this
    {
      ReadProgress(files, taskId)
    }

    /** `update_progress`: overwrite the file of `taskId` with the decimal text of `progress`. */
    method Update(taskId: string, progress: nat)
      modifies this
      ensures files == old(files)[taskId := NatToString(progress)]
    {
      files := files[taskId := NatToString(progress)];
    }
  }
}
