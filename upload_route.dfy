/** The upload endpoint of the Next.js front end: request validation, the
    process-wide status store keyed by the unique upload name, record creation,
    the derivation of the output file name, and the detached OCR block that
    later moves a record to `complete` or `error`. */
module UploadRoute {
  import opened Text

  /** The three values the store ever holds in its `status` field. */
  datatype Status = Processing | Complete | Error
  {
    /** The text the store holds and the status endpoint reports. */
    function Name(): string
    {
      match this
      case Processing => "processing"
      case Complete => "complete"
      case Error => "error"
    }
  }

  /** One entry of the status store. */
  datatype Record = Record(status: Status, outputFilePath: string, startTime: int, progress: int)

  /** What a newly accepted upload stores. */
  function NewRecord(now: int): Record
  {
    Record(Processing, "", now, 0)
  }

  /** The sentinels a record carries in each status: a running job has no output
      path and progress 0, a completed one progress 100 and a public path, a
      failed one progress 0. */
  predicate WellFormed(r: Record)
  {
    && (r.status == Processing ==> r.outputFilePath == "" && r.progress == 0)
    && (r.status == Complete ==> r.progress == 100 && EndsWith(r.outputFilePath, OutputSuffix)
                                 && r.outputFilePath[..|PublicPrefix|] == PublicPrefix)
    && (r.status == Error ==> r.progress == 0)
  }

  predicate AllWellFormed(entries: map<string, Record>)
  {
    forall k :: k in entries ==> WellFormed(entries[k])
  }

  const PublicPrefix: string := "/uploads/"
  const OutputSuffix: string := "_output.pdf"

  const FileRequired: string := "File is required"
  const OnlyPdf: string := "Only PDF files are supported"
  const ProcessingErrorPrefix: string := "Error processing file: "

  /** The name check of the upload: the lower-cased name ends in `.pdf`. */
  predicate IsPdfName(name: string)
    ensures IsPdfName(name) ==> |name| >= 4
  {
    EndsWith(ToLower(name), ".pdf")
  }

  /** A name passing the check ends in a dot and three letters that are neither a dot nor a slash. */
  lemma PdfNameTail(name: string)
    requires IsPdfName(name)
    ensures |name| >= 4 && name[|name| - 4] == '.'
    ensures forall k :: |name| - 4 < k < |name| ==> name[k] != '.' && name[k] != '/'
  {
    var n := |name|;
    assert ToLower(name)[n - 4..] == ".pdf";
    assert LowerChar(name[n - 4]) == ToLower(name)[n - 4] == '.';
    forall k | n - 4 < k < n
      ensures name[k] != '.' && name[k] != '/'
    {
      assert ToLower(name)[k] == ".pdf"[k - (n - 4)];
      assert LowerChar(name[k]) == ToLower(name)[k];
    }
  }

  /** The key under which an upload is stored and the file id returned to the client. */
  function UniqueFileName(id: string, name: string): (key: string)
    ensures |key| == |id| + 1 + |name| && key[|id|] == '_'
    ensures key[..|id|] == id && key[|id| + 1..] == name
  {
    id + "_" + name
  }

  /** The regular-expression replacement `/\.[^/.]+$/ -> ''`: a final dot followed by at
      least one character, none of them a dot or a slash, is removed; otherwise nothing is. */
  function StripExtension(s: string): (r: string)
    ensures |r| <= |s| && r == s[..|r|]
    ensures r != s ==> |r| < |s| - 1 && s[|r|] == '.' && ExtensionTail(s, |r|)
  {
    var i := LastIndexOf(s, '.');
    if 0 <= i < |s| - 1 && ExtensionTail(s, i) then s[..i] else s
  }

  /** Whenever some dot starts a removable extension, that dot and what follows are removed. */
  lemma StripExtensionRemoves(s: string, i: int)
    requires 0 <= i < |s| - 1 && s[i] == '.' && ExtensionTail(s, i)
    ensures StripExtension(s) == s[..i]
  {
    LastIndexOfIsLast(s, '.');
  }

  /** No character after position `i` is a dot or a slash. */
  predicate ExtensionTail(s: string, i: int)
    requires 0 <= i < |s|
  {
    '.' !in s[i + 1..] && '/' !in s[i + 1..]
  }

  /** The name the OCR engine writes its output to. */
  function OutputFileName(key: string): (r: string)
    ensures EndsWith(r, OutputSuffix)
    ensures |r| - |OutputSuffix| <= |key| && r[..|r| - |OutputSuffix|] == key[..|r| - |OutputSuffix|]
  {
    StripExtension(key) + OutputSuffix
  }

  /** For an accepted upload the output name is the key without its `.pdf`, plus `_output.pdf`. */
  lemma OutputFileNameOfPdf(key: string)
    requires IsPdfName(key)
    ensures OutputFileName(key) == key[..|key| - 4] + "_output.pdf"
  {
    PdfNameTail(key);
    assert key[|key| - 4] == '.' && ExtensionTail(key, |key| - 4);
    StripExtensionRemoves(key, |key| - 4);
  }

  /** The store after an accepted upload: the key maps to a fresh processing record,
      overwriting whatever was there; no other entry changes. */
  function Created(entries: map<string, Record>, key: string, now: int): (r: map<string, Record>)
    ensures key in r && r[key] == Record(Processing, "", now, 0)
    ensures forall k :: k != key ==> (k in r <==> k in entries)
    ensures forall k :: k != key && k in entries ==> r[k] == entries[k]
    ensures AllWellFormed(entries) ==> AllWellFormed(r)
  {
    entries[key := NewRecord(now)]
  }

  /** The store after the OCR output was found: the record is replaced by a complete one
      with progress 100 and the public output path, keeping its start time. */
  function Completed(entries: map<string, Record>, key: string, outputFileName: string): (r: map<string, Record>)
    requires key in entries
    ensures key in r && r[key].status == Complete && r[key].progress == 100
    ensures r[key].outputFilePath == PublicPrefix + outputFileName
    ensures r[key].startTime == entries[key].startTime
    ensures r.Keys == entries.Keys
    ensures forall k :: k != key && k in entries ==> r[k] == entries[k]
  {
    entries[key := Record(Complete, PublicPrefix + outputFileName, entries[key].startTime, 100)]
  }

  /** Completing a job with an `_output.pdf` name keeps every record of the store well formed. */
  lemma CompletedWellFormed(entries: map<string, Record>, key: string, outputFileName: string)
    requires key in entries && AllWellFormed(entries) && EndsWith(outputFileName, OutputSuffix)
    ensures AllWellFormed(Completed(entries, key, outputFileName))
  {
    CompletedRecordWellFormed(outputFileName, entries[key].startTime);
  }

  /** A completed record pointing at an `_output.pdf` file under the public prefix is well formed. */
  lemma CompletedRecordWellFormed(outputFileName: string, startTime: int)
    requires EndsWith(outputFileName, OutputSuffix)
    ensures WellFormed(Record(Complete, PublicPrefix + outputFileName, startTime, 100))
  {
    var path := PublicPrefix + outputFileName;
    assert path[|path| - |OutputSuffix|..] == outputFileName[|outputFileName| - |OutputSuffix|..];
    assert path[..|PublicPrefix|] == PublicPrefix;
  }

  /** The store after the OCR engine failed or left no output: status `error` and progress 0,
      the output path and the start time as they were. */
  function Failed(entries: map<string, Record>, key: string): (r: map<string, Record>)
    requires key in entries
    ensures key in r && r[key].status == Error && r[key].progress == 0
    ensures r[key].outputFilePath == entries[key].outputFilePath
    ensures r[key].startTime == entries[key].startTime
    ensures r.Keys == entries.Keys
    ensures forall k :: k != key && k in entries ==> r[k] == entries[k]
    ensures AllWellFormed(entries) ==> AllWellFormed(r)
  {
    entries[key := entries[key].(status := Error, progress := 0)]
  }

  /** Validation of an upload request: the file part must be present and its name
      must pass the `.pdf` check. Yields the file name or the 400 message. */
  function Validate(file: Option<string>): (r: Outcome)
    ensures r.Valid? <==> file.Some? && IsPdfName(file.value)
    ensures r.Valid? ==> r.name == file.value
    ensures file.None? ==> r == Invalid(FileRequired)
    ensures file.Some? && !IsPdfName(file.value) ==> r == Invalid(OnlyPdf)
  {
    if file.None? then Invalid(FileRequired)
    else if !IsPdfName(file.value) then Invalid(OnlyPdf)
    else Valid(file.value)
  }

  datatype Outcome = Valid(name: string) | Invalid(message: string)

  /** The JSON reply of the upload endpoint. */
  datatype UploadResponse =
    | Accepted(fileId: string)
    | Rejected(code: int, error: string)
  {
    function HttpStatus(): int
    {
      if Accepted? then 200 else code
    }
  }

  /** The process-wide status store and the operations of the upload endpoint on it. */
  class StatusStore {
    var entries: map<string, Record>

    ghost predicate Valid()
      reads this
    {
      AllWellFormed(entries)
    }

    constructor ()
      ensures Valid() && entries == map[]
    {
      entries := map[];
    }

    /** Insert (or overwrite) the processing record of an accepted upload. */
    method Create(key: string, now: int)
      requires Valid()
      modifies this
      ensures Valid()
      ensures entries == Created(old(entries), key, now)
    {
      entries := entries[key := NewRecord(now)];
    }

    /** Replace the record by a complete one pointing at the public output path. */
    method Complete(key: string, outputFileName: string)
      requires Valid() && key in entries
      requires EndsWith(outputFileName, OutputSuffix)
      modifies this
      ensures Valid()
      ensures entries == Completed(old(entries), key, outputFileName)
    {
      CompletedWellFormed(entries, key, outputFileName);
      entries := entries[key := Record(Status.Complete, PublicPrefix + outputFileName, entries[key].startTime, 100)];
    }

    /** Set the status and then the progress of the record in place. */
    method Fail(key: string)
      requires Valid() && key in entries
      modifies this
      ensures Valid()
      ensures entries == Failed(old(entries), key)
    {
      entries := entries[key := entries[key].(status := Error)];
      entries := entries[key := entries[key].(progress := 0)];
    }

    /** The upload request. `file` is the name of the file part when one is present,
        `id` the random id drawn for it, `now` the clock, and `storageError` the message
        of a failure while creating the upload directory or writing the file. */
    method Post(file: Option<string>, id: string, now: int, storageError: Option<string>)
      returns (resp: UploadResponse)
      requires Valid()
      modifies this
      ensures Valid()
      ensures resp.HttpStatus() == (if file.None? || !IsPdfName(file.value) then 400
                                    else if storageError.Some? then 500 else 200)
      ensures file.None? ==> resp == Rejected(400, FileRequired) && entries == old(entries)
      ensures file.Some? && !IsPdfName(file.value) ==> resp == Rejected(400, OnlyPdf) && entries == old(entries)
      ensures file.Some? && IsPdfName(file.value) && storageError.Some? ==>
                resp == Rejected(500, ProcessingErrorPrefix + storageError.value) && entries == old(entries)
      ensures file.Some? && IsPdfName(file.value) && storageError.None? ==>
                resp == Accepted(UniqueFileName(id, file.value))
                && entries == Created(old(entries), resp.fileId, now)
    {
      var v := Validate(file);
      if v.Invalid? {
        return Rejected(400, v.message);
      }
      if storageError.Some? {
        return Rejected(500, ProcessingErrorPrefix + storageError.value);
      }
      var uniqueFileName := UniqueFileName(id, v.name);
      Create(uniqueFileName, now);
      resp := Accepted(uniqueFileName);
    }

    /** The detached OCR block for an accepted upload. `engineSucceeded` is whether the
        engine command returned without an error, `outputExists` whether the output file
        is on disk afterwards. */
    method RunOcr(key: string, engineSucceeded: bool, outputExists: bool)
      requires Valid() && key in entries
      modifies this
      ensures Valid()
      ensures engineSucceeded && outputExists ==> entries == Completed(old(entries), key, OutputFileName(key))
      ensures !(engineSucceeded && outputExists) ==> entries == Failed(old(entries), key)
    {
      var outputFileName := OutputFileName(key);
      if engineSucceeded && outputExists {
        Complete(key, outputFileName);
      } else {
        Fail(key);
      }
    }
  }
}
