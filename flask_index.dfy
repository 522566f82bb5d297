/** The upload request of the Flask front end: it counts the pages of every allowed
    file, runs the OCR engine on each in turn, writes the page-weighted progress for
    the request's task id after every file, and answers with the single output or a zip of all. */
module FlaskIndex {
  import opened Text
  import opened FlaskApp

  /** One file part of the request with what the environment does with it: the name the
      client sent, the name it is saved under after sanitising, the page count read from
      it (0 when it cannot be read) and whether the OCR engine exits successfully on it. */
  datatype FilePart = FilePart(filename: string, secureName: string, pages: nat, ocrSucceeds: bool)

  /** How the request ends: the result file, or the exception that interrupts it. */
  datatype IndexOutcome =
    | Finished(resultFile: string)
    | EngineFailed
    | ZeroDivision
    | NoOutputs

  /** The parts that pass the extension check, in request order. */
  function Allowed(files: seq<FilePart>, accept: string -> bool): (a: seq<FilePart>)
    ensures |a| <= |files|
  {
    AllowedAmong(files, accept, |files|)
  }

  /** The parts among the first `n` of the request that pass the extension check, in order. */
  function AllowedAmong(files: seq<FilePart>, accept: string -> bool, n: nat): (a: seq<FilePart>)
    requires n <= |files|
    ensures |a| <= n
  {
    if n == 0 then []
    else AllowedAmong(files, accept, n - 1) + (if accept(files[n - 1].filename) then [files[n - 1]] else [])
  }

  /** A part is kept exactly when it is in the request and passes the extension check. */
  lemma {:induction false} AllowedMembers(files: seq<FilePart>, accept: string -> bool, n: nat, f: FilePart)
    requires n <= |files|
    ensures f in AllowedAmong(files, accept, n) <==> f in files[..n] && accept(f.filename)
  {
    if n > 0 {
      AllowedMembers(files, accept, n - 1, f);
      assert files[..n] == files[..n - 1] + [files[n - 1]];
    }
  }

  /** The allowed parts among the first `i` are a prefix of those among the first `n`. */
  lemma {:induction false} AllowedPrefix(files: seq<FilePart>, accept: string -> bool, i: nat, n: nat)
    requires i <= n <= |files|
    ensures |AllowedAmong(files, accept, i)| <= |AllowedAmong(files, accept, n)|
    ensures AllowedAmong(files, accept, i) == AllowedAmong(files, accept, n)[..|AllowedAmong(files, accept, i)|]
  {
    if i < n {
      AllowedPrefix(files, accept, i, n - 1);
      var before := AllowedAmong(files, accept, n - 1);
      assert AllowedAmong(files, accept, n)[..|before|] == before;
    }
  }

  /** Total number of pages of a list of parts. */
  function TotalPages(parts: seq<FilePart>): nat
  {
    if parts == [] then 0 else TotalPages(parts[..|parts| - 1]) + parts[|parts| - 1].pages
  }

  /** A prefix never has more pages than the whole list. */
  lemma {:induction false} TotalPagesPrefix(parts: seq<FilePart>, k: nat)
    requires k <= |parts|
    ensures TotalPages(parts[..k]) <= TotalPages(parts)
  {
    if k < |parts| {
      var init := parts[..|parts| - 1];
      assert parts[..k] == init[..k];
      TotalPagesPrefix(init, k);
    } else {
      assert parts[..k] == parts;
    }
  }

  /** Part `k` is the last one saved under its name. */
  predicate LastWithName(parts: seq<FilePart>, k: nat)
    requires k < |parts|
  {
    forall l :: k < l < |parts| ==> parts[l].secureName != parts[k].secureName
  }

  /** The page-count dictionary filled by the first loop: every saved name is a key. */
  function PageCounts(parts: seq<FilePart>): (counts: map<string, nat>)
    ensures forall k :: 0 <= k < |parts| ==> parts[k].secureName in counts
  {
    if parts == [] then map[]
    else
      var last := parts[|parts| - 1];
      PageCounts(parts[..|parts| - 1])[last.secureName := last.pages]
  }

  /** A name maps to the page count of the last part saved under it. */
  lemma {:induction false} PageCountsLast(parts: seq<FilePart>, k: nat)
    requires k < |parts| && LastWithName(parts, k)
    ensures PageCounts(parts)[parts[k].secureName] == parts[k].pages
  {
    if k < |parts| - 1 {
      var init := parts[..|parts| - 1];
      assert LastWithName(init, k);
      PageCountsLast(init, k);
    }
  }

  predicate DistinctNames(parts: seq<FilePart>)
  {
    forall k, l :: 0 <= k < l < |parts| ==> parts[k].secureName != parts[l].secureName
  }

  /** Pages processed after the given parts, each looked up by name in `counts`. */
  function Processed(parts: seq<FilePart>, counts: map<string, nat>): nat
    requires forall k :: 0 <= k < |parts| ==> parts[k].secureName in counts
  {
    if parts == [] then 0
    else Processed(parts[..|parts| - 1], counts) + counts[parts[|parts| - 1].secureName]
  }

  /** With distinct names, the pages looked up for a prefix are the pages of that prefix. */
  lemma {:induction false} ProcessedDistinct(parts: seq<FilePart>, k: nat)
    requires DistinctNames(parts) && k <= |parts|
    ensures Processed(parts[..k], PageCounts(parts)) == TotalPages(parts[..k])
  {
    if k > 0 {
      ProcessedDistinct(parts, k - 1);
      assert parts[..k][..k - 1] == parts[..k - 1];
      PageCountsLast(parts, k - 1);
    }
  }

  /** `int((processed / total) * 100)`, taken as exact integer arithmetic. */
  function Percent(processed: nat, total: nat): (p: nat)
    requires total > 0
    ensures p * total <= 100 * processed < (p + 1) * total
  {
    100 * processed / total
  }

  lemma PercentMonotone(a: nat, b: nat, total: nat)
    requires a <= b && total > 0
    ensures Percent(a, total) <= Percent(b, total)
  {
    DivMonotone(100 * a, 100 * b, total);
  }

  lemma DivMonotone(x: nat, y: nat, d: nat)
    requires x <= y && d > 0
    ensures x / d <= y / d
  {
    var qx, qy := x / d, y / d;
    assert qx * d <= x;
    assert y < qy * d + d;
    if qx > qy {
      MulMonotone(qy + 1, qx, d);
      assert false;
    }
  }

  lemma MulMonotone(a: nat, b: nat, c: nat)
    requires a <= b
    ensures a * c <= b * c
  {
  }

  lemma PercentOfWhole(total: nat)
    requires total > 0
    ensures Percent(total, total) == 100
  {
  }

  /** The progress written after the first `k` allowed parts have been processed. */
  function ProgressAfter(allowed: seq<FilePart>, k: nat): nat
    requires TotalPages(allowed) > 0 && k <= |allowed|
  {
    Percent(Processed(allowed[..k], PageCounts(allowed)), TotalPages(allowed))
  }

  /** The progress values written for a task: 0 first, then one value per processed part,
      the page-weighted share of the parts processed so far; nothing after 0 when the
      parts have no pages at all. */
  predicate Schedule(allowed: seq<FilePart>, written: seq<nat>)
  {
    && 1 <= |written| <= |allowed| + 1
    && written[0] == 0
    && (TotalPages(allowed) == 0 ==> |written| == 1)
    && (TotalPages(allowed) > 0 ==> forall k :: 1 <= k < |written| ==> written[k] == ProgressAfter(allowed, k))
  }

  /** With distinct names, the written progress never decreases, never exceeds 100, and is
      100 once every allowed part has been processed. */
  lemma ScheduleMonotone(allowed: seq<FilePart>, written: seq<nat>)
    requires Schedule(allowed, written) && DistinctNames(allowed)
    ensures forall a, b :: 0 <= a <= b < |written| ==> written[a] <= written[b] <= 100
    ensures |written| == |allowed| + 1 && TotalPages(allowed) > 0 ==> written[|allowed|] == 100
  {
    var total := TotalPages(allowed);
    if total > 0 {
      forall a, b | 0 <= a <= b < |written|
        ensures written[a] <= written[b] <= 100
      {
        ScheduleValue(allowed, written, a);
        ScheduleValue(allowed, written, b);
        TotalPagesPrefix(allowed[..b], a);
        assert allowed[..b][..a] == allowed[..a];
        TotalPagesPrefix(allowed, b);
        PercentMonotone(TotalPages(allowed[..a]), TotalPages(allowed[..b]), total);
        PercentMonotone(TotalPages(allowed[..b]), total, total);
        PercentOfWhole(total);
      }
      if |written| == |allowed| + 1 {
        ScheduleValue(allowed, written, |allowed|);
        assert allowed[..|allowed|] == allowed;
        PercentOfWhole(total);
      }
    }
  }

  /** With distinct names, the `a`-th value written is the page-weighted share of the first
      `a` parts. */
  lemma ScheduleValue(allowed: seq<FilePart>, written: seq<nat>, a: nat)
    requires Schedule(allowed, written) && DistinctNames(allowed) && TotalPages(allowed) > 0 && a < |written|
    ensures written[a] == Percent(TotalPages(allowed[..a]), TotalPages(allowed))
  {
    if a == 0 {
      assert allowed[..0] == [];
    } else {
      ProcessedDistinct(allowed, a);
    }
  }

  /** Two parts saved under the same name: the dictionary keeps the last page count for
      both lookups, so the progress after the last part is 142, not 100. */
  lemma RepeatedNamesOvershoot()
    ensures var parts := [FilePart("a.pdf", "a.pdf", 2, true), FilePart("a.pdf", "a.pdf", 5, true)];
            TotalPages(parts) == 7 && ProgressAfter(parts, 2) == 142
  {
    var parts := [FilePart("a.pdf", "a.pdf", 2, true), FilePart("a.pdf", "a.pdf", 5, true)];
    var counts := PageCounts(parts);
    assert parts[..1] == [parts[0]] && parts[..2] == parts && parts[..2][..1] == parts[..1];
    assert parts[..1][..0] == [];
    assert counts["a.pdf"] == 5;
    assert TotalPages(parts[..1]) == 2;
    assert Processed(parts[..1], counts) == 5;
    assert Processed(parts[..2], counts) == 10;
  }

  predicate AllSucceed(parts: seq<FilePart>)
  {
    forall k :: 0 <= k < |parts| ==> parts[k].ocrSucceeds
  }

  function ZipName(taskId: string): string
  {
    "ocr_results_" + taskId + ".zip"
  }

  /** The file the request answers with: for several outputs a zip named after `taskId`,
      the only output for one, and none (the list index fails) for no output. */
  function ResultFile(taskId: string, outputFiles: seq<string>): (r: Option<string>)
    ensures r.None? <==> outputFiles == []
    ensures |outputFiles| == 1 ==> r == Some(outputFiles[0])
    ensures |outputFiles| > 1 ==> r == Some(ZipName(taskId))
  {
    if |outputFiles| > 1 then Some(ZipName(taskId))
    else if |outputFiles| == 1 then Some(outputFiles[0])
    else None
  }

  /** The output names of the processed parts, in order. */
  function OutputNames(parts: seq<FilePart>): (names: seq<string>)
    ensures |names| == |parts|
  {
    if parts == [] then [] else OutputNames(parts[..|parts| - 1]) + [OcrOutputName(parts[|parts| - 1].secureName)]
  }

  /** The `k`-th output is the OCR output name of the `k`-th part. */
  lemma {:induction false} OutputNamesAt(parts: seq<FilePart>, k: nat)
    requires k < |parts|
    ensures OutputNames(parts)[k] == OcrOutputName(parts[k].secureName)
  {
    if k < |parts| - 1 {
      OutputNamesAt(parts[..|parts| - 1], k);
    }
  }

  lemma CountsStep(parts: seq<FilePart>, part: FilePart)
    ensures TotalPages(parts + [part]) == TotalPages(parts) + part.pages
    ensures PageCounts(parts + [part]) == PageCounts(parts)[part.secureName := part.pages]
  {
    assert (parts + [part])[..|parts|] == parts;
  }

  /** The first pass of the request: the page count of every allowed part, by saved name,
      and their sum. */
  method CountPages(files: seq<FilePart>, accept: string -> bool) returns (totalPages: nat, filePageCounts: map<string, nat>)
    ensures totalPages == TotalPages(Allowed(files, accept))
    ensures filePageCounts == PageCounts(Allowed(files, accept))
  {
    totalPages := 0;
    filePageCounts := map[];
    var i := 0;
    while i < |files|
      invariant 0 <= i <= |files|
      invariant totalPages == TotalPages(AllowedAmong(files, accept, i))
      invariant filePageCounts == PageCounts(AllowedAmong(files, accept, i))
    {
      var file := files[i];
      if accept(file.filename) {
        assert AllowedAmong(files, accept, i + 1) == AllowedAmong(files, accept, i) + [file];
        CountsStep(AllowedAmong(files, accept, i), file);
        filePageCounts := filePageCounts[file.secureName := file.pages];
        totalPages := totalPages + file.pages;
      } else {
        assert AllowedAmong(files, accept, i + 1) == AllowedAmong(files, accept, i);
      }
      i := i + 1;
    }
  }

  /** The second pass of the request: OCR of each allowed part in order, with a progress
      write after each. Returns the exception that stopped it, if any, the output names
      collected, and the progress values it wrote. */
  method OcrPass(store: ProgressStore, taskId: string, files: seq<FilePart>, accept: string -> bool,
                 totalPages: nat, filePageCounts: map<string, nat>, ghost base: map<string, string>)
    returns (stop: Option<IndexOutcome>, outputFiles: seq<string>, writes: seq<nat>)
    requires totalPages == TotalPages(Allowed(files, accept)) && filePageCounts == PageCounts(Allowed(files, accept))
    requires store.files == base[taskId := NatToString(0)]
    modifies store
    ensures store.files == base[taskId := NatToString(([0] + writes)[|writes|])]
    ensures Schedule(Allowed(files, accept), [0] + writes)
    ensures stop.None? ==> AllSucceed(Allowed(files, accept)) && outputFiles == OutputNames(Allowed(files, accept))
                           && |writes| == |Allowed(files, accept)| && (Allowed(files, accept) != [] ==> totalPages > 0)
    ensures stop.Some? ==> Interrupted(Allowed(files, accept), totalPages, stop.value, writes)
  {
    stop, outputFiles, writes := None, [], [];
    var pagesProcessed: nat := 0;
    var i := 0;
    PassStart(files, accept, filePageCounts, totalPages);
    while i < |files|
      invariant PassState(files, accept, i, filePageCounts, totalPages, pagesProcessed, outputFiles, writes)
      invariant store.files == base[taskId := NatToString(([0] + writes)[|writes|])]
    {
      if accept(files[i].filename) {
        var stopped, pages, outputs, written :=
          OcrFile(store, taskId, files, accept, i, filePageCounts, totalPages, pagesProcessed, outputFiles, writes, base);
        if stopped.Some? {
          return stopped, outputs, written;
        }
        pagesProcessed, outputFiles, writes := pages, outputs, written;
      } else {
        SkipPass(files, accept, i, filePageCounts, totalPages, pagesProcessed, outputFiles, writes);
      }
      i := i + 1;
    }
    PassEnd(files, accept, filePageCounts, totalPages, pagesProcessed, outputFiles, writes);
  }

  /** How the second pass can be interrupted: the OCR engine fails on the next allowed part
      (after all earlier ones succeeded), or the first successful part divides by a page
      total of zero before anything was written. */
  predicate Interrupted(allowed: seq<FilePart>, totalPages: nat, stop: IndexOutcome, writes: seq<nat>)
  {
    || (stop == EngineFailed && |writes| < |allowed| && !allowed[|writes|].ocrSucceeds && AllSucceed(allowed[..|writes|]))
    || (stop == ZeroDivision && writes == [] && allowed != [] && allowed[0].ocrSucceeds && totalPages == 0)
  }

  /** The body of the second pass for one allowed part: run the engine, collect the output
      name, add the part's pages and write the new progress. */
  method OcrFile(store: ProgressStore, taskId: string, files: seq<FilePart>, accept: string -> bool, i: nat,
                 filePageCounts: map<string, nat>, totalPages: nat,
                 pagesProcessed: nat, outputFiles: seq<string>, writes: seq<nat>, ghost base: map<string, string>)
    returns (stop: Option<IndexOutcome>, pagesProcessed': nat, outputFiles': seq<string>, writes': seq<nat>)
    requires PassState(files, accept, i, filePageCounts, totalPages, pagesProcessed, outputFiles, writes)
    requires i < |files| && accept(files[i].filename)
    requires totalPages == TotalPages(Allowed(files, accept)) && filePageCounts == PageCounts(Allowed(files, accept))
    requires store.files == base[taskId := NatToString(([0] + writes)[|writes|])]
    modifies store
    ensures stop.Some? ==> Interrupted(Allowed(files, accept), totalPages, stop.value, writes) && writes' == writes
                           && store.files == old(store.files)
    ensures stop.None? ==> PassState(files, accept, i + 1, filePageCounts, totalPages, pagesProcessed', outputFiles', writes')
                           && |writes'| == |writes| + 1 && writes'[..|writes|] == writes
                           && store.files == base[taskId := NatToString(writes'[|writes|])]
  {
    AdvancePass(files, accept, i, filePageCounts, totalPages, pagesProcessed, outputFiles, writes);
    var filename := files[i].secureName;
    var outputFile := OcrOutputName(filename);
    if !files[i].ocrSucceeds {
      return Some(EngineFailed), pagesProcessed, outputFiles, writes;
    }
    outputFiles' := outputFiles + [outputFile];
    pagesProcessed' := pagesProcessed + filePageCounts[filename];
    if totalPages == 0 {
      return Some(ZeroDivision), pagesProcessed', outputFiles', writes;
    }
    var progress := Percent(pagesProcessed', totalPages);
    AdvancePassState(files, accept, i, filePageCounts, totalPages, pagesProcessed, outputFiles, writes, pagesProcessed');
    Overwrite(base, taskId, NatToString(([0] + writes)[|writes|]), NatToString(progress));
    store.Update(taskId, progress);
    stop, writes' := None, writes + [progress];
  }

  /** Before the second pass nothing is processed. */
  lemma PassStart(files: seq<FilePart>, accept: string -> bool, counts: map<string, nat>, totalPages: nat)
    requires counts == PageCounts(Allowed(files, accept))
    ensures PassState(files, accept, 0, counts, totalPages, 0, [], [])
  {
    assert Allowed(files, accept)[..0] == [];
  }

  /** One more allowed part: it is the next allowed part of the whole request, and when the
      request has no pages, no output was collected before it. */
  lemma AdvancePass(files: seq<FilePart>, accept: string -> bool, i: nat, counts: map<string, nat>, totalPages: nat,
                    pagesProcessed: nat, outputFiles: seq<string>, writes: seq<nat>)
    requires PassState(files, accept, i, counts, totalPages, pagesProcessed, outputFiles, writes)
    requires i < |files| && accept(files[i].filename)
    requires totalPages == TotalPages(Allowed(files, accept))
    ensures |writes| == |outputFiles| < |Allowed(files, accept)| && Allowed(files, accept)[|writes|] == files[i]
    ensures AllSucceed(Allowed(files, accept)[..|writes|])
    ensures files[i].secureName in counts
    ensures totalPages == 0 ==> writes == []
  {
    NextAllowed(files, accept, i, |outputFiles|);
  }

  /** When the OCR of the next allowed part succeeds and the request has pages, the pass
      state extends by its output, its pages and the progress written for it. */
  lemma AdvancePassState(files: seq<FilePart>, accept: string -> bool, i: nat, counts: map<string, nat>, totalPages: nat,
                         pagesProcessed: nat, outputFiles: seq<string>, writes: seq<nat>, pages: nat)
    requires PassState(files, accept, i, counts, totalPages, pagesProcessed, outputFiles, writes)
    requires i < |files| && accept(files[i].filename) && files[i].ocrSucceeds
    requires totalPages == TotalPages(Allowed(files, accept)) && counts == PageCounts(Allowed(files, accept)) && totalPages > 0
    requires files[i].secureName in counts && pages == pagesProcessed + counts[files[i].secureName]
    ensures PassState(files, accept, i + 1, counts, totalPages, pages,
                      outputFiles + [OcrOutputName(files[i].secureName)], writes + [Percent(pages, totalPages)])
  {
    var allowed := Allowed(files, accept);
    var j := |outputFiles|;
    var output := OcrOutputName(files[i].secureName);
    var progress := Percent(pages, totalPages);
    assert j < |allowed| && allowed[j] == files[i] && AllowedAmong(files, accept, i + 1) == allowed[..j + 1] by {
      NextAllowed(files, accept, i, j);
    }
    assert outputFiles + [output] == OutputNames(allowed[..j + 1]) && AllSucceed(allowed[..j + 1])
           && pages == Processed(allowed[..j + 1], counts) by {
      PrefixStep(allowed, j, counts);
    }
    assert Schedule(allowed, [0] + (writes + [progress])) by {
      ScheduleStep(allowed, [0] + writes, pages);
      assert [0] + (writes + [progress]) == [0] + writes + [progress];
    }
  }

  /** A part that fails the extension check is skipped without changing the pass state. */
  lemma SkipPass(files: seq<FilePart>, accept: string -> bool, i: nat, counts: map<string, nat>, totalPages: nat,
                 pagesProcessed: nat, outputFiles: seq<string>, writes: seq<nat>)
    requires PassState(files, accept, i, counts, totalPages, pagesProcessed, outputFiles, writes)
    requires i < |files| && !accept(files[i].filename)
    ensures PassState(files, accept, i + 1, counts, totalPages, pagesProcessed, outputFiles, writes)
  {
  }

  /** After the last part, the pass state covers every allowed part. */
  lemma PassEnd(files: seq<FilePart>, accept: string -> bool, counts: map<string, nat>, totalPages: nat,
                pagesProcessed: nat, outputFiles: seq<string>, writes: seq<nat>)
    requires PassState(files, accept, |files|, counts, totalPages, pagesProcessed, outputFiles, writes)
    ensures AllSucceed(Allowed(files, accept)) && outputFiles == OutputNames(Allowed(files, accept))
    ensures |writes| == |Allowed(files, accept)| && (Allowed(files, accept) != [] ==> totalPages > 0)
  {
    var allowed := Allowed(files, accept);
    assert allowed[..|outputFiles|] == allowed;
  }

  /** What the second pass has established after the first `i` parts of the request:
      the parts it processed are the allowed parts among them, each succeeded, and the
      outputs, the processed pages and the progress writes are those of these parts. */
  ghost predicate PassState(files: seq<FilePart>, accept: string -> bool, i: nat, counts: map<string, nat>, totalPages: nat,
                            pagesProcessed: nat, outputFiles: seq<string>, writes: seq<nat>)
  {
    var allowed := Allowed(files, accept);
    && i <= |files| && |outputFiles| <= |allowed| && |writes| == |outputFiles|
    && AllowedAmong(files, accept, i) == allowed[..|outputFiles|]
    && outputFiles == OutputNames(allowed[..|outputFiles|])
    && AllSucceed(allowed[..|outputFiles|])
    && (outputFiles != [] ==> totalPages > 0)
    && (forall k :: 0 <= k < |allowed| ==> allowed[k].secureName in counts)
    && pagesProcessed == Processed(allowed[..|outputFiles|], counts)
    && Schedule(allowed, [0] + writes)
  }

  /** How the request ends, read off the allowed parts: no part gives no output; the engine
      failing on the first part stops the request; otherwise a page total of zero divides
      by zero right after it; otherwise the first failing part stops it; and when every
      part succeeds the result is the single output or the zip. */
  function Expected(allowed: seq<FilePart>, taskId: string): (outcome: IndexOutcome)
  {
    if allowed == [] then NoOutputs
    else if !allowed[0].ocrSucceeds then EngineFailed
    else if TotalPages(allowed) == 0 then ZeroDivision
    else if !AllSucceed(allowed) then EngineFailed
    else if |allowed| > 1 then Finished(ZipName(taskId))
    else Finished(OcrOutputName(allowed[0].secureName))
  }

  /** The conditions under which the request ends each way. */
  lemma ExpectedCases(allowed: seq<FilePart>, taskId: string)
    ensures Expected(allowed, taskId) == NoOutputs <==> allowed == []
    ensures Expected(allowed, taskId) == ZeroDivision <==>
              allowed != [] && allowed[0].ocrSucceeds && TotalPages(allowed) == 0
    ensures Expected(allowed, taskId).Finished? <==>
              allowed != [] && TotalPages(allowed) > 0 && AllSucceed(allowed)
    ensures Expected(allowed, taskId) == EngineFailed <==>
              !AllSucceed(allowed) && (allowed[0].ocrSucceeds ==> TotalPages(allowed) > 0)
  {
    if allowed != [] && !allowed[0].ocrSucceeds {
      assert !AllSucceed(allowed);
    }
  }

  /** What the request reports for the allowed parts `allowed`: it ends as `Expected` says,
      writes a schedule of progress values (followed by a final 100 when it finishes), stops
      on the first failing part when the engine fails, writes nothing after 0 when it ends
      without dividing, and with distinct names writes non-decreasing values up to 100. */
  predicate Reported(allowed: seq<FilePart>, taskId: string, outcome: IndexOutcome, written: seq<nat>)
  {
    && outcome == Expected(allowed, taskId)
    && |written| >= 1
    && (outcome.Finished? ==> |written| == |allowed| + 2 && written[|written| - 1] == 100
                              && Schedule(allowed, written[..|written| - 1]))
    && (!outcome.Finished? ==> Schedule(allowed, written))
    && (outcome == EngineFailed ==>
          |written| - 1 < |allowed| && !allowed[|written| - 1].ocrSucceeds && AllSucceed(allowed[..|written| - 1]))
    && (outcome == ZeroDivision || outcome == NoOutputs ==> written == [0])
    && (DistinctNames(allowed) ==> forall a, b :: 0 <= a <= b < |written| ==> written[a] <= written[b] <= 100)
  }

  /** The upload request for task `taskId` over the file parts `files`. Returns how it ends
      and, in order, every progress value it wrote under `taskId`. */
  method Index(store: ProgressStore, taskId: string, files: seq<FilePart>)
    returns (outcome: IndexOutcome, written: seq<nat>)
    modifies store
    ensures Reported(Allowed(files, AllowedFile), taskId, outcome, written)
    ensures store.files == old(store.files)[taskId := NatToString(written[|written| - 1])]
  {
    ghost var allowed := Allowed(files, AllowedFile);
    store.Update(taskId, 0);
    var totalPages, filePageCounts := CountPages(files, AllowedFile);
    var stop, outputFiles, writes := OcrPass(store, taskId, files, AllowedFile, totalPages, filePageCounts, old(store.files));
    PassOutcome(allowed, taskId, totalPages, stop, outputFiles, writes);
    if stop.Some? {
      return stop.value, [0] + writes;
    }
    var resultFile := ResultFile(taskId, outputFiles);
    if resultFile.None? {
      return NoOutputs, [0] + writes;
    }
    Overwrite(old(store.files), taskId, NatToString(([0] + writes)[|writes|]), NatToString(100));
    store.Update(taskId, 100);
    outcome, written := Finished(resultFile.value), [0] + writes + [100];
  }

  /** What the second pass returns determines what the request reports. */
  lemma PassOutcome(allowed: seq<FilePart>, taskId: string, totalPages: nat, stop: Option<IndexOutcome>,
                    outputFiles: seq<string>, writes: seq<nat>)
    requires totalPages == TotalPages(allowed) && Schedule(allowed, [0] + writes)
    requires stop.None? ==> AllSucceed(allowed) && outputFiles == OutputNames(allowed)
                            && |writes| == |allowed| && (allowed != [] ==> totalPages > 0)
    requires stop.Some? ==> Interrupted(allowed, totalPages, stop.value, writes)
    ensures stop.Some? ==> Reported(allowed, taskId, stop.value, [0] + writes)
    ensures stop.None? && ResultFile(taskId, outputFiles).None? ==> Reported(allowed, taskId, NoOutputs, [0] + writes)
    ensures stop.None? && ResultFile(taskId, outputFiles).Some? ==>
              Reported(allowed, taskId, Finished(ResultFile(taskId, outputFiles).value), [0] + writes + [100])
  {
    if stop.Some? {
      Stopped(allowed, taskId, totalPages, stop.value, writes);
    } else if allowed == [] {
      ProgressBounds(allowed, [0] + writes);
    } else {
      Finishes(allowed, taskId, totalPages, outputFiles, writes);
    }
  }

  /** A pass interrupted by an exception reports that exception with the values written so far. */
  lemma Stopped(allowed: seq<FilePart>, taskId: string, totalPages: nat, stop: IndexOutcome, writes: seq<nat>)
    requires totalPages == TotalPages(allowed) && Schedule(allowed, [0] + writes)
    requires Interrupted(allowed, totalPages, stop, writes)
    ensures Reported(allowed, taskId, stop, [0] + writes)
  {
    ProgressBounds(allowed, [0] + writes);
    if stop == EngineFailed && |writes| > 0 {
      assert allowed[..|writes|][0] == allowed[0];
      assert !AllSucceed(allowed);
    }
  }

  /** A pass over at least one part that ran to the end finishes with the single output or the
      zip, and the final 100 keeps the written values in order. */
  lemma Finishes(allowed: seq<FilePart>, taskId: string, totalPages: nat, outputFiles: seq<string>, writes: seq<nat>)
    requires totalPages == TotalPages(allowed) && Schedule(allowed, [0] + writes)
    requires AllSucceed(allowed) && outputFiles == OutputNames(allowed) && |writes| == |allowed| && allowed != [] && totalPages > 0
    ensures ResultFile(taskId, outputFiles).Some?
    ensures Reported(allowed, taskId, Finished(ResultFile(taskId, outputFiles).value), [0] + writes + [100])
  {
    var written := [0] + writes;
    ProgressBounds(allowed, written);
    if |allowed| == 1 {
      OutputNamesAt(allowed, 0);
    }
    assert (written + [100])[..|written|] == written;
  }

  lemma Overwrite(m: map<string, string>, k: string, a: string, b: string)
    ensures m[k := a][k := b] == m[k := b]
  {
  }

  /** The next allowed part met by the second pass is the next one of the whole list. */
  lemma NextAllowed(files: seq<FilePart>, accept: string -> bool, i: nat, j: nat)
    requires i < |files| && accept(files[i].filename)
    requires j <= |Allowed(files, accept)| && AllowedAmong(files, accept, i) == Allowed(files, accept)[..j]
    ensures j < |Allowed(files, accept)| && Allowed(files, accept)[j] == files[i]
    ensures AllowedAmong(files, accept, i + 1) == Allowed(files, accept)[..j + 1]
  {
    AllowedPrefix(files, accept, i + 1, |files|);
    var a := AllowedAmong(files, accept, i + 1);
    assert a[j] == files[i];
  }

  /** Extending the processed prefix by one part. */
  lemma PrefixStep(allowed: seq<FilePart>, j: nat, counts: map<string, nat>)
    requires j < |allowed|
    requires forall k :: 0 <= k < |allowed| ==> allowed[k].secureName in counts
    ensures Processed(allowed[..j + 1], counts) == Processed(allowed[..j], counts) + counts[allowed[j].secureName]
    ensures OutputNames(allowed[..j + 1]) == OutputNames(allowed[..j]) + [OcrOutputName(allowed[j].secureName)]
    ensures AllSucceed(allowed[..j]) && allowed[j].ocrSucceeds ==> AllSucceed(allowed[..j + 1])
  {
    assert allowed[..j + 1][..j] == allowed[..j];
  }

  /** Writing the progress of the next processed part extends the schedule. */
  lemma ScheduleStep(allowed: seq<FilePart>, written: seq<nat>, processed: nat)
    requires Schedule(allowed, written) && |written| <= |allowed| && TotalPages(allowed) > 0
    requires processed == Processed(allowed[..|written|], PageCounts(allowed))
    ensures Schedule(allowed, written + [Percent(processed, TotalPages(allowed))])
  {
    var extended := written + [Percent(processed, TotalPages(allowed))];
    forall k | 1 <= k < |extended|
      ensures extended[k] == ProgressAfter(allowed, k)
    {
      if k < |written| {
        assert extended[k] == written[k];
      }
    }
  }

  /** The bound part of the request's contract, for a schedule cut at any point. */
  lemma ProgressBounds(allowed: seq<FilePart>, written: seq<nat>)
    requires Schedule(allowed, written)
    ensures DistinctNames(allowed) ==> forall a, b :: 0 <= a <= b < |written| ==> written[a] <= written[b] <= 100
    ensures DistinctNames(allowed) && |written| == |allowed| + 1 && TotalPages(allowed) > 0 ==> written[|allowed|] == 100
    ensures DistinctNames(allowed) && |written| == |allowed| + 1 && TotalPages(allowed) > 0 ==>
              forall a, b :: 0 <= a <= b < |written| + 1 ==> (written + [100])[a] <= (written + [100])[b] <= 100
  {
    if DistinctNames(allowed) {
      ScheduleMonotone(allowed, written);
    }
  }
}
