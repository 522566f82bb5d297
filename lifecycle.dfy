/** How the two Next.js routes fit together: what the status endpoint answers after
    each transition the upload endpoint makes, and that transitions of one job leave
    the answers about every other job alone. */
module Lifecycle {
  import opened Text
  import opened UploadRoute
  import CheckStatusRoute

  /** The unique name of an upload whose own name passes the `.pdf` check passes it too. */
  lemma UniqueNameKeepsPdf(id: string, name: string)
    requires IsPdfName(name)
    ensures IsPdfName(UniqueFileName(id, name))
  {
    var key := UniqueFileName(id, name);
    ToLowerAppend(id + "_", name);
    assert ToLower(key)[|key| - 4..] == ToLower(name)[|name| - 4..];
  }

  /** Right after an accepted upload, the job is reported as processing with the time-based estimate. */
  lemma QueryAfterCreate(entries: map<string, Record>, key: string, startTime: int, now: int)
    requires key != ""
    ensures CheckStatusRoute.Get(Created(entries, key, startTime), Some(key), now)
         == CheckStatusRoute.Ongoing("processing", CheckStatusRoute.GetProgress(startTime, now))
  {
  }

  /** Once complete, a job is reported complete with progress 100 and its public output path,
      at every later time. */
  lemma QueryAfterComplete(entries: map<string, Record>, key: string, outputFileName: string, now: int)
    requires key in entries && key != ""
    ensures CheckStatusRoute.Get(Completed(entries, key, outputFileName), Some(key), now)
         == CheckStatusRoute.Complete(PublicPrefix + outputFileName)
  {
  }

  /** Once failed, a job is reported as an error with progress 0, and never as complete. */
  lemma QueryAfterFail(entries: map<string, Record>, key: string, now: int)
    requires key in entries && key != ""
    ensures CheckStatusRoute.Get(Failed(entries, key), Some(key), now) == CheckStatusRoute.Error
  {
  }

  /** Creating, completing or failing one job does not change what is reported about another. */
  lemma TransitionsIsolated(entries: map<string, Record>, key: string, other: Option<string>, now: int, startTime: int, outputFileName: string)
    requires other.Some? ==> other.value != key
    ensures CheckStatusRoute.Get(Created(entries, key, startTime), other, now) == CheckStatusRoute.Get(entries, other, now)
    ensures key in entries ==>
              CheckStatusRoute.Get(Completed(entries, key, outputFileName), other, now) == CheckStatusRoute.Get(entries, other, now)
    ensures key in entries ==>
              CheckStatusRoute.Get(Failed(entries, key), other, now) == CheckStatusRoute.Get(entries, other, now)
  {
  }

  /** An accepted upload followed by its OCR block: the job ends complete, at the public path
      `/uploads/<key without .pdf>_output.pdf`, exactly when the engine succeeded and the
      output file exists; otherwise it ends as an error. */
  lemma {:induction false} AcceptedJobOutcome(entries: map<string, Record>, id: string, name: string,
                                              startTime: int, engineSucceeded: bool, outputExists: bool, now: int)
    requires IsPdfName(name)
    ensures var key := UniqueFileName(id, name);
            var created := Created(entries, key, startTime);
            var finished := if engineSucceeded && outputExists then Completed(created, key, OutputFileName(key))
                            else Failed(created, key);
            CheckStatusRoute.Get(finished, Some(key), now)
              == if engineSucceeded && outputExists
                 then CheckStatusRoute.Complete("/uploads/" + key[..|key| - 4] + "_output.pdf")
                 else CheckStatusRoute.Error
  {
    var key := UniqueFileName(id, name);
    UniqueNameKeepsPdf(id, name);
    OutputFileNameOfPdf(key);
    assert key != "";
  }

  /** The store keeps no guard on terminal records: a completed job that is failed afterwards
      is reported as an error, and a key that is uploaded again starts over as processing. */
  lemma NoTerminalGuard(entries: map<string, Record>, key: string, outputFileName: string, now: int, startTime: int)
    requires key in entries && key != ""
    ensures CheckStatusRoute.Get(Failed(Completed(entries, key, outputFileName), key), Some(key), now) == CheckStatusRoute.Error
    ensures CheckStatusRoute.Get(Created(Completed(entries, key, outputFileName), key, startTime), Some(key), now).Ongoing?
  {
  }

  /** A job created at time 0 is at 50% after 60 s and capped at 99% after 125 s; once
      complete it is at 100% with its output path, whatever the time. */
  lemma ProgressScenario(entries: map<string, Record>)
    ensures var m := Created(entries, "J1_scan.pdf", 0);
            && CheckStatusRoute.Get(m, Some("J1_scan.pdf"), 60000) == CheckStatusRoute.Ongoing("processing", 50.0)
            && CheckStatusRoute.Get(m, Some("J1_scan.pdf"), 125000) == CheckStatusRoute.Ongoing("processing", 99.0)
            && CheckStatusRoute.Get(Completed(m, "J1_scan.pdf", OutputFileName("J1_scan.pdf")), Some("J1_scan.pdf"), 125000)
               == CheckStatusRoute.Complete("/uploads/" + "J1_scan" + "_output.pdf")
  {
    ScenarioOutputPath();
  }

  /** The output name and the public path of the scenario's upload. */
  lemma ScenarioOutputPath()
    ensures OutputFileName("J1_scan.pdf") == "J1_scan" + "_output.pdf"
    ensures PublicPrefix + OutputFileName("J1_scan.pdf") == "/uploads/" + "J1_scan" + "_output.pdf"
  {
    ScenarioStem();
  }

  /** Stripping the scenario's extension leaves its stem. */
  lemma ScenarioStem()
    ensures StripExtension("J1_scan.pdf") == "J1_scan"
  {
    var key := "J1_scan.pdf";
    assert key[7] == '.' && ExtensionTail(key, 7);
    StripExtensionRemoves(key, 7);
  }
}
