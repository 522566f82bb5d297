/** The status endpoint of the Next.js front end: a read-only lookup of the status
    store that answers with one of four reply shapes, and the time-based progress
    estimate it reports for a job that is still running. */
module CheckStatusRoute {
  import opened Text
  import UploadRoute

  /** The assumed duration of one OCR run, in milliseconds. */
  const ProcessingDuration: real := 120000.0

  /** The progress estimate for a job started at `startTime` (milliseconds), asked at
      `now`: elapsed time over the assumed duration, as a percentage, capped at 99.
      It is a heuristic and never reaches 100. It is not clamped below, so a clock
      that runs backwards gives a negative estimate. */
  function GetProgress(startTime: int, now: int): (p: real)
    ensures p <= 99.0
    ensures p >= 0.0 <==> now >= startTime
    ensures p == 99.0 <==> now - startTime >= 118800
    ensures p < 99.0 ==> p * 1200.0 == (now - startTime) as real
  {
    var estimate := (now - startTime) as real / ProcessingDuration * 100.0;
    if estimate <= 99.0 then estimate else 99.0
  }

  /** The estimate never decreases as time passes. */
  lemma GetProgressMonotone(startTime: int, now1: int, now2: int)
    requires now1 <= now2
    ensures GetProgress(startTime, now1) <= GetProgress(startTime, now2)
  {
  }

  /** The estimate only depends on the time elapsed since the start. */
  lemma GetProgressShift(startTime: int, now: int, d: int)
    ensures GetProgress(startTime + d, now + d) == GetProgress(startTime, now)
  {
  }

  /** The four shapes of the status reply. */
  datatype Response =
    | NotFound
    | Complete(outputFilePath: string)
    | Error
    | Ongoing(status: string, progress: real)
  {
    function HttpStatus(): int
    {
      if NotFound? then 404 else 200
    }

    /** The `status` field of the JSON body. */
    function StatusField(): string
    {
      match this
      case NotFound => "not_found"
      case Complete(_) => "complete"
      case Error => "error"
      case Ongoing(status, _) => status
    }

    /** The `progress` field of the JSON body. */
    function ProgressField(): real
    {
      match this
      case NotFound => 0.0
      case Complete(_) => 100.0
      case Error => 0.0
      case Ongoing(_, progress) => progress
    }
  }

  /** Whether the query names a stored job: the `fileId` parameter is present, not empty,
      and has an entry. */
  predicate Known(statusStore: map<string, UploadRoute.Record>, fileId: Option<string>)
  {
    fileId.Some? && fileId.value != "" && fileId.value in statusStore
  }

  /** The status request for `fileId` (absent when the query parameter is missing),
      answered at time `now`. */
  function Get(statusStore: map<string, UploadRoute.Record>, fileId: Option<string>, now: int): (r: Response)
    ensures r.NotFound? <==> !Known(statusStore, fileId)
    ensures r.NotFound? ==> r.HttpStatus() == 404 && r.StatusField() == "not_found" && r.ProgressField() == 0.0
    ensures Known(statusStore, fileId) ==> r.HttpStatus() == 200
    ensures Known(statusStore, fileId) ==> r.StatusField() == statusStore[fileId.value].status.Name()
    ensures r.Complete? <==> Known(statusStore, fileId) && statusStore[fileId.value].status == UploadRoute.Complete
    ensures r.Complete? ==> r.outputFilePath == statusStore[fileId.value].outputFilePath && r.ProgressField() == 100.0
    ensures r.Error? <==> Known(statusStore, fileId) && statusStore[fileId.value].status == UploadRoute.Error
    ensures r.Error? ==> r.ProgressField() == 0.0
    ensures r.Ongoing? ==> r.status == "processing" && r.progress <= 99.0
    ensures r.Ongoing? ==> r.progress == GetProgress(statusStore[fileId.value].startTime, now)
    ensures r.ProgressField() <= 100.0
  {
    if fileId.None? || fileId.value == "" || fileId.value !in statusStore then NotFound
    else
      var rec := statusStore[fileId.value];
      if rec.status == UploadRoute.Complete then Complete(rec.outputFilePath)
      else if rec.status == UploadRoute.Error then Error
      else Ongoing(rec.status.Name(), GetProgress(rec.startTime, now))
  }

  /** The reported progress is at least 0 once the clock has not gone back past the start. */
  lemma GetProgressNonNegative(statusStore: map<string, UploadRoute.Record>, fileId: Option<string>, now: int)
    requires Known(statusStore, fileId) ==> now >= statusStore[fileId.value].startTime
    ensures 0.0 <= Get(statusStore, fileId, now).ProgressField() <= 100.0
  {
  }
}
