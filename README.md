# OCR upload service — a Dafny model of its request logic

The service accepts PDF uploads, runs an OCR engine on them and lets clients poll
for progress. It has two front ends, and this project models the logic of both
around the engine call:

* **Next.js upload route** (`upload_route.dfy`, module `UploadRoute`). It
  validates the upload and keeps a process-wide status store keyed by the
  unique upload name. An accepted upload gets a `processing` record. The
  detached OCR block later moves that record to `complete` or `error`. The
  store is a class over a `map<string, Record>`, with `Create`, `Complete` and
  `Fail` methods. `Post` is the request and `RunOcr` is the detached block,
  called later.
* **Next.js status route** (`check_status_route.dfy`, module
  `CheckStatusRoute`). A read-only function from the store, the `fileId`
  parameter and the clock to one of four reply shapes. It includes the
  time-based estimate `min(elapsed / 120000 * 100, 99)`, in exact `real`
  arithmetic.
* **Both Next.js routes together** (`lifecycle.dfy`, module `Lifecycle`). What
  the status route answers after each transition of the upload route, and that
  a transition of one job changes no answer about another.
* **Flask helpers** (`flask_app.dfy`, module `FlaskApp`):
  * the extension check `allowed_file`;
  * the `-l` language flag;
  * the `-ocr.pdf` output name;
  * the `progress/<task id>.txt` files, as a class over a
    `map<string, string>` field.
* **Flask upload request** (`flask_index.dfy`, module `FlaskIndex`). The
  first loop counts the pages of every allowed file. The second loop runs the
  engine on each allowed file and writes the page-weighted progress after each.
  The request then answers with the single output or a zip. Both loops are
  `while` loops with invariants. The request's contract is the predicate
  `Reported`, stated against the reference function `Expected` and the
  progress schedule `Schedule`.
* **String helpers** (`text.dfy`, module `Text`): ASCII lower-casing, the last
  occurrence of a character, join/split, decimal rendering and parsing, and
  whitespace stripping.

The model follows the code. The status store has no duplicate-key check and no
guard on finished jobs: an upload under an existing key overwrites its record,
and a finished record can be failed again (`Lifecycle.NoTerminalGuard`).

Inputs from the environment are parameters:

* the random upload id and the Flask task id;
* the clock;
* whether the OCR engine succeeds and whether its output file exists;
* the page count of each file (0 when it cannot be read);
* the name a file is saved under after sanitising;
* the message of a storage failure.

## Model

| member | source | states |
|---|---|---|
| `UploadRoute.Validate` | myapp/src/app/api/upload/route.ts:19-25 | A missing file is rejected with "File is required". A name whose lower-cased form does not end in `.pdf` is rejected with "Only PDF files are supported". Every other name is accepted unchanged. |
| `UploadRoute.IsPdfName` | myapp/src/app/api/upload/route.ts:23 | The name check `toLowerCase().endsWith('.pdf')`. A name passing it has at least four characters; `FlaskApp.PdfNameLowerTail` reduces it to the last four. |
| `UploadRoute.PdfNameTail` | myapp/src/app/api/upload/route.ts:23 | A name passing the `.pdf` check has a dot four characters from the end, and no dot or slash after it. |
| `UploadRoute.UniqueFileName` | myapp/src/app/api/upload/route.ts:33 | The key is the id, an underscore and the uploaded name, and both parts can be recovered from it. |
| `UploadRoute.StripExtension` | myapp/src/app/api/upload/route.ts:38 | `/\.[^/.]+$/` removal returns a prefix of the name. When it changes the name, it cut at a dot that is followed by at least one character and has no dot or slash after it. |
| `UploadRoute.StripExtensionRemoves` | myapp/src/app/api/upload/route.ts:38 | Whenever a dot starts a removable extension, the removal cuts exactly there. |
| `UploadRoute.OutputFileName` | myapp/src/app/api/upload/route.ts:38 | The output name ends in `_output.pdf`, and what comes before that suffix is a prefix of the key. |
| `UploadRoute.OutputFileNameOfPdf` | myapp/src/app/api/upload/route.ts:38 | For a key ending in `.pdf` in any case, the output name is the key minus its last four characters, plus `_output.pdf`. |
| `UploadRoute.Created` | myapp/src/app/api/upload/route.ts:40 | The key holds `processing`, an empty output path, the start time and progress 0, overwriting any old record. Other keys are unchanged, and well-formedness of the store is preserved. |
| `UploadRoute.Completed` | myapp/src/app/api/upload/route.ts:53-58 | The record becomes `complete` with progress 100, the public path `/uploads/<output name>` and the old start time. The key set and other entries are unchanged. |
| `UploadRoute.CompletedRecordWellFormed` | myapp/src/app/api/upload/route.ts:55 | A completed record's path starts with `/uploads/` and ends with `_output.pdf`. |
| `UploadRoute.CompletedWellFormed` | myapp/src/app/api/upload/route.ts:53-58 | Completing a job with an `_output.pdf` name keeps every record's sentinels: `complete` with 100 and a public `_output.pdf` path. |
| `UploadRoute.Failed` | myapp/src/app/api/upload/route.ts:64-65 | The status becomes `error` and progress 0. The output path, the start time, the key set and other entries are unchanged. |
| `UploadRoute.StatusStore.constructor` | myapp/src/app/api/upload/route.ts:11 | The store starts empty. |
| `UploadRoute.StatusStore.Create` | myapp/src/app/api/upload/route.ts:40 | The store becomes `Created(old store, key, now)`, and the sentinel invariant is kept. |
| `UploadRoute.StatusStore.Complete` | myapp/src/app/api/upload/route.ts:51-58 | The store becomes `Completed(old store, key, name)`, and the sentinel invariant is kept. |
| `UploadRoute.StatusStore.Fail` | myapp/src/app/api/upload/route.ts:62-65 | The two field writes leave the store as `Failed(old store, key)`, and the sentinel invariant is kept. |
| `UploadRoute.StatusStore.Post` | myapp/src/app/api/upload/route.ts:13-81 | The HTTP status is 400 for a missing file or a non-PDF name, 500 for a storage failure and 200 otherwise. A missing file and a non-PDF name carry their fixed messages, and a storage failure carries its message. None of these touches the store. Otherwise the reply carries the key `id_name`, and the store holds a fresh processing record under it. |
| `UploadRoute.StatusStore.RunOcr` | myapp/src/app/api/upload/route.ts:42-67 | With engine success and the output present, the record is completed with `OutputFileName(key)`. Otherwise it is failed. |
| `CheckStatusRoute.GetProgress` | myapp/src/app/api/check-status/route.ts:26-30 | The estimate is never above 99. It is at least 0 exactly when the clock has not gone back. It is 99 exactly from 118.8 s on, and before that it equals elapsed/1200. |
| `CheckStatusRoute.GetProgressMonotone` | myapp/src/app/api/check-status/route.ts:26-30 | The estimate does not decrease as time passes. |
| `CheckStatusRoute.GetProgressShift` | myapp/src/app/api/check-status/route.ts:27 | The estimate depends only on the elapsed time. |
| `CheckStatusRoute.Get` | myapp/src/app/api/check-status/route.ts:4-24 | Not found with 404, status `not_found` and progress 0 exactly when the id is missing, empty or unknown. A known id gets 200 and its stored status name. `complete` gives progress 100 and the stored path. `error` gives progress 0. Any other status is reported as processing with the time estimate. Progress is never above 100. |
| `CheckStatusRoute.GetProgressNonNegative` | myapp/src/app/api/check-status/route.ts:22-23 | While the clock has not gone back past the start, the reported progress is between 0 and 100. |
| `Lifecycle.UniqueNameKeepsPdf` | myapp/src/app/api/upload/route.ts:33 | Prefixing the id keeps an accepted name accepted. |
| `Lifecycle.QueryAfterCreate` | myapp/src/app/api/check-status/route.ts:22-23 | Right after an accepted upload, the job reads as processing with the time estimate. |
| `Lifecycle.QueryAfterComplete` | myapp/src/app/api/check-status/route.ts:15-16 | A completed job reads as complete with its public output path, at any time. |
| `Lifecycle.QueryAfterFail` | myapp/src/app/api/check-status/route.ts:17-18 | A failed job reads as error. |
| `Lifecycle.TransitionsIsolated` | myapp/src/app/api/upload/route.ts:40-65 | Creating, completing or failing one job changes no reply about any other id. |
| `Lifecycle.AcceptedJobOutcome` | myapp/src/app/api/upload/route.ts:42-67 | After an accepted upload and its OCR block, the job reads complete at `/uploads/<key without .pdf>_output.pdf` exactly when the engine succeeded and the output exists, and error otherwise. |
| `Lifecycle.NoTerminalGuard` | myapp/src/app/api/upload/route.ts:40 | A completed job that is failed reads as error, and a re-upload of its key reads as processing again. |
| `Lifecycle.ProgressScenario` | myapp/src/app/api/check-status/route.ts:29 | A job started at 0 is at 50 after 60 s, is capped at 99 after 125 s, and reads complete with its output path once completed. |
| `FlaskApp.AllowedFile` | app.py:21-22 | `allowed_file`: the name has a dot and the text after the last dot, lower-cased, is `pdf`. An allowed name contains a dot and has at least four characters; `FlaskApp.AllowedFileIsPdfName` states exactly which names pass. |
| `FlaskApp.AllowedFileIsPdfName` | app.py:21-22 | `allowed_file` accepts exactly the names whose last four characters, lower-cased, are `.pdf`. These are the same names the Next.js route accepts. |
| `FlaskApp.PdfNameLowerTail` | myapp/src/app/api/upload/route.ts:23 | The Next.js `.pdf` check depends only on the last four characters, lower-cased. |
| `FlaskApp.AllowedFileIgnoresCase` | app.py:22 | `a.PDF` is allowed. |
| `FlaskApp.AllowedFileNeedsDot` | app.py:22 | `pdf` is not allowed: it has no dot. |
| `FlaskApp.AllowedFileLastExtension` | app.py:22 | `a.pdf.txt` is not allowed: only the last extension counts. |
| `FlaskApp.LanguageFlag` | app.py:50-53 | The flag is `eng` for no selection, and otherwise begins with the first selection; `FlaskApp.LanguageFlagSplits` states its whole content. |
| `FlaskApp.LanguageFlagSplits` | app.py:50-53 | Split back on `+`, the flag is `eng` for no selection, and otherwise the first `min(3, n)` selections in order. It lists between one and three languages. |
| `FlaskApp.OcrOutputName` | app.py:80 | The output name ends in `-ocr.pdf`. |
| `FlaskApp.OcrOutputNameStem` | app.py:80 | The stem is the whole name when it has no dot. Otherwise it is the prefix before the last dot. |
| `FlaskApp.OcrOutputNameOfAllowed` | app.py:80 | For an allowed name, the final `.pdf` (in any case) is replaced by `-ocr.pdf`. `index()` checks `allowed_file` on the client's name but builds the output from the `secure_filename` result (app.py:76-80), so this lemma does not apply to a request as such. It describes `OcrOutputName` on names that pass the check. |
| `FlaskApp.ProgressTextReadsBack` | app.py:35 | The text `str(p)` survives `strip()` and parses back to `p`. |
| `FlaskApp.ReadProgress` | app.py:37-42 | A task without a progress file reads as `"0"`. |
| `FlaskApp.ReadAfterWrite` | app.py:32-42 | After `update_progress(id, p)`, `get_progress(id)` is `str(p)` and parses to `p`. Every other task reads as before. |
| `FlaskApp.ProgressStore.constructor` | app.py:18-19 | Models a newly created `progress/` folder: no task has a progress file yet. A folder left from an earlier run is any other store, on which `FlaskIndex.Index` works as well. |
| `FlaskApp.ProgressStore.Update` | app.py:32-35 | The file of that task id now holds `str(p)`, and no other file changes. |
| `Text.ToLower` | myapp/src/app/api/upload/route.ts:23 | Stand-in for `toLowerCase` / `lower`: the result has the length of the input, each ASCII capital lowered and every other character kept. |
| `Text.LastIndexOf` | app.py:22 | Stand-in for the split point of `rsplit('.', 1)`: -1 or the index of an occurrence of the character; `Text.LastIndexOfIsLast` shows it is the last one. |
| `Text.Join` | app.py:53 | Stand-in for `'+'.join`: one part joins to itself, and the join begins with the first part; `Text.SplitJoin` states the whole content. |
| `Text.NatToString` | app.py:35 | Stand-in for `str` of a natural number: at least one character, all decimal digits, no leading zero, and a single digit exactly below 10. |
| `Text.Strip` | app.py:41 | Stand-in for `strip()`: the result is a slice of the input with only whitespace around it, it neither starts nor ends with whitespace, and a text without whitespace is kept as is. |
| `Text.StripUnique` | app.py:41 | Any slice with only whitespace around it and none at its ends is the stripped text, so `Strip` is fully determined by its contract. |
| `Text.LastIndexOfIsLast` | app.py:22 | The split point of `rsplit('.', 1)` is the last dot, and there is none exactly when the name has no dot. |
| `Text.SplitJoin` | app.py:53 | Splitting a `+`-join gives back the parts, provided none of them contains `+`. |
| `Text.ParseNatToString` | app.py:35 | `str` of a natural number parses back to that number. |
| `Text.StripNatToString` | app.py:41 | `strip()` leaves the text of a number unchanged. |
| `FlaskIndex.AllowedMembers` | app.py:66-67 | A file part is processed exactly when it is in the request and passes the extension check. |
| `FlaskIndex.AllowedPrefix` | app.py:75-76 | The parts the second loop has accepted so far are a prefix of all allowed parts, in request order. |
| `FlaskIndex.TotalPagesPrefix` | app.py:73 | The pages of a prefix never exceed the total. |
| `FlaskIndex.PageCounts` | app.py:72 | Every saved name of an allowed part is a key of the page-count dictionary. |
| `FlaskIndex.PageCountsLast` | app.py:72 | A name maps to the page count of the last part saved under it. |
| `FlaskIndex.ProcessedDistinct` | app.py:96 | With distinct saved names, the pages looked up for the first `k` parts are those parts' own pages. |
| `FlaskIndex.Percent` | app.py:97 | The written progress is the floor of `100 * processed / total`: the largest `p` with `p * total <= 100 * processed`. |
| `FlaskIndex.PercentMonotone` | app.py:97 | The progress percentage does not decrease as processed pages grow. |
| `FlaskIndex.PercentOfWhole` | app.py:97 | All pages processed gives exactly 100. |
| `FlaskIndex.ScheduleValue` | app.py:96-98 | With distinct names, the `k`-th value written is the page-weighted share of the first `k` allowed parts. |
| `FlaskIndex.ScheduleMonotone` | app.py:95-98 | With distinct names, the written progress never decreases, never exceeds 100, and is 100 after the last allowed part. |
| `FlaskIndex.ScheduleStep` | app.py:96-98 | Writing the progress of the next part extends the schedule. |
| `FlaskIndex.ProgressBounds` | app.py:110 | With distinct names, appending the final 100 to a complete schedule keeps it non-decreasing. |
| `FlaskIndex.RepeatedNamesOvershoot` | app.py:72 | Two files saved under one name (2 and 5 pages): the dictionary keeps 5 for both lookups, so the last progress written is 142, not 100. |
| `FlaskIndex.ResultFile` | app.py:100-108 | Several outputs give `ocr_results_<task>.zip`, one output gives that output, and none gives no result (the list index fails). |
| `FlaskIndex.OutputNames` | app.py:93 | One output name per processed part. |
| `FlaskIndex.OutputNamesAt` | app.py:80 | The `k`-th output is the `-ocr.pdf` name of the `k`-th processed part. |
| `FlaskIndex.ExpectedCases` | app.py:75-108 | The request produces no outputs exactly when no part is allowed. It divides by zero exactly when the first allowed part succeeds and there are no pages. It finishes exactly when there are pages and every allowed part succeeds. The engine fails exactly when some part fails and the failure is reached. |
| `FlaskIndex.CountPages` | app.py:64-73 | The first loop returns the page total and the page-count dictionary of the allowed parts. |
| `FlaskIndex.OcrPass` | app.py:75-98 | The second loop writes a progress schedule, and the store holds its last value. When it runs to the end, every allowed part succeeded and the outputs are their `-ocr.pdf` names. When it stops, it stops at the first failing part, or divides by zero before writing anything. |
| `FlaskIndex.OcrFile` | app.py:76-98 | One allowed part either stops the pass (engine failure or zero total) without writing, or extends outputs, pages and schedule by that part and writes the new progress. |
| `FlaskIndex.PassOutcome` | app.py:92-110 | Whatever the second loop returns, the request reports as `Expected` says. |
| `FlaskIndex.Stopped` | app.py:92-97 | An interrupted pass ends as `Expected` says, with the values written so far. |
| `FlaskIndex.Finishes` | app.py:100-110 | A pass over allowed parts that ran to the end finishes with the single output or the zip, followed by a final 100. |
| `FlaskIndex.Index` | app.py:44-111 | The request ends as `Expected` says: no allowed part, zero pages, the first engine failure, or the result file. It writes 0 first and then the schedule, plus a final 100 when it finishes. With distinct names the values never decrease and stay within 100. The store holds the last value written. |

## Left out

- Docker, `exec` and `subprocess.run` are not modelled, and neither is the command line built for them. The language flag is computed (`FlaskApp.LanguageFlag`) but is not passed into `FlaskIndex.Index`.
- File-system effects are not modelled: writing the upload, creating directories, checking that the output exists, saving parts, zipping and sending files. In the Next.js route their outcomes are boolean or text inputs (the output file exists, the storage error message).
- `nanoid`, `uuid.uuid4` and `Date.now()` are not modelled; they are parameters.
- The `PdfReader` page count is not modelled. It is the `pages` field of each part, 0 when the file cannot be read.
- `werkzeug.utils.secure_filename` is not modelled. The sanitised name is the `secureName` field of each part.
- Failures of `req.formData()` itself are not modelled. Only the storage failure path of the 500 reply is.
- A `file` form field that holds a non-empty text value rather than a file is not modelled. Its `name` is undefined, so `file.name.toLowerCase()` throws a TypeError (myapp/src/app/api/upload/route.ts:23). The catch block then replies 500 (myapp/src/app/api/upload/route.ts:73-80), and no record is created. `file: Option<string>` can only say whether a file part with a name is present. An empty text value is falsy, so it takes the missing-file 400 path (myapp/src/app/api/upload/route.ts:19-21), which is `Post` with `file == None`.
- The constant `message` field of the 200 upload reply (myapp/src/app/api/upload/route.ts:69-72) is not modelled. `Accepted` carries only the `fileId`.
- Logging (`console.log`/`console.error` in the Next.js routes, `print` in app.py) is not modelled, since it changes no state the model observes.
- The `languages` form field of the Next.js route is not modelled, because it only feeds the engine command.
- The Flask `GET` page, the `/progress/<task_id>` JSON wrapper and the download routes are not modelled. They only render templates or wrap `get_progress`.
- The React form, the page markup and the Next.js configuration are not modelled. They hold UI state and settings only.
- Concurrency is not modelled. The unawaited OCR block is a later call (`RunOcr`), and no interleavings are considered.
- Lower-casing covers ASCII only. JavaScript `toLowerCase` and Python `lower` also map other Unicode letters.
- `strip()` removes only space, tab, newline, carriage return, vertical tab, form feed and the separators 0x1C to 0x1F. Python also strips Unicode spaces such as 0x85 and 0xA0.
- FlaskIndex.Index: assumes that saving each part (`file.save`) and writing each output into the zip (`zf.write`) succeed. An engine run that exits successfully but leaves no output file makes the zip write raise before the final `update_progress(task_id, 100)`, while the model reports `Finished` with the zip name and a final 100. A single output is returned by name without being opened, so only the zip branch is affected.
- Keys that collide with JavaScript object-prototype properties are not modelled: the store is a plain map.
- `UploadRoute.StatusStore.Complete` and `UploadRoute.StatusStore.Fail` require the key to be in the store. In the code the record is always created before the detached block runs, and nothing deletes records.
- `FlaskIndex.Percent` models `int((pages_processed / total_pages) * 100)` as the exact integer `100 * pages_processed / total_pages`. A Python float can land one lower (`29 / 100 * 100` gives 28), so the schedule lemmas describe exact arithmetic.
- `CheckStatusRoute.GetProgress` uses exact `real` arithmetic rather than IEEE doubles.
- The `file and` test before `allowed_file` is not modelled separately. A part with an empty name is falsy, and such a part fails `allowed_file` anyway.
- `FlaskApp.AllowedFile` writes membership in the one-element extension set as equality with `pdf`.
- The second loop is written once over any extension check (`accept`); `FlaskIndex.Index` instantiates it with `FlaskApp.AllowedFile`.
- `FlaskApp.ProgressStore.Get` carries no contract of its own. Its meaning is stated by `FlaskApp.ReadProgress` and `FlaskApp.ReadAfterWrite`.
