# Imagen3Server: verified model of the request engine

`Imagen3Server/imagen3_server.py` reads text prompts from a file and asks a remote image service for one image per prompt. Several worker threads share one sliding-window rate limiter. Each prompt gets a bounded number of retries, and every image that comes back is saved into a fresh output folder (`images`, or the first free one of `images1`, `images2`, …). This project models the sequential logic of that file in Dafny and proves properties of it. The modules are:

- **RateLimiting** (`rate_limiter.dfy`): the `RateLimiter` class.
  - One locked pass of `acquire` is a method on a class whose `calls` field holds the admission log.
  - The same pass is also a pure function, `Step`.
  - Proved:
    - admission happens exactly when fewer than `max_calls` entries survive pruning;
    - pruning removes a prefix;
    - on refusal, the wait is strictly positive, and it is exactly the time until the next pass can be admitted (`WaitIsEarliestAdmission`);
    - with `max_calls <= 0`, refusal hits an empty deque (Python raises `IndexError` at line 33);
    - the log stays sorted under a clock that does not run backwards.
  - The limiter's real promise is proved for any run of passes from a fresh limiter, with `period > 0` and `max_calls >= 0`, whose clock readings never decrease (`QuotaHolds`): no trailing window of `period` ticks holds more than `max_calls` admissions. Conversely, a pass is refused only when its own trailing window is already full (`AdmitIffRoom`).
  - The clock hypothesis is needed: with readings that step backwards, a window can overflow (`ClockStepBackBreaksQuota`).
- **Retry** (`retry.dfy`): the retry loop of `generate_image`.
  - The remote service is a script of replies: a response, a blocked prompt, or an exception.
  - The imperative loop is proved equal to a recursive specification, `Run`, which also counts `acquire` calls, `retries` increments and sleeps.
  - The lemmas cover:
    - what the counter counts;
    - how many sleeps happen;
    - which reply decides the outcome;
    - when an image is returned;
    - what happens on exhaustion.
- **Prompts** (`prompts.dfy`): the line filter of `load_prompts_from_file`, as a loop proved against a filter function. Proved:
  - membership in both directions;
  - order (the filter distributes over concatenation);
  - every prompt is non-empty and stripped;
  - reloading is idempotent.
- **Folders** (`folders.dfy`): `get_image_folder` over a set of existing paths. It returns the first free name and fails exactly when all names are taken. Also proved:
  - failure needs at least `max_index + 1` existing paths;
  - two successive calls never pick the same folder.
- **Saving** (`saving.dfy`): the result loop of `main`.
  - Indices start at 1, results are visited in submission order, and a pair of files is saved exactly for the tasks that returned an image.
  - No two written paths coincide, and the index can be read back from a file name.
- **PythonWhitespace** (`whitespace.dfy`): Python's 29 whitespace characters listed one by one, proved to be exactly the characters `Text.IsSpace` accepts.
- **Text** (`text.dfy`): Python's `str.strip()` (with Python's whitespace set), `str(n)` and `{n:05d}`, together with a decimal parser that inverts the last two.
- **Options** (`options.dfy`): `Option` and `Result`.

Clock readings are integer ticks passed in as `now`. Nothing here performs I/O: the file system is a set of paths, a file is its lines or a read error, and a saved file is a value.

Two behaviours of the code are worth knowing:

- An empty or unusable response (no images, no image in the first entry, or empty bytes) is retried without incrementing `retries` and without sleeping (lines 58-64). Only exceptions count against `max_retries`. So a service that keeps returning such responses is called again and again with no bound (`Retry.EmptyResponsesAreFree`).
- With `max_calls <= 0`, `acquire` does not wait forever. Reading `self.calls[0]` on the empty deque raises `IndexError` (line 33), which is `Decision.EmptyWindowFault`.

## Model

| member | source | states |
|---|---|---|
| RateLimiting.Max0 | Imagen3Server/imagen3_server.py:36 | `max(0, x)`: at least 0, at least `x`, and equal to one of them |
| RateLimiting.Prune | Imagen3Server/imagen3_server.py:24-25 | popping expired entries from the front never lengthens the log |
| RateLimiting.PruneIsSuffix | Imagen3Server/imagen3_server.py:24-25 | what pruning leaves is a suffix of the log: only a prefix is removed |
| RateLimiting.PruneStopsAtFirstLive | Imagen3Server/imagen3_server.py:24-25 | every removed entry is `<= now - period`, and the new front (if any) is later than that |
| RateLimiting.RateLimiter.constructor | Imagen3Server/imagen3_server.py:13-17 | stores `max_calls` and `period`; the log starts empty |
| RateLimiting.RateLimiter.Acquire | Imagen3Server/imagen3_server.py:19-36 | one locked pass agrees with `Step`: admits iff fewer than `max_calls` survive pruning, then appends `now`; on refusal the pruned log is kept and the wait is `max(0, calls[0] + period - now)`, strictly positive; the `IndexError` case happens exactly when `max_calls <= 0` and the pruned log is empty; a log within `max_calls` stays within it |
| RateLimiting.Step | Imagen3Server/imagen3_server.py:22-36 | one locked pass as a value: an admitted pass ends the log with `now` and grows it by at most one; any other pass never grows it; the empty-deque fault leaves an empty log (`StepDecides` gives the full table) |
| RateLimiting.StepDecides | Imagen3Server/imagen3_server.py:24-36 | the decision table of one pass: admit iff pruned length < `max_calls`, the new log in each case, a strictly positive wait equal to `calls[0] + period - now`, and the empty-deque fault iff `max_calls <= 0` with nothing left |
| RateLimiting.WaitIsEarliestAdmission | Imagen3Server/imagen3_server.py:31-36 | the wait is "the earliest possible time of the next call": on a log within `max_calls`, after a refusal with wait `d`, a pass at any `later` is admitted iff `later >= now + d` |
| RateLimiting.StepKeepsBound | Imagen3Server/imagen3_server.py:27-29 | a log of at most `max_calls` entries stays so after a pass |
| RateLimiting.StepLeavesOnlyRecent | Imagen3Server/imagen3_server.py:24-29 | on a sorted log with a positive period, every entry left after a pass is later than `now - period` |
| RateLimiting.PruneKeepsSorted | Imagen3Server/imagen3_server.py:24-25 | pruning a sorted log leaves it sorted, with every entry later than the cutoff |
| RateLimiting.PruneOfSortedIsAbove | Imagen3Server/imagen3_server.py:24-25 | on a sorted log, front pruning removes exactly the expired entries: the result is every entry later than the cutoff |
| RateLimiting.StepKeepsSorted | Imagen3Server/imagen3_server.py:24-28 | with `now` no earlier than any entry, a pass keeps the log sorted oldest first and no later than `now` |
| RateLimiting.StepKeepsRunInvariant | Imagen3Server/imagen3_server.py:19-36 | a pass at a reading no earlier than the last keeps the run invariant: sorted admissions, the log equal to the admissions of the trailing period, every trailing window within quota |
| RateLimiting.ReplayInvariant | Imagen3Server/imagen3_server.py:19-36 | after any run of passes from a fresh limiter on a non-decreasing clock, the run invariant holds |
| RateLimiting.QuotaHolds | Imagen3Server/imagen3_server.py:19-39 | the limiter's promise: from a fresh limiter, with `period > 0`, `max_calls >= 0` and clock readings that never decrease, no interval `(t - period, t]` contains more than `max_calls` admissions |
| RateLimiting.AdmitIffRoom | Imagen3Server/imagen3_server.py:19-39 | the converse of the quota: after a run on a clock that never decreases, a pass at a reading no earlier than the last is admitted iff the interval `(now - period, now]` holds fewer than `max_calls` admissions, so the limiter never refuses while there is room |
| RateLimiting.WindowIsRecentAdmissions | Imagen3Server/imagen3_server.py:24-27 | after such a run, the deque pruned at `now` holds exactly as many timestamps as there were admissions in `(now - period, now]` |
| RateLimiting.ClockStepBackBreaksQuota | Imagen3Server/imagen3_server.py:22-29 | without the clock hypothesis the quota fails: with 2 calls per 10 ticks and readings 100, 100, 115, 105, all four passes are admitted and (95, 105] holds three |
| Retry.ImageData | Imagen3Server/imagen3_server.py:58-59 | the truthiness chain: bytes are taken iff the list is non-empty and its first entry has an image with non-empty bytes, and they are that entry's bytes |
| Retry.IsSuccess | Imagen3Server/imagen3_server.py:58-61 | a reply the task returns on iff it is a response whose first entry carries non-empty image bytes |
| Retry.Returned | Imagen3Server/imagen3_server.py:61-74 | what `generate_image` returns: an image iff the task ended with one (line 61), `None` for a blocked prompt (67) or a spent budget (74) |
| Retry.Run | Imagen3Server/imagen3_server.py:43-74 | the loop as a recursive function of the reply script: attempts never exceed the script's length, and a returned image is never empty |
| Retry.GenerateImage | Imagen3Server/imagen3_server.py:43-74 | the imperative loop ends exactly as `Run` says, with the same numbers of `acquire` calls, `retries` increments and sleeps |
| Retry.RetriesCountRaised | Imagen3Server/imagen3_server.py:68-70 | only exceptions move the counter: increments equal the raised replies among those consumed |
| Retry.LastReplyDecides | Imagen3Server/imagen3_server.py:58-67 | every attempt before the last got a reply that lets the loop go on; an image is returned iff the last consumed reply carries one (and it is that image); the task is skipped iff the last reply was a blocked prompt |
| Retry.SleepAccounting | Imagen3Server/imagen3_server.py:68-74 | a task that gives up has made its whole budget of increments and slept one time fewer; any other task slept once per exception and stayed under budget |
| Retry.GiveUpAfterBudget | Imagen3Server/imagen3_server.py:44-74 | from `retries = 0`: giving up means `max(0, max_retries)` increments and `max(0, max_retries - 1)` sleeps; `max_retries <= 0` means no attempt at all |
| Retry.ExceptionsExhaustBudget | Imagen3Server/imagen3_server.py:68-74 | exceptions on every attempt: the task gives up after exactly `max_retries` attempts, increments and `max_retries - 1` sleeps |
| Retry.FinalAfterExceptions | Imagen3Server/imagen3_server.py:58-72 | `j` exceptions then an image (or a blocked prompt), within budget: image (or skip) on attempt `j + 1`, with `j` increments and `j` sleeps |
| Retry.EmptyResponsesAreFree | Imagen3Server/imagen3_server.py:58-64 | any run of empty or unusable responses costs one attempt each but no budget and no sleep |
| Retry.DefaultBudget | Imagen3Server/imagen3_server.py:43-74 | with the default `max_retries=3`: giving up means three exceptions, three increments and two sleeps; three exceptions in a row always give up; otherwise one sleep per exception, at most two |
| Retry.ImageIffSuccess | Imagen3Server/imagen3_server.py:45-61 | an image is returned iff some reply carries one, no earlier reply ends the task, and fewer than `max_retries` exceptions came before it |
| Prompts.PromptsOf | Imagen3Server/imagen3_server.py:95-98 | the filter as a function of the lines: at most one prompt per line; `PromptMembership` and `PromptsOfAppend` give its contents and order |
| Prompts.LinePrompts | Imagen3Server/imagen3_server.py:96-98 | a line contributes at most one prompt |
| Prompts.LoadPrompts | Imagen3Server/imagen3_server.py:90-107 | the loop returns the prompts of the file's lines, or none when the file is missing or unreadable; every prompt is non-empty and stripped |
| Prompts.PromptsAreStrippedLines | Imagen3Server/imagen3_server.py:95-98 | every loaded prompt is non-empty and has no whitespace at either end |
| Prompts.PromptsOfAppend | Imagen3Server/imagen3_server.py:95-98 | loading is line by line and keeps order: prompts of `a + b` are prompts of `a` then prompts of `b` |
| Prompts.PromptMembership | Imagen3Server/imagen3_server.py:95-98 | a text is a prompt iff it is non-empty and is the stripped form of some line |
| Prompts.PromptHasLine | Imagen3Server/imagen3_server.py:95-98 | every prompt comes from a line |
| Prompts.LineGivesPrompt | Imagen3Server/imagen3_server.py:95-98 | every non-blank line gives its stripped text as a prompt |
| Prompts.ReloadIsIdentity | Imagen3Server/imagen3_server.py:95-98 | loading the loaded prompts again changes nothing |
| Prompts.BlankFileHasNoPrompts | Imagen3Server/imagen3_server.py:95-101 | a file of blank lines yields no prompts |
| Folders.Candidate | Imagen3Server/imagen3_server.py:82 | `f"{base_name}{i}"`: the base followed by a non-empty run of digits |
| Folders.Choose | Imagen3Server/imagen3_server.py:77-86 | the folder picked: a name that does not exist yet and starts with the base; the error only when the base exists (`ChooseIsFirstFree` pins down which name) |
| Folders.FirstFree | Imagen3Server/imagen3_server.py:81-85 | the first index in range whose numbered name is free, with every earlier one taken; none iff all are taken |
| Folders.GetImageFolder | Imagen3Server/imagen3_server.py:77-86 | the scan agrees with `Choose`; a chosen folder was free and is added to the set; on failure the set is unchanged |
| Folders.ChooseIsFirstFree | Imagen3Server/imagen3_server.py:77-86 | the base is chosen iff it is free; otherwise the first free `base + str(i)`, `1 <= i <= max_index`, with all earlier ones taken; failure iff the base and all numbered names are taken |
| Folders.CandidatesDistinct | Imagen3Server/imagen3_server.py:82 | `base + str(i)` differs from `base` and from `base + str(j)` for `i != j` |
| Folders.FailureNeedsAllNamesTaken | Imagen3Server/imagen3_server.py:81-86 | the `ValueError` needs at least `max_index + 1` existing paths |
| Folders.DefaultFolder | Imagen3Server/imagen3_server.py:77-86 | with the defaults, "images" is chosen while it is free, and the `ValueError` needs at least 101 existing paths |
| Folders.SecondCallPicksAnotherFolder | Imagen3Server/imagen3_server.py:78-85 | after a folder is created, the next call picks a different one |
| Saving.MainLimiterQuota | Imagen3Server/imagen3_server.py:135 | with `main`'s limiter of 20 calls per 60 seconds and a clock that never decreases, no 60-second window holds more than 20 admissions |
| Saving.SavedIffTaskReturnedImage | Imagen3Server/imagen3_server.py:145-151 | fed with the tasks' ends: a task's pair, holding its image, is saved iff the task returned an image; blocked and given-up tasks save nothing |
| Saving.Basename | Imagen3Server/imagen3_server.py:126 | a POSIX basename holds no '/' |
| Saving.BasenameIsLastComponent | Imagen3Server/imagen3_server.py:126 | the basename is the suffix after the last '/' |
| Saving.SavedFiles | Imagen3Server/imagen3_server.py:139-151 | the pairs the pass saves, at most one per task; `SavedPairsBelong`, `SavedPairsOrdered` and `SavedIffImage` give their contents and order |
| Saving.TaskResults | Imagen3Server/imagen3_server.py:143-145 | `future.result()` for each task, one result per task in submission order |
| Saving.TaskResultsAt | Imagen3Server/imagen3_server.py:145 | the result of task `k` is what `generate_image` returned for it |
| Saving.Join | Imagen3Server/imagen3_server.py:147-148 | POSIX `os.path.join`; its rules are stated by `JoinParts` |
| Saving.JoinParts | Imagen3Server/imagen3_server.py:147-148 | a join ends with its second part; an absolute second part is the whole result; otherwise the result is the folder followed by the second part, with one '/' inserted between them exactly when the folder is non-empty and does not already end in '/' |
| Saving.FileName | Imagen3Server/imagen3_server.py:147-148 | `f"{folder_basename}_{index:05d}{ext}"`; its layout is stated by `FileNameParts` |
| Saving.FileNameParts | Imagen3Server/imagen3_server.py:147-148 | a file name is the basename, '_', the five-digit padded index and the extension, in that order and nothing else |
| Saving.ImagePath | Imagen3Server/imagen3_server.py:147 | `image_path`; `PathExtensions` and `PathsDistinct` state its properties |
| Saving.TextPath | Imagen3Server/imagen3_server.py:148 | `text_path`; `PathExtensions` and `PathsDistinct` state its properties |
| Saving.PathExtensions | Imagen3Server/imagen3_server.py:147-148 | an image path ends in ".png" and a text path in ".txt", whatever the folder |
| Saving.Entry | Imagen3Server/imagen3_server.py:146-151 | one saved pair for a task that returned an image, none otherwise |
| Saving.SaveResults | Imagen3Server/imagen3_server.py:139-152 | the loop saves exactly the pairs `SavedFiles` describes |
| Saving.SavedPairsBelong | Imagen3Server/imagen3_server.py:139-151 | each saved pair has an index in `1..N`, that task's image and prompt, and paths named `{basename}_{index:05d}.png/.txt` |
| Saving.SavedPairsOrdered | Imagen3Server/imagen3_server.py:139-143 | saved pairs come in submission order: indices strictly increase |
| Saving.SavedCount | Imagen3Server/imagen3_server.py:143-146 | one pair per returned image |
| Saving.ImageIsSaved | Imagen3Server/imagen3_server.py:143-147 | a task that returned an image is saved, right after the earlier tasks that did |
| Saving.SavedIffImage | Imagen3Server/imagen3_server.py:143-147 | a task's pair is saved iff its result holds an image |
| Saving.FileNameInjective | Imagen3Server/imagen3_server.py:147-148 | different indices give different file names |
| Saving.NameStartsWell | Imagen3Server/imagen3_server.py:147-148 | a file name is non-empty and relative, and its last character is the extension's last character |
| Saving.JoinKeepsNamesApart | Imagen3Server/imagen3_server.py:147-148 | joining different relative names onto one folder gives different paths |
| Saving.PathsDistinct | Imagen3Server/imagen3_server.py:147-148 | image paths of different tasks differ, text paths differ, and no image path is a text path |
| Saving.SavedPathsDistinct | Imagen3Server/imagen3_server.py:143-151 | no two files written by the pass share a path |
| Saving.IndexReadsBack | Imagen3Server/imagen3_server.py:147-148 | the index parses back from the digits of a file name |
| Text.IsSpace | Imagen3Server/imagen3_server.py:96 | the characters `strip()` removes, Python's `isspace`; `PythonWhitespace.IsSpaceIsListed` proves it is exactly the 29-character table |
| PythonWhitespace.IsSpaceIsListed | Imagen3Server/imagen3_server.py:96 | a character is whitespace iff it is in the table of 29 code points, which is in increasing order and so lists each character once |
| Text.TrimEnd | Imagen3Server/imagen3_server.py:96 | `rstrip`: a prefix, only whitespace removed, no trailing whitespace left |
| Text.Strip | Imagen3Server/imagen3_server.py:96 | `strip`: no whitespace at either end; empty iff the line is all whitespace |
| Text.StripIsInner | Imagen3Server/imagen3_server.py:96 | the stripped text is the contiguous piece between the leading and trailing whitespace runs |
| Text.StripIdempotent | Imagen3Server/imagen3_server.py:96 | stripping twice is stripping once |
| Text.Decimal | Imagen3Server/imagen3_server.py:82 | `str(i)`: non-empty digits, no leading zero except for 0 |
| Text.DecimalInjective | Imagen3Server/imagen3_server.py:82 | different numbers give different texts |
| Text.Pad5 | Imagen3Server/imagen3_server.py:147-148 | `{index:05d}`: digits, width 5 or the number's own width if wider |
| Text.Pad5RoundTrip | Imagen3Server/imagen3_server.py:147-148 | parsing the padded text gives the number back |
| Text.Pad5Injective | Imagen3Server/imagen3_server.py:147-148 | different indices give different padded texts |

## Left out

- Threads, `threading.Lock` and `ThreadPoolExecutor` (lines 16, 21, 137-141) are concurrency. Each locked pass of `acquire` is modelled as one atomic step, and a run of passes as a sequence of steps.
- The `while True` around the locked pass and the `time.sleep(sleep_time)` after it (lines 20, 38-39) are scheduling. `Acquire` is one pass and returns the wait instead of sleeping.
- `time.time()` is a parameter `now` in integer ticks. Floating-point seconds are not modelled.
- QuotaHolds: promises the quota only on a clock whose readings never decrease. `time.time()` is a wall clock that can step backwards, and then the quota can break, in the source as in the model (`ClockStepBackBreaksQuota`).
- `time.sleep(5)` in the retry loop is counted, not performed.
- The `genai` client, its creation and `GenerateImagesConfig` (lines 49-56, 117-121) are a foreign remote service. They are replaced by a script of replies.
- PIL `Image.open`, `BytesIO` and `image.save` (lines 60, 149) are image decoding and encoding. An image is its bytes. A decoding failure is one more exception (`Reply.Raised`).
- `generate_image`'s `index`, `prompt`, `client` and `rate_limiter` parameters only feed the remote call and log lines. `GenerateImage` counts `acquire` calls instead of calling a shared `RateLimiter`.
- GenerateImage: when the script runs out while the loop would still call the service, the model stops with `TaskEnd.Unfinished`. The source would go on calling.
- Every `print` is logging.
- Opening, decoding and reading the prompt file (lines 94-95) is file I/O. The file is its lines or a read error. A read that fails partway also yields no prompts, which the error case covers.
- `os.path.exists` and `os.makedirs` (lines 78-84) are file-system calls. Existence is a set of paths, and creation adds to it.
- Races with other processes creating folders are not modelled.
- `os.path.join` and `os.path.basename` follow POSIX rules. Windows path rules are not modelled.
- `main`'s setup is environment and client plumbing, not modelled:
  - the API-key lookup and masked print (lines 111-115);
  - the early return on an empty prompt list (lines 130-132);
  - the pool of 5 workers, which is concurrency. The limiter's 20 calls per 60 seconds are kept as constants (`Saving.MainLimiterQuota`).
- The per-item `try/except` around saving and `future.result()` re-raising (lines 144-154) are exception plumbing around I/O. Results are given as values, and every image result is saved.
- The truthiness test `if image:` treats every returned image as true.
- The `except types.generation_types.BlockedPromptException` clause (line 65) is assumed to resolve. If that attribute lookup failed, the resulting exception would leave `generate_image` at once, without a retry. The library is not part of this model, so `Reply.BlockedPrompt` stands for the exception that clause catches.
