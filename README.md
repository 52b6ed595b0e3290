# cubeglobe-bot posting state machine, in Dafny

This project models the posting core of `cubeglobe-bot`, a bot that
periodically generates a landscape image, saves it, and posts it to a
Mastodon account. That core lives in `src/main.rs`. Its parts are:

- the durable record `State { last_post, id, phase }` with phases `Awaiting`
  and `Generated`, its default value and its two transitions `generated()`
  and `posted()`;
- the storage the record is kept in: the record file `state`, and one
  artifact file `images/{id}.png` per sequence id (`get_state`, `persist`,
  `get_filename`, `get_saved_image`);
- the retry table `DELAYS` and `get_backoff`;
- the due-time computation: `last_post + sleep_time + r`, with `r` drawn from
  `[-jitter, jitter)`;
- the run-forever loop over `state`, `current_image` and `attempt`;
- immediate mode, which produces and posts once.

The model has these modules, one per file:

- `Base`: `Option`, `Result`, `byte`, `u32`, and instants in whole seconds.
- `Decimal`: Rust's `format!("{}")` of an id, and the proof that the text
  gives the number back.
- `BotState`: the record, its transitions, and the artifact path
  `images/{id}.png`, proved injective in the id.
- `Storage`: durable storage as a value `Store(record, files, imagesDirOk)`.
  - `record` is the record the file holds, or `None` when the file is
    missing or does not parse.
  - `files` maps paths to bytes.
  - `imagesDirOk` is whether `create_dir_all("images")` succeeds.
  - A file write has three outcomes: it succeeds; `File::create` fails and
    nothing changes; or `write_all` fails after the file was truncated.
- `Backoff`: the table and its lookup.
- `Schedule`: the wait before producing, given the jitter draw and the clock
  reading as inputs.
- `Bot`: the two branches of one pass of the loop, as functions of the
  storage, the loop variables and what the outside world answers (a `Tick`).
  - `Produce` models the `Awaiting` branch.
  - `Publish` models the `Generated` branch.
  - Every `.expect(...)` ends the run with a `Fatal` reason and leaves
    storage as it is at that point.
- `RunLoop`: the loop as a method over a finite trace of ticks.
  - Its invariant is split into books: trace, retry, ids, files, schedule,
    provenance (which pass made each artifact, and which artifact each post sends),
    record, and liveness.
  - The step lemmas prove that each branch keeps it.
  - `RunForever` states what a run guarantees; `Restart` chains two runs.
- `Immediate`: immediate mode as a method.
- `Scenarios`: concrete runs derived from the contracts alone.

The collaborators appear only as inputs:

- the clock (`Utc::now`);
- the random jitter draw (`thread_rng().gen_range`), constrained to its range;
- map generation and PNG encoding (success, and the bytes);
- the outcome of each file write;
- the publisher's answer.

Sleeping is not modelled beyond the number of seconds slept.

Four facts about the code shape the model:

- `persist` does not replace the record atomically. `File::create`
  truncates the record file before `write_all`, so a failed write leaves a
  truncated record, which the model takes to be unparsable. The bot then
  starts again from the default record, with id 1
  (`Storage.TruncatedRecordResetsId`, `Scenarios.LostRecordReusesFirstId`).
- After sleeping until the due time, the loop does not read the clock
  again. It produces at once.
- A failure while producing (generation, directory, encoding, file write,
  record write) panics. Nothing waits and retries.
- Immediate mode ignores the loaded phase. From a `Generated` record it
  produces a new artifact under the same id and overwrites the pending one
  (`Immediate.OverwritesPending`).

## Model

| member | source | states |
|---|---|---|
| Decimal.Show | src/main.rs:127 | the id is written as at least one decimal digit, with no leading zero except for 0 itself |
| Decimal.ValueOfShow | src/main.rs:127 | reading back the decimal text of `n` gives `n` |
| Decimal.ShowInjective | src/main.rs:127 | two numbers have the same decimal text exactly when they are equal |
| BotState.State.Default | src/main.rs:92-99 | the default record has no last post, id 1, and phase `Awaiting` |
| BotState.State.MarkGenerated | src/main.rs:152-157 | `generated()` sets phase `Generated` and keeps id and last post |
| BotState.State.MarkPosted | src/main.rs:143-149 | `posted()` gives phase `Awaiting`, id + 1 and last post `now`, for an id below `u32::MAX` |
| BotState.FilenameInjective | src/main.rs:122-130 | the artifact path depends on the id alone, and different ids never share a path |
| BotState.FilenameShape | src/main.rs:122-130 | the artifact path is `images/`, then decimal digits, then `.png` |
| BotState.GeneratedKeepsArtifactPath | src/main.rs:152-157 | `generated()` keeps the record on the same artifact path, and applying it twice changes nothing more |
| BotState.PostedMovesToFreshPath | src/main.rs:143-149 | after `posted()` the record points at a new artifact path, whether or not `generated()` came first |
| Storage.Store.GetState | src/main.rs:103-109 | the load gives the saved record, or the default record when none parses |
| Storage.Store.Persist | src/main.rs:111-119 | a full write saves the record, a failed create changes nothing, and a failed write loses the record; the artifacts are untouched |
| Storage.Store.GetFilename | src/main.rs:121-130 | the path is available exactly when the images directory can be created, and it is the id's artifact path |
| Storage.Store.WriteFile | src/main.rs:389-394 | only the written path changes: it gets the bytes, is untouched when the create fails, or holds a prefix of them when the write fails |
| Storage.Store.GetSavedImage | src/main.rs:132-140 | `Awaiting` is refused (`BadState`); bytes are returned exactly when the phase is `Generated`, the directory exists and the id's file is present, and they are that file's bytes |
| Storage.LoadMissingIsDefault | src/main.rs:92-109 | loading with no record gives `{None, 1, Awaiting}`, the same every time |
| Storage.PersistThenLoad | src/main.rs:103-119 | what a successful persist writes, the next load reads back |
| Storage.TruncatedRecordResetsId | src/main.rs:112-119 | after a persist whose write fails, the next load falls back to id 1 and loses the record |
| Storage.WriteThenReload | src/main.rs:389-394 | writing a `Generated` record's artifact and reloading it gives the same bytes, even across a later persist |
| Storage.OtherWriteKeepsSavedImage | src/main.rs:132-140 | writing another id's artifact does not change what `get_saved_image` returns |
| Backoff.GetBackoff | src/main.rs:260-267 | for attempts from 1, the wait is always an entry of the table and never more than its last entry |
| Backoff.DelaysAscending | src/main.rs:39-40 | the table is ascending |
| Backoff.BackoffEntries | src/main.rs:260-267 | attempts 1 to 4 give `DELAYS[a - 1]`; later attempts give 900 |
| Backoff.BackoffMonotone | src/main.rs:260-267 | a later attempt never waits less than an earlier one |
| Backoff.BackoffCapped | src/main.rs:260-267 | from attempt 4 on, every attempt waits 900 seconds |
| Schedule.TimeToWait | src/main.rs:348-371 | no wait without a last post; otherwise an empty jitter range is an error, and the wait reaches the scheduled instant, or is zero when that instant has passed |
| Schedule.ScheduledWithinJitter | src/main.rs:350-356 | the scheduled instant lies in `[last + sleep - jitter, last + sleep + jitter)` |
| Schedule.WaitIsShortest | src/main.rs:357-367 | no wait that reaches the scheduled instant is shorter than the computed one |
| Schedule.DefaultWindow | src/main.rs:66-71 | with the default settings, production starts no sooner than 55 minutes after the last post, and within 65 minutes of it if the bot had to wait |
| Bot.FailuresThenSuccess | src/main.rs:407-433 | k failed posts followed by one success count as exactly one success; the failures are attempts 1 to k |
| Bot.ImageToPost | src/main.rs:408-412 | the bytes posted are the cached ones, or else the ones saved for the record's id |
| Bot.CachedAndSavedAgree | src/main.rs:408-412 | when the cache holds the saved artifact, posting from the cache and posting after a restart send the same bytes |
| Bot.Produce | src/main.rs:348-404 | it has no panic exactly when every step succeeds. On success the record is `Generated` and saved, and the file holds the bytes. The artifact is written before the record changes, only the id's path is touched, the wait is the due-time one, and no production starts before it is due |
| Bot.Publish | src/main.rs:407-434 | it posts the cached or saved bytes under the record's id. Success resets the attempt count, saves `posted()` and drops the cache. Failure counts the attempt, backs off by `get_backoff`, keeps the same bytes and leaves storage unchanged. A missing saved artifact panics |
| RunLoop.InitialInv | src/main.rs:343-345 | the run starts from the loaded record, with nothing cached and no attempt counted |
| RunLoop.ProduceKeepsFiles | src/main.rs:389-394 | writing the artifact of a fresh id keeps every artifact already posted or produced |
| RunLoop.ProduceKeepsArtifacts | src/main.rs:389-394 | the `Awaiting` branch stores its artifact under a fresh id, above every id posted or produced so far, and keeps every artifact stored before |
| RunLoop.ProduceKeepsSchedule | src/main.rs:348-368 | the `Awaiting` branch starts its artifact no earlier than `last_post + sleep_time + r` for the jitter `r` drawn, which lies in `[-jitter, jitter)` |
| RunLoop.ProduceKeepsProvenance | src/main.rs:348-390 | the artifact the `Awaiting` branch makes is tagged with its pass and carries that pass's jitter draw and image and the last post the record showed; its id is the next one, so the ids produced are consecutive |
| RunLoop.ProduceKeepsRecord | src/main.rs:400-404 | the `Awaiting` branch leaves the record consistent and caches the saved bytes; it panics only when a collaborator fails |
| RunLoop.ProduceStep | src/main.rs:348-404 | the `Awaiting` branch keeps the loop invariant; on success the record is `Generated` |
| RunLoop.PublishReady | src/main.rs:407-414 | the record is saved as `Generated` before any post, and its id can still grow |
| RunLoop.TraceAppend | src/main.rs:414-419 | each logged post answers its own pass of the trace |
| RunLoop.RetryAppend | src/main.rs:414-433 | the attempt counter is the number of failures in a row, and each failure waits that attempt's backoff |
| RunLoop.IdAppend | src/main.rs:419-423 | each post carries the starting id plus the number of earlier successes |
| RunLoop.PublishKeepsLog | src/main.rs:407-434 | the `Generated` branch extends the log of posts in step with the trace, the attempts and the ids |
| RunLoop.AcceptedKeepsStore | src/main.rs:419-424 | a successful post moves the record past every id posted so far, and keeps the artifacts |
| RunLoop.RejectedKeepsStore | src/main.rs:427-433 | a failed post keeps the record and storage, and caches the same bytes for the retry |
| RunLoop.PublishKeepsStore | src/main.rs:407-434 | the `Generated` branch keeps the storage books; it panics on reload only when storage was already inconsistent |
| RunLoop.PublishKeepsProvenance | src/main.rs:407-426 | the `Generated` branch posts the last artifact produced, or the one pending at start, and leaves each artifact's provenance as it was |
| RunLoop.PublishStep | src/main.rs:407-434 | the `Generated` branch keeps the loop invariant; after it the phase is `Awaiting` exactly when the last post succeeded |
| RunLoop.InvMeansProvenance | src/main.rs:348-412 | each artifact is the image of the pass that made it, drawn with that pass's jitter, after the last post as of that pass; later artifacts come from later passes, so a run produces at most one artifact per pass; ids are produced one after another from the loaded id; every post other than of the pending artifact sends the bytes of one of the artifacts produced |
| RunLoop.InvMeansProgress | src/main.rs:344-436 | how a run ended: healthy collaborators mean no panic and one post per pass; storage stays consistent; files other than the artifacts of the ids the run went through are as they were; a run that did not panic has its record at the next id to produce, or the last one produced while pending; a saved record is never behind the ids posted |
| RunLoop.InvMeansLog | src/main.rs:407-434 | the log follows the publisher's answers, failures back off along the table, and ids and last post advance once per success |
| RunLoop.InvMeansArtifacts | src/main.rs:348-412 | posted bytes are the stored ones, so every post of one id sends the same bytes. A resumed pending artifact is posted as saved and never regenerated. Ids are produced in increasing order. Each production starts no earlier than the instant scheduled with its own jitter draw, hence no earlier than `last_post + sleep_time - jitter`. `InvMeansProvenance` ties each of these artifacts to the pass that made it |
| RunLoop.ProduceBranch | src/main.rs:348-404 | the `Awaiting` branch keeps the loop invariant; a panic ends the run, and otherwise the record is `Generated` for the publish step |
| RunLoop.PublishBranch | src/main.rs:407-434 | the `Generated` branch keeps the loop invariant; after it the phase is `Awaiting` exactly when the post succeeded |
| RunLoop.Pass | src/main.rs:346-435 | one pass keeps the loop invariant and ends with the phase matching the last post's outcome |
| RunLoop.Passes | src/main.rs:347-436 | the loop keeps its invariant over the whole trace or up to a panic |
| RunLoop.RunForever | src/main.rs:344-436 | run over a trace: no panic when every collaborator is healthy; posts mirror the publisher's answers; retries back off along the table and resend the stored bytes; ids and last post advance by one per success; a resumed pending artifact is posted as saved; each production starts no earlier than its scheduled instant `last_post + sleep_time + r`, with `r` drawn from `[-jitter, jitter)`; each artifact is the image of the pass that made it, with that pass's draw and the last post as of that pass, ids are produced consecutively, and every post other than of the pending artifact sends a produced image; later artifacts come from later passes, at most one per pass; files other than the artifacts of the ids the run went through are as they were; a run that did not panic holds the next id to produce, or the last one produced while pending; a saved record is never behind the ids posted |
| RunLoop.FailuresThenOnePost | src/main.rs:407-433 | with healthy collaborators, failed posts followed by one success post one artifact under the starting id with the same bytes every time, then await exactly the next id |
| RunLoop.Restart | src/main.rs:303-436 | across a restart whose record survived, no id is ever posted with two different images |
| RunLoop.SameBytesAcrossRestart | src/main.rs:408-412 | the second run's posts of an id the first run posted send the bytes the first run stored |
| Immediate.PostImmediately | src/main.rs:306-342 | it has no panic exactly when every step succeeds. Storage is untouched before encoding. The record is unchanged until the artifact file is written, and becomes only the `Generated` or posted record, or lost on a failed write. `posted()` is saved exactly when no step failed. Only bytes already saved behind a `Generated` record are posted. A rejected post leaves a retryable `Generated` record. Success saves `posted()` with the new artifact |
| Immediate.OverwritesPending | src/main.rs:306-330 | from a `Generated` record, immediate mode replaces the pending artifact of that id |
| Scenarios.RetriesThenSucceeds | src/main.rs:407-433 | a fresh bot that fails twice posts the same bytes after 30 and then 60 seconds, and succeeds as id 1 with the record `{300, 2, Awaiting}` |
| Scenarios.ResumesPendingArtifact | src/main.rs:408-426 | a bot restarted in `Generated` posts the stored `images/5.png` as id 5, then awaits id 6 |
| Scenarios.LostRecordReusesFirstId | src/main.rs:103-109 | with the record lost, numbering restarts at 1 even though `images/1.png` exists, and the post sends the newly produced image |
| Scenarios.KeepsOlderArtifacts | src/main.rs:389-394 | a bot resuming at id 5 leaves an older `images/3.png` as it was, and one pass writes at most one artifact |
| Scenarios.ImmediateEncodingFailure | src/main.rs:306-316 | immediate mode whose encoder fails panics and leaves storage as it was |

## Left out

- Publishing through Mastodon (`post_status`, src/main.rs:160-179): a network client. The publisher's answer is an input.
- Map generation and rendering (`generate_image`), PNG encoding and oxipng optimisation: foreign libraries. Their outcome is an input, success and bytes. A failed optimisation falls back to the unoptimised bytes, and the input bytes cover both.
- TOML serialisation of `State` and the configuration, argument parsing, and reading the configuration: library I/O. The record file is modelled by the record it holds.
- Real time and sleeping: the clock readings and the jitter draw are inputs; the sleeps are not modelled.
- Storage.Store.Persist: a failure of `toml::to_string` is not modelled; serialising the record is taken to succeed.
- Storage.Store.GetState: a truncated record that still parses (only the whole record without its final newline can) is not distinguished; any failed record write is taken to leave an unparsable record.
- Storage.Store.GetSavedImage: read failures other than a missing file are not modelled.
- Storage.Store.GetFilename: whether `create_dir_all("images")` succeeds is one fixed fact of the storage, not a fresh answer on every call.
- BotState.State.MarkPosted: `id + 1` overflowing `u32` is excluded by a precondition instead of modelled. For the same reason, `RunLoop.RunForever` requires the starting id plus the number of passes to stay within `u32`.
- Schedule.TimeToWait: the `i64` settings `sleep_time` and `jitter` are unbounded integers, and instants are whole seconds without chrono's sub-second precision or range. So the panics of that arithmetic are not modelled, and the model computes a wait where the source panics: an `i64` overflow in `sleep_time + r` or in `0 - jitter` (src/main.rs:351-353), `ChrDuration::seconds` beyond its bound of `i64::MAX / 1000` seconds, and a `DateTime` overflow in `last_post + total_to_wait` (src/main.rs:356). The `to_std` `.expect` (src/main.rs:366) is reached only with a wait of zero or more and cannot fire.
- RunLoop.RunForever: the loop runs forever in the source. The model covers any finite prefix of passes, given as a trace.
- The `to_str` panic on the printed file name is not modelled: the path is plain ASCII and always converts.
- Concurrency: the bot is single-threaded, and nothing else is taken to touch its files.
