/**
 * The posting state machine of `main` (src/main.rs:303-437): the run-forever
 * loop that produces an artifact when one is due, publishes it, and retries
 * a failed publish with the same bytes after a backoff; and the immediate
 * mode that produces and posts once.
 *
 * The collaborators are inputs: a `Tick` holds what the outside world
 * answers during one pass of the loop (the random draw, the clock, the
 * outcome of generation and PNG encoding, of each file write, and of the
 * publish call). Every `.expect(...)` of the source ends the run with
 * `Panicked`, leaving storage as it is at that point.
 */
module Bot {
  import opened Base
  import opened BotState
  import opened Storage
  import opened Backoff
  import opened Schedule

  /** The `.expect(...)` panics of `main`, one per message. */
  datatype Fatal =
    | BadJitter          // gen_range(-jitter, jitter) on an empty range
    | GenerationFailed   // "Problem generating image"
    | ImagesDirFailed    // "Failed to initalize the images subdirectory"
    | EncodingFailed     // "Unable to generate png"
    | ImageFileFailed    // "Unable to create image file" / "Unable to write to file"
    | PersistFailed      // "Unable to persist state"
    | ReloadFailed       // "Wanted to retry uploading image but was unable to open its file"
    | PostFailed         // "Failed to post status" (immediate mode only)

  /** How a run ended: the trace of the world ran out (or immediate mode finished), or a panic. */
  datatype Exit = Finished | Panicked(reason: Fatal)

  /**
   * The world's answers while producing an artifact: whether the map
   * generator succeeded, the PNG bytes after encoding and optimisation
   * (`None` when encoding failed), and the outcome of writing the artifact
   * file and then the record.
   */
  datatype Production = Production(generatedOk: bool, png: Option<Bytes>, write: WriteOutcome, persist: WriteOutcome)

  /** The world's answers while publishing: whether the post was accepted, the clock `posted()` reads, and the outcome of the record write that follows. */
  datatype Publication = Publication(accepted: bool, clock: Instant, persist: WriteOutcome)

  /** One pass of the loop: the jitter draw and clock reading of the due-time check, then production and publication. */
  datatype Tick = Tick(draw: int, clock: Instant, production: Production, publication: Publication)

  /** What became of one publish call: accepted at an instant, or rejected with the backoff slept before the retry. */
  datatype PostOutcome = Accepted(at: Instant) | Rejected(retryAfter: nat)

  /** One call of the publisher: the sequence id, the bytes sent, and the outcome. */
  datatype Submission = Submission(id: u32, bytes: Bytes, outcome: PostOutcome)

  /**
   * An artifact written to storage: its id and bytes, the last post time the
   * record showed when production began, the jitter drawn for it, the
   * clock after the wait, and the number of the loop pass that produced it.
   */
  datatype Artifact = Artifact(id: u32, bytes: Bytes, after: Option<Instant>, draw: int, startedAt: Instant, pass: nat)

  /** The loop's variables: `state`, `current_image` and `attempt`. */
  datatype Control = Control(state: State, currentImage: Option<Bytes>, attempt: nat)

  /** The number of accepted submissions. */
  function AcceptedCount(subs: seq<Submission>): (n: nat)
    ensures n <= |subs|
    decreases |subs|
  {
    if subs == [] then 0
    else AcceptedCount(subs[..|subs| - 1]) + (if subs[|subs| - 1].outcome.Accepted? then 1 else 0)
  }

  /** The number of rejected submissions since the last accepted one. */
  function TrailingRejections(subs: seq<Submission>): nat
    decreases |subs|
  {
    if subs == [] || subs[|subs| - 1].outcome.Accepted? then 0
    else TrailingRejections(subs[..|subs| - 1]) + 1
  }

  /** The instant of the last accepted submission, or `initial` when there is none. */
  function LastPost(subs: seq<Submission>, initial: Option<Instant>): Option<Instant>
    decreases |subs|
  {
    if subs == [] then initial
    else if subs[|subs| - 1].outcome.Accepted? then Some(subs[|subs| - 1].outcome.at)
    else LastPost(subs[..|subs| - 1], initial)
  }

  /**
   * A run of failed publish calls ended by one success counts as one post:
   * the id moves on by exactly one, and the failures before it numbered
   * `1, 2, ..., k` for the backoff.
   */
  lemma {:induction false} FailuresThenSuccess(subs: seq<Submission>)
    requires subs != [] && subs[|subs| - 1].outcome.Accepted?
    requires forall j :: 0 <= j < |subs| - 1 ==> subs[j].outcome.Rejected?
    ensures AcceptedCount(subs) == 1 && TrailingRejections(subs) == 0
    ensures forall j :: 0 <= j < |subs| ==> TrailingRejections(subs[..j]) == j && AcceptedCount(subs[..j]) == 0
  {
    forall j | 0 <= j < |subs|
      ensures TrailingRejections(subs[..j]) == j && AcceptedCount(subs[..j]) == 0
    {
      RejectionsCount(subs[..j]);
    }
    RejectionsCount(subs[..|subs| - 1]);
  }

  /** A log of failures only has no success and ends with all of them in a row. */
  lemma {:induction false} RejectionsCount(subs: seq<Submission>)
    requires forall j :: 0 <= j < |subs| ==> subs[j].outcome.Rejected?
    ensures TrailingRejections(subs) == |subs| && AcceptedCount(subs) == 0
    decreases |subs|
  {
    if subs != [] {
      RejectionsCount(subs[..|subs| - 1]);
    }
  }

  /** A pass of the loop in which no collaborator fails. */
  predicate TickHealthy(cfg: Config, t: Tick) {
    && cfg.jitter > 0
    && t.production.generatedOk && t.production.png.Some?
    && t.production.write.Written? && t.production.persist.Written?
    && t.publication.persist.Written?
  }

  /** The production step of a pass gets all the way to the persisted `Generated` record. */
  predicate ProductionSucceeds(store: Store, cfg: Config, t: Tick, state: State) {
    && (state.lastPost.None? || cfg.jitter > 0)
    && t.production.generatedOk && store.imagesDirOk && t.production.png.Some?
    && t.production.write.Written? && t.production.persist.Written?
  }

  /**
   * `current_image.unwrap_or_else(|| state.get_saved_image())`: the bytes
   * held in memory, or else the ones saved for the record's id. Never new
   * bytes.
   */
  function ImageToPost(store: Store, c: Control): (r: Result<Bytes, LoadError>)
    ensures c.currentImage.Some? ==> r == Ok(c.currentImage.value)
    ensures c.currentImage.None? ==> r == store.GetSavedImage(c.state)
  {
    match c.currentImage
    case Some(b) => Ok(b)
    case None => store.GetSavedImage(c.state)
  }

  /**
   * When the bytes in memory are the ones saved for the record's id, posting
   * from memory and posting after a restart (nothing in memory) send the
   * same bytes: those stored at `images/{id}.png`.
   */
  lemma CachedAndSavedAgree(store: Store, c: Control)
    requires store.imagesDirOk && c.state.phase == Generated && Filename(c.state.id) in store.files
    requires c.currentImage.Some? ==> c.currentImage.value == store.files[Filename(c.state.id)]
    ensures ImageToPost(store, c) == ImageToPost(store, c.(currentImage := None))
    ensures ImageToPost(store, c) == Ok(store.files[Filename(c.state.id)])
  {
  }

  /** What the `Awaiting` branch leaves behind. */
  datatype Produced = Produced(store: Store, state: State, written: Option<Artifact>, halt: Option<Fatal>)

  /** What the `Generated` branch leaves behind. */
  datatype Published = Published(store: Store, c: Control, sub: Option<Submission>, halt: Option<Fatal>)

  /**
   * The `Awaiting` branch of a pass (src/main.rs:348-404): wait until due,
   * generate, write `images/{id}.png`, then mark the record `Generated` and
   * persist it. `written` is the artifact once its file is written; the
   * record changes only after that. `pass` only labels the artifact with
   * the loop pass it comes from.
   */
  function Produce(store: Store, cfg: Config, t: Tick, state: State, pass: nat): (r: Produced)
    requires state.phase == Awaiting
    ensures r.halt.None? <==> ProductionSucceeds(store, cfg, t, state)
    ensures r.halt.None? ==>
      && r.written.Some? && r.state == state.MarkGenerated()
      && r.store == Store(Some(r.state), store.files[Filename(state.id) := r.written.value.bytes], store.imagesDirOk)
    ensures r.written.Some? ==>
      && r.halt != Some(BadJitter)
      && r.written.value.id == state.id && r.written.value.after == state.lastPost && r.written.value.draw == t.draw
      && r.written.value.pass == pass
      && Some(r.written.value.bytes) == t.production.png
      && TimeToWait(state.lastPost, cfg, t.draw, t.clock) == Ok(r.written.value.startedAt - t.clock)
      && Filename(state.id) in r.store.files && r.store.files[Filename(state.id)] == r.written.value.bytes
    ensures r.state.id == state.id && r.state.lastPost == state.lastPost
    ensures r.store.imagesDirOk == store.imagesDirOk
    ensures r.store.files - {Filename(state.id)} == store.files - {Filename(state.id)}
    ensures r.store.record != store.record ==>
      r.written.Some? && (r.store.record.None? || r.store.record == Some(state.MarkGenerated()))
  {
    var wait := TimeToWait(state.lastPost, cfg, t.draw, t.clock);
    if wait.Err? then Produced(store, state, None, Some(BadJitter))
    // the bot sleeps `wait.value` seconds here
    else if !t.production.generatedOk then Produced(store, state, None, Some(GenerationFailed))
    else
      var filename := store.GetFilename(state);
      if filename.Err? then Produced(store, state, None, Some(ImagesDirFailed))
      else if t.production.png.None? then Produced(store, state, None, Some(EncodingFailed))
      else
        var image := t.production.png.value;
        var withFile := store.WriteFile(filename.value, image, t.production.write);
        if !t.production.write.Written? then Produced(withFile, state, None, Some(ImageFileFailed))
        else
          var artifact := Artifact(state.id, image, state.lastPost, t.draw, t.clock + wait.value, pass);
          var generated := state.MarkGenerated();
          var persisted := withFile.Persist(generated, t.production.persist);
          Produced(persisted, generated, Some(artifact), if t.production.persist.Written? then None else Some(PersistFailed))
  }

  /**
   * The `Generated` branch of a pass (src/main.rs:407-434): post the bytes
   * in memory or saved for the record's id. On success reset `attempt`, mark
   * the record posted and persist it, and drop the bytes; on failure count
   * the attempt, back off, and keep the same bytes for the retry. The
   * record given must already be persisted in the `Generated` phase: no
   * post is ever attempted before that.
   */
  function Publish(store: Store, p: Publication, c: Control): (r: Published)
    requires c.state.phase == Generated && store.record == Some(c.state)
    requires c.state.id < U32Max
    ensures r.store.files == store.files && r.store.imagesDirOk == store.imagesDirOk
    ensures ImageToPost(store, c).Err? ==> r == Published(store, c, None, Some(ReloadFailed))
    ensures ImageToPost(store, c).Ok? ==>
      r.sub.Some? && r.sub.value.id == c.state.id && r.sub.value.bytes == ImageToPost(store, c).value
    ensures ImageToPost(store, c).Ok? && p.accepted ==>
      && r.sub.value.outcome == Accepted(p.clock)
      && r.c == Control(c.state.MarkPosted(p.clock), None, 0)
      && r.store == store.Persist(r.c.state, p.persist)
      && (r.halt.None? <==> p.persist.Written?)
      && (r.halt.Some? ==> r.halt == Some(PersistFailed))
    ensures ImageToPost(store, c).Ok? && !p.accepted ==>
      && r.sub.value.outcome == Rejected(GetBackoff(c.attempt + 1))
      && r.c == Control(c.state, Some(r.sub.value.bytes), c.attempt + 1)
      && r.store == store && r.halt.None?
  {
    var image := ImageToPost(store, c);
    if image.Err? then Published(store, c, None, Some(ReloadFailed))
    else
      var attempt := c.attempt + 1;
      if p.accepted then
        var posted := c.state.MarkPosted(p.clock);
        Published(store.Persist(posted, p.persist), Control(posted, None, 0),
                  Some(Submission(c.state.id, image.value, Accepted(p.clock))),
                  if p.persist.Written? then None else Some(PersistFailed))
      else
        // the bot sleeps `GetBackoff(attempt)` seconds here
        Published(store, Control(c.state, Some(image.value), attempt),
                  Some(Submission(c.state.id, image.value, Rejected(GetBackoff(attempt)))), None)
  }
}
