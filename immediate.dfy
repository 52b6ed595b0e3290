/**
 * Immediate mode (src/main.rs:306-342): produce one artifact for the loaded
 * record, save it, post it once and exit. There is no schedule, no retry and
 * no look at the loaded phase: a record found in the `Generated` phase has
 * its pending artifact overwritten by a new one under the same id.
 */
module Immediate {
  import opened Base
  import opened BotState
  import opened Storage
  import opened Bot

  /** Every collaborator of immediate mode answers as it should. */
  predicate ImmediateSucceeds(store0: Store, p: Production, q: Publication) {
    && p.generatedOk && store0.imagesDirOk && p.png.Some?
    && p.write.Written? && p.persist.Written?
    && q.accepted && q.persist.Written?
  }

  /**
   * Post once from the record `store0` holds. `sent` is the bytes handed to
   * the publisher, if the run got that far.
   */
  method PostImmediately(store0: Store, p: Production, q: Publication) returns (store: Store, sent: Option<Bytes>, exit: Exit)
    requires store0.GetState().id < U32Max
    ensures exit.Finished? <==> ImmediateSucceeds(store0, p, q)
    ensures store.imagesDirOk == store0.imagesDirOk
    ensures store.files - {Filename(store0.GetState().id)} == store0.files - {Filename(store0.GetState().id)}
    // the record changes only once the artifact file is written, and `posted()` is saved only by a run without panic
    ensures !p.write.Written? ==> store.record == store0.record
    ensures store.record != store0.record ==>
      && p.write.Written?
      && (store.record.None? || store.record == Some(store0.GetState().MarkGenerated())
          || store.record == Some(store0.GetState().MarkPosted(q.clock)))
    ensures store.record == Some(store0.GetState().MarkPosted(q.clock)) <==> exit.Finished?
    // nothing is touched before the image is encoded and the directory exists
    ensures !p.generatedOk || !store0.imagesDirOk || p.png.None? ==> store == store0 && sent.None?
    // the publisher only ever sees bytes already saved under the loaded id, behind a saved Generated record
    ensures sent.Some? ==>
      && Some(sent.value) == p.png && p.write.Written? && p.persist.Written?
      && Filename(store0.GetState().id) in store.files && store.files[Filename(store0.GetState().id)] == sent.value
    ensures p.png.Some? && p.write.Written? && p.persist.Written? && store0.imagesDirOk && p.generatedOk ==> sent == p.png
    // a rejected post leaves a Generated record whose artifact is the one just sent
    ensures exit == Panicked(PostFailed) ==>
      && store.GetState() == store0.GetState().MarkGenerated()
      && sent.Some? && store.GetSavedImage(store.GetState()) == Ok(sent.value)
    ensures exit.Finished? ==>
      store == Store(Some(store0.GetState().MarkPosted(q.clock)),
                     store0.files[Filename(store0.GetState().id) := p.png.value], store0.imagesDirOk)
  {
    var state := store0.GetState();
    store, sent := store0, None;
    if !p.generatedOk {
      return store, sent, Panicked(GenerationFailed);
    }
    var filename := store.GetFilename(state);
    if filename.Err? {
      return store, sent, Panicked(ImagesDirFailed);
    }
    if p.png.None? {
      return store, sent, Panicked(EncodingFailed);
    }
    var image := p.png.value;
    store := store.WriteFile(filename.value, image, p.write);
    if !p.write.Written? {
      return store, sent, Panicked(ImageFileFailed);
    }
    state := state.MarkGenerated();
    store := store.Persist(state, p.persist);
    if !p.persist.Written? {
      return store, sent, Panicked(PersistFailed);
    }
    sent := Some(image);
    if !q.accepted {
      return store, sent, Panicked(PostFailed);
    }
    store := store.Persist(state.MarkPosted(q.clock), q.persist);
    if !q.persist.Written? {
      return store, sent, Panicked(PersistFailed);
    }
    exit := Finished;
  }

  /**
   * Immediate mode from a record in the `Generated` phase replaces the
   * pending artifact of that id, so the run-forever loop can no longer
   * retry the bytes it had saved.
   */
  method OverwritesPending(store0: Store, p: Production, q: Publication) returns (before: Bytes, after: Bytes)
    requires store0.record.Some? && store0.record.value.phase == Generated && store0.record.value.id < U32Max
    requires Filename(store0.record.value.id) in store0.files
    requires ImmediateSucceeds(store0, p, q)
    requires p.png != Some(store0.files[Filename(store0.record.value.id)])
    ensures before != after
  {
    var id := store0.record.value.id;
    before := store0.files[Filename(id)];
    var store, sent, exit := PostImmediately(store0, p, q);
    after := store.files[Filename(id)];
  }
}
