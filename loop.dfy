/**
 * The run-forever loop of `main` (src/main.rs:344-436) and the invariant
 * it keeps, split into the books the proof keeps: how the publish log
 * mirrors the world's answers, the retry counter, the ids, the stored
 * artifacts and where each came from, the files the run leaves alone, the
 * saved record, and what holds while the process is alive.
 */
module RunLoop {
  import opened Base
  import opened BotState
  import opened Storage
  import opened Backoff
  import opened Schedule
  import opened Bot

  /** Submission `j` answers tick `j`. */
  ghost predicate TraceBook(ticks: seq<Tick>, subs: seq<Submission>) {
    && |subs| <= |ticks|
    && (forall j :: 0 <= j < |subs| ==> (subs[j].outcome.Accepted? <==> ticks[j].publication.accepted))
    && (forall j :: 0 <= j < |subs| && subs[j].outcome.Accepted? ==> subs[j].outcome.at == ticks[j].publication.clock)
  }

  /** `attempt` counts the failures since the last success, and each failure backs off by the next entry. */
  ghost predicate RetryBook(c: Control, subs: seq<Submission>) {
    c.attempt == TrailingRejections(subs) && BacksOff(subs)
  }

  /** Each rejected publish call waits the backoff for the number of failures in a row it ends. */
  ghost predicate BacksOff(subs: seq<Submission>) {
    forall j :: 0 <= j < |subs| && subs[j].outcome.Rejected? ==>
      subs[j].outcome.retryAfter == GetBackoff(TrailingRejections(subs[..j]) + 1)
  }

  /** Each publish call carries `start` plus the number of successes before it. */
  ghost predicate NumberedFrom(start: int, subs: seq<Submission>) {
    forall j :: 0 <= j < |subs| ==> subs[j].id as int == start + AcceptedCount(subs[..j])
  }

  /** Every post carries the initial id plus the number of earlier successes. */
  ghost predicate IdBook(s0: State, c: Control, subs: seq<Submission>) {
    && NumberedFrom(s0.id as int, subs)
    && c.state.id as int == s0.id as int + AcceptedCount(subs)
    && c.state.lastPost == LastPost(subs, s0.lastPost)
  }

  /** The same id's artifact is stored once, and everything posted is what is stored. */
  ghost predicate FilesBook(store0: Store, store: Store, subs: seq<Submission>, made: seq<Artifact>) {
    var s0 := store0.GetState();
    && (forall j :: 0 <= j < |subs| ==>
         Filename(subs[j].id) in store.files && store.files[Filename(subs[j].id)] == subs[j].bytes)
    && (s0.phase == Generated ==>
         && (Filename(s0.id) in store.files <==> Filename(s0.id) in store0.files)
         && (Filename(s0.id) in store0.files ==> store.files[Filename(s0.id)] == store0.files[Filename(s0.id)]))
    && (s0.phase == Generated ==> forall j :: 0 <= j < |subs| && subs[j].id == s0.id ==>
         Filename(s0.id) in store0.files && subs[j].bytes == store0.files[Filename(s0.id)])
    && (forall m, n :: 0 <= m < n < |made| ==> made[m].id < made[n].id)
    && (forall m :: 0 <= m < |made| ==>
         && s0.id <= made[m].id && (s0.phase == Generated ==> s0.id < made[m].id)
         && Filename(made[m].id) in store.files && store.files[Filename(made[m].id)] == made[m].bytes)
  }

  /** No production starts before the instant scheduled for it, with a jitter drawn from its range. */
  ghost predicate ScheduleBook(cfg: Config, made: seq<Artifact>) {
    forall m :: 0 <= m < |made| && made[m].after.Some? ==>
      && cfg.jitter > 0 && DrawInRange(cfg, made[m].draw)
      && made[m].startedAt >= ScheduledAt(made[m].after.value, cfg, made[m].draw)
  }

  /**
   * Each artifact comes from the pass it names: that pass's draw and image,
   * and the last post the record showed after the posts before it.
   */
  ghost predicate ProvenanceBook(s0: State, ticks: seq<Tick>, subs: seq<Submission>, made: seq<Artifact>) {
    && (forall m :: 0 <= m < |made| ==>
         && made[m].pass <= |subs| && made[m].pass < |ticks|
         && made[m].draw == ticks[made[m].pass].draw
         && Some(made[m].bytes) == ticks[made[m].pass].production.png
         && made[m].after == LastPost(subs[..made[m].pass], s0.lastPost))
    && (forall m, n :: 0 <= m < n < |made| ==> made[m].pass < made[n].pass)
  }

  /** The id of the first artifact a run from `s0` produces: the loaded one, unless that one is already pending. */
  function FirstNewId(s0: State): int {
    s0.id as int + if s0.phase == Generated then 1 else 0
  }

  /** A post of the artifact that was already pending when the run started. */
  predicate Resumed(s0: State, x: Submission) {
    s0.phase == Generated && x.id == s0.id
  }

  /** The artifacts carry consecutive ids, and every post is of one of them or of the resumed one. */
  ghost predicate MadeBook(s0: State, subs: seq<Submission>, made: seq<Artifact>) {
    && (forall m :: 0 <= m < |made| ==> made[m].id as int == FirstNewId(s0) + m)
    && (forall j :: 0 <= j < |subs| ==> Resumed(s0, subs[j]) || subs[j].id as int < FirstNewId(s0) + |made|)
  }

  /** While the process is alive, the record's id is the next one to produce, or the last one produced while it is pending. */
  ghost predicate NextId(s0: State, c: Control, made: seq<Artifact>) {
    c.state.id as int + (if c.state.phase == Generated then 1 else 0) == FirstNewId(s0) + |made|
  }

  /** While the process is alive and awaiting, every artifact comes from a pass already over. */
  ghost predicate PassesOver(c: Control, subs: seq<Submission>, made: seq<Artifact>) {
    c.state.phase == Awaiting ==> forall m :: 0 <= m < |made| ==> made[m].pass < |subs|
  }

  /** The paths of the artifacts of ids `lo` to `hi`: all the run may write. */
  ghost function RunPaths(lo: u32, hi: u32): set<Path> {
    set id: u32 | lo <= id <= hi :: Filename(id)
  }

  /** Every file other than the artifacts of the ids the run went through is as it was. */
  ghost predicate FrameBook(store0: Store, store: Store, c: Control) {
    var paths := RunPaths(store0.GetState().id, c.state.id);
    store.files - paths == store0.files - paths
  }

  /** The saved record is consistent, and never ahead of what has been posted. */
  ghost predicate RecordBook(store0: Store, store: Store, c: Control, subs: seq<Submission>) {
    && (store.Consistent() || store == store0)
    && store.imagesDirOk == store0.imagesDirOk
    && (store.record.Some? ==> store.record.value.id <= c.state.id)
    && (store.record.Some? ==> forall j :: 0 <= j < |subs| ==>
         || subs[j].id < store.record.value.id
         || (subs[j].id == store.record.value.id && store.record.value.phase == Generated))
  }

  /** While the process is alive: memory agrees with storage. */
  ghost predicate Live(store0: Store, store: Store, c: Control, subs: seq<Submission>, made: seq<Artifact>) {
    var s0 := store0.GetState();
    && store.GetState() == c.state
    && (c.state.phase == Generated ==> store.record == Some(c.state))
    && (c.currentImage.Some? ==>
         && c.state.phase == Generated && Filename(c.state.id) in store.files
         && c.currentImage.value == store.files[Filename(c.state.id)])
    && (forall j :: 0 <= j < |subs| ==>
         subs[j].id <= c.state.id && (c.state.phase == Awaiting ==> subs[j].id < c.state.id))
    && (forall m :: 0 <= m < |made| ==>
         made[m].id <= c.state.id && (c.state.phase == Awaiting ==> made[m].id < c.state.id))
    && (s0.phase == Generated && c.state.phase == Awaiting ==> s0.id < c.state.id)
  }

  /** The loop invariant after `i` passes; `running` is false once a pass has panicked. */
  ghost predicate Inv(store0: Store, cfg: Config, ticks: seq<Tick>, i: nat,
                      store: Store, c: Control, made: seq<Artifact>, subs: seq<Submission>, running: bool)
  {
    && i <= |ticks|
    && |subs| <= i
    && TraceBook(ticks, subs)
    && RetryBook(c, subs)
    && IdBook(store0.GetState(), c, subs)
    && FilesBook(store0, store, subs, made)
    && ScheduleBook(cfg, made)
    && ProvenanceBook(store0.GetState(), ticks, subs, made)
    && MadeBook(store0.GetState(), subs, made)
    && FrameBook(store0, store, c)
    && RecordBook(store0, store, c, subs)
    && (running ==> |subs| == i && Live(store0, store, c, subs, made)
                    && NextId(store0.GetState(), c, made) && PassesOver(c, subs, made))
    && (store0.imagesDirOk && store0.Consistent() && (forall j :: 0 <= j < i ==> TickHealthy(cfg, ticks[j])) ==> running)
  }

  /** After a panic nothing more happens, so the invariant holds for the whole trace. */
  lemma HaltedInvLifts(store0: Store, cfg: Config, ticks: seq<Tick>, i: nat,
                       store: Store, c: Control, made: seq<Artifact>, subs: seq<Submission>)
    requires Inv(store0, cfg, ticks, i, store, c, made, subs, false)
    ensures Inv(store0, cfg, ticks, |ticks|, store, c, made, subs, false)
  {
  }

  /** What the invariant says about how the run ended. */
  lemma InvMeansProgress(store0: Store, cfg: Config, ticks: seq<Tick>,
                 store: Store, c: Control, made: seq<Artifact>, subs: seq<Submission>, exit: Exit)
    requires Inv(store0, cfg, ticks, |ticks|, store, c, made, subs, exit.Finished?)
    ensures store0.imagesDirOk && store0.Consistent() && (forall j :: 0 <= j < |ticks| ==> TickHealthy(cfg, ticks[j])) ==>
      exit.Finished?
    ensures |subs| <= |ticks| && (exit.Finished? ==> |subs| == |ticks|)
    ensures exit.Finished? ==> store.GetState() == c.state
    ensures store.Consistent() || store == store0
    ensures store.imagesDirOk == store0.imagesDirOk
    ensures store.record.Some? ==> store.record.value.id <= c.state.id
    ensures store.record.Some? ==> forall j :: 0 <= j < |subs| ==>
      || subs[j].id < store.record.value.id
      || (subs[j].id == store.record.value.id && store.record.value.phase == Generated)
    ensures store.files - RunPaths(store0.GetState().id, c.state.id) == store0.files - RunPaths(store0.GetState().id, c.state.id)
    ensures exit.Finished? ==>
      c.state.id as int + (if c.state.phase == Generated then 1 else 0) == FirstNewId(store0.GetState()) + |made|
  {
  }

  /** What the invariant says about the publish log. */
  lemma InvMeansLog(store0: Store, ticks: seq<Tick>, c: Control, subs: seq<Submission>)
    requires TraceBook(ticks, subs) && RetryBook(c, subs) && IdBook(store0.GetState(), c, subs)
    ensures forall j :: 0 <= j < |subs| ==> (subs[j].outcome.Accepted? <==> ticks[j].publication.accepted)
    ensures forall j :: 0 <= j < |subs| && subs[j].outcome.Accepted? ==> subs[j].outcome.at == ticks[j].publication.clock
    ensures BacksOff(subs)
    ensures c.attempt == TrailingRejections(subs)
    ensures NumberedFrom(store0.GetState().id as int, subs)
    ensures c.state.id as int == store0.GetState().id as int + AcceptedCount(subs)
    ensures c.state.lastPost == LastPost(subs, store0.GetState().lastPost)
  {
  }

  /** What the invariant says about the artifacts. */
  lemma InvMeansArtifacts(store0: Store, cfg: Config, ticks: seq<Tick>,
                 store: Store, c: Control, made: seq<Artifact>, subs: seq<Submission>, exit: Exit)
    requires Inv(store0, cfg, ticks, |ticks|, store, c, made, subs, exit.Finished?)
    ensures forall j :: 0 <= j < |subs| ==>
      Filename(subs[j].id) in store.files && store.files[Filename(subs[j].id)] == subs[j].bytes
    ensures forall j, k :: 0 <= j < |subs| && 0 <= k < |subs| && subs[j].id == subs[k].id ==> subs[j].bytes == subs[k].bytes
    ensures store0.GetState().phase == Generated ==> forall j :: 0 <= j < |subs| && subs[j].id == store0.GetState().id ==>
      Filename(subs[j].id) in store0.files && subs[j].bytes == store0.files[Filename(subs[j].id)]
    ensures forall m, n :: 0 <= m < n < |made| ==> made[m].id < made[n].id
    ensures store0.GetState().phase == Generated ==> forall m :: 0 <= m < |made| ==> store0.GetState().id < made[m].id
    ensures forall m :: 0 <= m < |made| && made[m].after.Some? ==>
      && DrawInRange(cfg, made[m].draw) && made[m].startedAt >= ScheduledAt(made[m].after.value, cfg, made[m].draw)
      && made[m].startedAt >= made[m].after.value + cfg.sleepTime - cfg.jitter
  {
    forall m | 0 <= m < |made| && made[m].after.Some?
      ensures made[m].startedAt >= made[m].after.value + cfg.sleepTime - cfg.jitter
    {
      ScheduledWithinJitter(made[m].after.value, cfg, made[m].draw);
    }
  }

  /**
   * What the invariant says about where the artifacts come from: each one
   * is the image of the pass that made it, wait included, and every post
   * not of the resumed artifact sends the bytes of one of them.
   */
  lemma InvMeansProvenance(store0: Store, store: Store, ticks: seq<Tick>, subs: seq<Submission>, made: seq<Artifact>)
    requires ProvenanceBook(store0.GetState(), ticks, subs, made) && MadeBook(store0.GetState(), subs, made)
    requires NumberedFrom(store0.GetState().id as int, subs) && FilesBook(store0, store, subs, made)
    ensures forall m :: 0 <= m < |made| ==>
      && made[m].pass <= |subs| && made[m].pass < |ticks|
      && made[m].draw == ticks[made[m].pass].draw
      && Some(made[m].bytes) == ticks[made[m].pass].production.png
      && made[m].after == LastPost(subs[..made[m].pass], store0.GetState().lastPost)
    ensures forall m, n :: 0 <= m < n < |made| ==> made[m].pass < made[n].pass
    ensures |made| <= |ticks|
    ensures forall m :: 0 <= m < |made| ==> made[m].id as int == FirstNewId(store0.GetState()) + m
    ensures forall j {:trigger Resumed(store0.GetState(), subs[j])} :: 0 <= j < |subs| && !Resumed(store0.GetState(), subs[j]) ==>
      exists m :: 0 <= m < |made| && made[m].id == subs[j].id && made[m].bytes == subs[j].bytes
  {
    var s0 := store0.GetState();
    PassesBound(made, |ticks|);
    forall j | 0 <= j < |subs| && !Resumed(s0, subs[j])
      ensures exists m :: 0 <= m < |made| && made[m].id == subs[j].id && made[m].bytes == subs[j].bytes
    {
      var m := subs[j].id as int - FirstNewId(s0);
      assert 0 <= m < |made|;
      assert made[m].id == subs[j].id;
    }
  }

  /** Artifacts from strictly later passes, each below `bound`, number at most `bound`. */
  lemma {:induction false} PassesBound(made: seq<Artifact>, bound: nat)
    requires forall m, n :: 0 <= m < n < |made| ==> made[m].pass < made[n].pass
    requires forall m :: 0 <= m < |made| ==> made[m].pass < bound
    ensures |made| <= bound
  {
    if made != [] {
      var last := made[|made| - 1];
      PassesBound(made[..|made| - 1], last.pass);
    }
  }

  /** Before the first pass. */
  lemma InitialInv(store0: Store, cfg: Config, ticks: seq<Tick>)
    ensures Inv(store0, cfg, ticks, 0, store0, Control(store0.GetState(), None, 0), [], [], true)
  {
  }

  /** A write to one path leaves every other path as it was. */
  lemma SameOutside(before: map<Path, Bytes>, after: map<Path, Bytes>, p: Path, q: Path)
    requires after - {p} == before - {p}
    requires q != p
    ensures q in after <==> q in before
    ensures q in before ==> after[q] == before[q]
  {
    assert q in after <==> q in after - {p};
    assert q in before <==> q in before - {p};
    if q in before {
      assert (after - {p})[q] == after[q];
      assert (before - {p})[q] == before[q];
    }
  }

  /**
   * Writing the artifact of an id above every id posted or produced so far
   * (and above a pending initial id) leaves their stored artifacts intact.
   */
  lemma ProduceKeepsFiles(store0: Store, before: Store, after: Store, id: u32, subs: seq<Submission>, made: seq<Artifact>)
    requires FilesBook(store0, before, subs, made)
    requires after.files - {Filename(id)} == before.files - {Filename(id)}
    requires forall j :: 0 <= j < |subs| ==> subs[j].id < id
    requires forall m :: 0 <= m < |made| ==> made[m].id < id
    requires store0.GetState().phase == Generated ==> store0.GetState().id < id
    ensures FilesBook(store0, after, subs, made)
  {
    var s0 := store0.GetState();
    forall j | 0 <= j < |subs|
      ensures Filename(subs[j].id) in after.files && after.files[Filename(subs[j].id)] == subs[j].bytes
    {
      FilenameInjective(subs[j].id, id);
      SameOutside(before.files, after.files, Filename(id), Filename(subs[j].id));
    }
    forall m | 0 <= m < |made|
      ensures Filename(made[m].id) in after.files && after.files[Filename(made[m].id)] == made[m].bytes
    {
      FilenameInjective(made[m].id, id);
      SameOutside(before.files, after.files, Filename(id), Filename(made[m].id));
    }
    if s0.phase == Generated {
      FilenameInjective(s0.id, id);
      SameOutside(before.files, after.files, Filename(id), Filename(s0.id));
    }
  }

  /** The artifacts written so far, after the `Awaiting` branch. */
  function MadeAfter(made: seq<Artifact>, r: Produced): seq<Artifact> {
    if r.written.Some? then made + [r.written.value] else made
  }

  /** The loop variables after the `Awaiting` branch: the bytes just written stay in memory. */
  function ControlAfter(c: Control, r: Produced): Control {
    c.(state := r.state, currentImage := if r.written.Some? then Some(r.written.value.bytes) else None)
  }

  /** The publish log after the `Generated` branch. */
  function SubsAfter(subs: seq<Submission>, r: Published): seq<Submission> {
    if r.sub.Some? then subs + [r.sub.value] else subs
  }

  /** The `Awaiting` branch stores its artifact under a fresh id, leaving every artifact stored so far intact. */
  lemma ProduceKeepsArtifacts(store0: Store, cfg: Config, t: Tick, pass: nat,
                              store: Store, c: Control, made: seq<Artifact>, subs: seq<Submission>)
    requires FilesBook(store0, store, subs, made) && FrameBook(store0, store, c) && Live(store0, store, c, subs, made)
    requires store0.GetState().id <= c.state.id
    requires c.state.phase == Awaiting
    ensures var r := Produce(store, cfg, t, c.state, pass);
      && FilesBook(store0, r.store, subs, MadeAfter(made, r))
      && FrameBook(store0, r.store, ControlAfter(c, r))
      && (r.written.Some? ==>
           && (forall j :: 0 <= j < |subs| ==> subs[j].id < r.written.value.id)
           && (forall m :: 0 <= m < |made| ==> made[m].id < r.written.value.id))
  {
    var r := Produce(store, cfg, t, c.state, pass);
    ProduceKeepsFiles(store0, store, r.store, c.state.id, subs, made);
    RunPathsHold(store0.GetState().id, c.state.id);
    FrameWrite(store0.files, store.files, r.store.files, RunPaths(store0.GetState().id, c.state.id), Filename(c.state.id));
  }

  /** The current id's artifact is among the paths the run may write. */
  lemma RunPathsHold(lo: u32, hi: u32)
    requires lo <= hi
    ensures Filename(hi) in RunPaths(lo, hi)
  {
  }

  /** Writing one path the frame leaves out keeps the frame. */
  lemma FrameWrite(m0: map<Path, Bytes>, m1: map<Path, Bytes>, m2: map<Path, Bytes>, paths: set<Path>, p: Path)
    requires m1 - paths == m0 - paths
    requires m2 - {p} == m1 - {p}
    requires p in paths
    ensures m2 - paths == m0 - paths
  {
    forall q | q !in paths
      ensures q in m2 <==> q in m1
      ensures q in m1 ==> m2[q] == m1[q]
    {
      SameOutside(m1, m2, p, q);
    }
    assert m2 - paths == m1 - paths;
  }

  /** Widening the set of paths the run may write keeps the frame. */
  lemma FrameWiden(m0: map<Path, Bytes>, m1: map<Path, Bytes>, lo: u32, hi: u32, hi': u32)
    requires hi <= hi'
    requires m1 - RunPaths(lo, hi) == m0 - RunPaths(lo, hi)
    ensures m1 - RunPaths(lo, hi') == m0 - RunPaths(lo, hi')
  {
    var small, large := RunPaths(lo, hi), RunPaths(lo, hi');
    assert small <= large;
    forall q | q !in large
      ensures q in m1 <==> q in m0
      ensures q in m0 ==> m1[q] == m0[q]
    {
      assert q in m1 <==> q in m1 - small;
      assert q in m0 <==> q in m0 - small;
      if q in m0 {
        assert (m1 - small)[q] == m1[q];
        assert (m0 - small)[q] == m0[q];
      }
    }
  }

  /** The `Awaiting` branch starts its artifact no earlier than the instant scheduled with the jitter drawn. */
  lemma ProduceKeepsSchedule(cfg: Config, t: Tick, pass: nat, store: Store, state: State, made: seq<Artifact>)
    requires ScheduleBook(cfg, made)
    requires DrawInRange(cfg, t.draw) && state.phase == Awaiting
    ensures var r := Produce(store, cfg, t, state, pass);
      ScheduleBook(cfg, MadeAfter(made, r))
  {
    var r := Produce(store, cfg, t, state, pass);
    if r.written.Some? {
      var a := r.written.value;
      assert MadeAfter(made, r) == made + [a];
      if a.after.Some? {
        assert TimeToWait(state.lastPost, cfg, t.draw, t.clock) == Ok(a.startedAt - t.clock);
      }
    }
  }

  /** The `Awaiting` branch leaves the record consistent, and in memory what it saved. */
  lemma ProduceKeepsRecord(store0: Store, cfg: Config, t: Tick, pass: nat,
                           store: Store, c: Control, made: seq<Artifact>, subs: seq<Submission>)
    requires RecordBook(store0, store, c, subs) && Live(store0, store, c, subs, made)
    requires c.state.phase == Awaiting
    ensures var r := Produce(store, cfg, t, c.state, pass);
      && RecordBook(store0, r.store, ControlAfter(c, r), subs)
      && (r.halt.None? ==> Live(store0, r.store, ControlAfter(c, r), subs, MadeAfter(made, r)))
      && (r.halt.None? ==> ControlAfter(c, r).state.phase == Generated)
      && (r.halt.Some? ==> !TickHealthy(cfg, t) || !store0.imagesDirOk)
  {
  }

  /** The `Awaiting` branch keeps the invariant: a panic ends the pass, success leaves a `Generated` record. */
  lemma ProduceStep(store0: Store, cfg: Config, ticks: seq<Tick>, i: nat,
                    store: Store, c: Control, made: seq<Artifact>, subs: seq<Submission>)
    requires Inv(store0, cfg, ticks, i, store, c, made, subs, true)
    requires i < |ticks| && DrawInRange(cfg, ticks[i].draw)
    requires c.state.phase == Awaiting
    ensures var r := Produce(store, cfg, ticks[i], c.state, i);
      && (r.halt.Some? ==> Inv(store0, cfg, ticks, i + 1, r.store, ControlAfter(c, r), MadeAfter(made, r), subs, false))
      && (r.halt.None? ==> Inv(store0, cfg, ticks, i, r.store, ControlAfter(c, r), MadeAfter(made, r), subs, true))
      && (r.halt.None? ==> ControlAfter(c, r).state.phase == Generated)
  {
    ProduceKeepsArtifacts(store0, cfg, ticks[i], i, store, c, made, subs);
    ProduceKeepsSchedule(cfg, ticks[i], i, store, c.state, made);
    ProduceKeepsRecord(store0, cfg, ticks[i], i, store, c, made, subs);
    ProduceKeepsProvenance(store0.GetState(), ticks, c, made, subs, Produce(store, cfg, ticks[i], c.state, i));
  }

  /**
   * The `Awaiting` branch records the pass, draw, image and last post of the
   * artifact it makes, under the next id: what `Produce` promises of its
   * artifact is enough for the provenance books.
   */
  lemma ProduceKeepsProvenance(s0: State, ticks: seq<Tick>, c: Control, made: seq<Artifact>, subs: seq<Submission>, r: Produced)
    requires ProvenanceBook(s0, ticks, subs, made) && MadeBook(s0, subs, made) && NextId(s0, c, made)
    requires PassesOver(c, subs, made)
    requires |subs| < |ticks| && c.state.lastPost == LastPost(subs, s0.lastPost) && c.state.phase == Awaiting
    requires r.written.Some? ==>
      && r.written.value.id == c.state.id && r.written.value.pass == |subs|
      && r.written.value.draw == ticks[|subs|].draw && Some(r.written.value.bytes) == ticks[|subs|].production.png
      && r.written.value.after == c.state.lastPost
    requires r.halt.None? ==> r.written.Some? && r.state == c.state.MarkGenerated()
    ensures ProvenanceBook(s0, ticks, subs, MadeAfter(made, r)) && MadeBook(s0, subs, MadeAfter(made, r))
    ensures r.halt.None? ==> NextId(s0, ControlAfter(c, r), MadeAfter(made, r))
    ensures r.halt.None? ==> PassesOver(ControlAfter(c, r), subs, MadeAfter(made, r))
  {
    if r.written.Some? {
      assert subs[..|subs|] == subs;
      AppendArtifact(s0, ticks, subs, made, r.written.value);
    }
  }

  /** An artifact of the current pass, under the next id, keeps the provenance books. */
  lemma AppendArtifact(s0: State, ticks: seq<Tick>, subs: seq<Submission>, made: seq<Artifact>, a: Artifact)
    requires ProvenanceBook(s0, ticks, subs, made) && MadeBook(s0, subs, made)
    requires forall m :: 0 <= m < |made| ==> made[m].pass < |subs|
    requires a.pass == |subs| < |ticks| && a.id as int == FirstNewId(s0) + |made|
    requires a.draw == ticks[a.pass].draw && Some(a.bytes) == ticks[a.pass].production.png
    requires a.after == LastPost(subs[..a.pass], s0.lastPost)
    ensures ProvenanceBook(s0, ticks, subs, made + [a]) && MadeBook(s0, subs, made + [a])
  {
    var made' := made + [a];
    forall m | 0 <= m < |made'|
      ensures made'[m] == if m < |made| then made[m] else a
    {
    }
  }

  /** How the bookkeeping functions extend by one more submission. */
  lemma AppendSubmission(subs: seq<Submission>, x: Submission, initial: Option<Instant>)
    ensures forall j :: 0 <= j <= |subs| ==> (subs + [x])[..j] == subs[..j]
    ensures AcceptedCount(subs + [x]) == AcceptedCount(subs) + (if x.outcome.Accepted? then 1 else 0)
    ensures TrailingRejections(subs + [x]) == (if x.outcome.Accepted? then 0 else TrailingRejections(subs) + 1)
    ensures LastPost(subs + [x], initial) == (if x.outcome.Accepted? then Some(x.outcome.at) else LastPost(subs, initial))
  {
    assert (subs + [x])[..|subs|] == subs;
  }

  /** What the `Generated` branch needs: the record is saved as `Generated`, and its id can still grow. */
  lemma PublishReady(store0: Store, cfg: Config, ticks: seq<Tick>, i: nat,
                     store: Store, c: Control, made: seq<Artifact>, subs: seq<Submission>)
    requires Inv(store0, cfg, ticks, i, store, c, made, subs, true)
    requires i < |ticks| && store0.GetState().id as int + |ticks| <= U32Max as int
    requires c.state.phase == Generated
    ensures store.record == Some(c.state) && c.state.id < U32Max
  {
  }

  /** Logging one more publish call, answered as the trace says, keeps the trace book. */
  lemma TraceAppend(ticks: seq<Tick>, subs: seq<Submission>, x: Submission)
    requires |subs| < |ticks| && TraceBook(ticks, subs)
    requires x.outcome.Accepted? <==> ticks[|subs|].publication.accepted
    requires x.outcome.Accepted? ==> x.outcome.at == ticks[|subs|].publication.clock
    ensures TraceBook(ticks, subs + [x])
  {
    var subs' := subs + [x];
    forall j | 0 <= j < |subs'|
      ensures subs'[j].outcome.Accepted? <==> ticks[j].publication.accepted
      ensures subs'[j].outcome.Accepted? ==> subs'[j].outcome.at == ticks[j].publication.clock
    {
      if j < |subs| {
        assert subs'[j] == subs[j];
      }
    }
  }

  /** A failure counted and backed off along the table keeps the retry book. */
  lemma RetryAppend(c: Control, c': Control, subs: seq<Submission>, x: Submission)
    requires RetryBook(c, subs)
    requires x.outcome.Rejected? ==> x.outcome.retryAfter == GetBackoff(c.attempt + 1)
    requires c'.attempt == if x.outcome.Accepted? then 0 else c.attempt + 1
    ensures RetryBook(c', subs + [x])
  {
    var subs' := subs + [x];
    AppendSubmission(subs, x, None);
    forall j | 0 <= j < |subs'| && subs'[j].outcome.Rejected?
      ensures subs'[j].outcome.retryAfter == GetBackoff(TrailingRejections(subs'[..j]) + 1)
    {
      if j < |subs| {
        assert subs'[j] == subs[j];
      } else {
        assert subs'[..j] == subs;
      }
    }
  }

  /** A post under the current id, moving on exactly when it succeeds, keeps the id book. */
  lemma IdAppend(s0: State, c: Control, c': Control, subs: seq<Submission>, x: Submission)
    requires IdBook(s0, c, subs)
    requires x.id == c.state.id
    requires c'.state.id as int == c.state.id as int + if x.outcome.Accepted? then 1 else 0
    requires c'.state.lastPost == if x.outcome.Accepted? then Some(x.outcome.at) else c.state.lastPost
    ensures IdBook(s0, c', subs + [x])
  {
    var subs' := subs + [x];
    AppendSubmission(subs, x, s0.lastPost);
    forall j | 0 <= j < |subs'|
      ensures subs'[j].id as int == s0.id as int + AcceptedCount(subs'[..j])
    {
      if j < |subs| {
        assert subs'[j] == subs[j];
      } else {
        assert subs'[..j] == subs;
      }
    }
  }

  /** The `Generated` branch extends the publish log in step with the trace. */
  lemma PublishKeepsLog(s0: State, ticks: seq<Tick>, i: nat, store: Store, c: Control, subs: seq<Submission>)
    requires |subs| == i < |ticks|
    requires TraceBook(ticks, subs) && RetryBook(c, subs) && IdBook(s0, c, subs)
    requires c.state.phase == Generated && store.record == Some(c.state) && c.state.id < U32Max
    ensures var r := Publish(store, ticks[i].publication, c);
      var subs' := SubsAfter(subs, r);
      && TraceBook(ticks, subs') && RetryBook(r.c, subs') && IdBook(s0, r.c, subs')
  {
    var r := Publish(store, ticks[i].publication, c);
    if r.sub.Some? {
      TraceAppend(ticks, subs, r.sub.value);
      RetryAppend(c, r.c, subs, r.sub.value);
      IdAppend(s0, c, r.c, subs, r.sub.value);
    }
  }

  /** An accepted post moves the record past every id posted or produced so far. */
  lemma AcceptedKeepsStore(store0: Store, store: Store, p: Publication, c: Control, subs: seq<Submission>, made: seq<Artifact>)
    requires FilesBook(store0, store, subs, made) && RecordBook(store0, store, c, subs) && Live(store0, store, c, subs, made)
    requires c.state.phase == Generated && store.record == Some(c.state) && c.state.id < U32Max
    requires ImageToPost(store, c).Ok? && p.accepted
    requires store0.GetState().id <= c.state.id
    ensures var r := Publish(store, p, c);
      var subs' := SubsAfter(subs, r);
      && FilesBook(store0, r.store, subs', made) && RecordBook(store0, r.store, r.c, subs')
      && (r.halt.None? ==> Live(store0, r.store, r.c, subs', made))
  {
    var r := Publish(store, p, c);
    var x := r.sub.value;
    var subs' := subs + [x];
    assert x.bytes == store.files[Filename(c.state.id)];
    forall j | 0 <= j < |subs'|
      ensures Filename(subs'[j].id) in r.store.files && r.store.files[Filename(subs'[j].id)] == subs'[j].bytes
      ensures subs'[j].id <= c.state.id
    {
      if j < |subs| {
        assert subs'[j] == subs[j];
      }
    }
    assert FilesBook(store0, r.store, subs', made);
    assert RecordBook(store0, r.store, r.c, subs');
  }

  /** A rejected post keeps the record and the bytes for the retry. */
  lemma RejectedKeepsStore(store0: Store, store: Store, p: Publication, c: Control, subs: seq<Submission>, made: seq<Artifact>)
    requires FilesBook(store0, store, subs, made) && RecordBook(store0, store, c, subs) && Live(store0, store, c, subs, made)
    requires c.state.phase == Generated && store.record == Some(c.state) && c.state.id < U32Max
    requires ImageToPost(store, c).Ok? && !p.accepted
    ensures var r := Publish(store, p, c);
      var subs' := SubsAfter(subs, r);
      && FilesBook(store0, r.store, subs', made) && RecordBook(store0, r.store, r.c, subs')
      && Live(store0, r.store, r.c, subs', made)
  {
    var r := Publish(store, p, c);
    var x := r.sub.value;
    var subs' := subs + [x];
    assert x.bytes == store.files[Filename(c.state.id)];
    forall j | 0 <= j < |subs'|
      ensures Filename(subs'[j].id) in r.store.files && r.store.files[Filename(subs'[j].id)] == subs'[j].bytes
      ensures subs'[j].id <= c.state.id
    {
      if j < |subs| {
        assert subs'[j] == subs[j];
      }
    }
    assert FilesBook(store0, r.store, subs', made);
    assert RecordBook(store0, r.store, r.c, subs');
  }

  /** The `Generated` branch keeps the stored artifacts and the record in order. */
  lemma PublishKeepsStore(store0: Store, store: Store, p: Publication, c: Control, subs: seq<Submission>, made: seq<Artifact>)
    requires FilesBook(store0, store, subs, made) && RecordBook(store0, store, c, subs) && Live(store0, store, c, subs, made)
    requires FrameBook(store0, store, c)
    requires c.state.phase == Generated && store.record == Some(c.state) && c.state.id < U32Max
    requires store0.GetState().id <= c.state.id
    ensures var r := Publish(store, p, c);
      var subs' := SubsAfter(subs, r);
      && FilesBook(store0, r.store, subs', made) && RecordBook(store0, r.store, r.c, subs')
      && FrameBook(store0, r.store, r.c)
      && (r.halt.None? ==> Live(store0, r.store, r.c, subs', made))
      && (r.sub.None? ==> !store0.imagesDirOk || !store0.Consistent())
  {
    var r := Publish(store, p, c);
    FrameWiden(store0.files, r.store.files, store0.GetState().id, c.state.id, r.c.state.id);
    if ImageToPost(store, c).Ok? {
      if p.accepted {
        AcceptedKeepsStore(store0, store, p, c, subs, made);
      } else {
        RejectedKeepsStore(store0, store, p, c, subs, made);
      }
    }
  }

  /** The `Generated` branch keeps the invariant, and ends the pass. */
  lemma PublishStep(store0: Store, cfg: Config, ticks: seq<Tick>, i: nat,
                    store: Store, c: Control, made: seq<Artifact>, subs: seq<Submission>)
    requires Inv(store0, cfg, ticks, i, store, c, made, subs, true)
    requires i < |ticks| && store0.GetState().id as int + |ticks| <= U32Max as int
    requires c.state.phase == Generated
    ensures store.record == Some(c.state) && c.state.id < U32Max
    ensures var r := Publish(store, ticks[i].publication, c);
      var subs' := SubsAfter(subs, r);
      && Inv(store0, cfg, ticks, i + 1, r.store, r.c, made, subs', r.halt.None?)
      && (r.halt.None? ==> subs' != [] && (r.c.state.phase == Awaiting <==> subs'[|subs'| - 1].outcome.Accepted?))
  {
    PublishReady(store0, cfg, ticks, i, store, c, made, subs);
    PublishKeepsLog(store0.GetState(), ticks, i, store, c, subs);
    PublishKeepsStore(store0, store, ticks[i].publication, c, subs, made);
    PublishKeepsProvenance(store0.GetState(), ticks, store, ticks[i].publication, c, subs, made);
  }

  /** The `Generated` branch posts the last artifact produced, or the resumed one, and keeps the record of where each came from. */
  lemma PublishKeepsProvenance(s0: State, ticks: seq<Tick>, store: Store, p: Publication,
                               c: Control, subs: seq<Submission>, made: seq<Artifact>)
    requires ProvenanceBook(s0, ticks, subs, made) && MadeBook(s0, subs, made) && NextId(s0, c, made)
    requires c.state.phase == Generated && store.record == Some(c.state) && c.state.id < U32Max
    ensures var r := Publish(store, p, c);
      var subs' := SubsAfter(subs, r);
      && ProvenanceBook(s0, ticks, subs', made) && MadeBook(s0, subs', made)
      && (r.halt.None? ==> NextId(s0, r.c, made) && PassesOver(r.c, subs', made))
  {
    var r := Publish(store, p, c);
    if r.sub.Some? {
      var x := r.sub.value;
      AppendSubmission(subs, x, s0.lastPost);
      var subs' := subs + [x];
      forall j | 0 <= j < |subs'|
        ensures Resumed(s0, subs'[j]) || subs'[j].id as int < FirstNewId(s0) + |made|
      {
        if j < |subs| {
          assert subs'[j] == subs[j];
        }
      }
    }
  }

  /**
   * The `Awaiting` branch of a pass (src/main.rs:348-404): produce, save and
   * cache a new artifact. `exit` is `Finished` when the pass goes on to the
   * `Generated` branch and a panic otherwise.
   */
  method ProduceBranch(store0: Store, cfg: Config, ticks: seq<Tick>, i: nat,
                       store: Store, c: Control, made: seq<Artifact>, subs: seq<Submission>)
    returns (store': Store, c': Control, made': seq<Artifact>, exit: Exit)
    requires Inv(store0, cfg, ticks, i, store, c, made, subs, true)
    requires i < |ticks| && DrawInRange(cfg, ticks[i].draw)
    requires c.state.phase == Awaiting
    ensures exit.Finished? ==> Inv(store0, cfg, ticks, i, store', c', made', subs, true) && c'.state.phase == Generated
    ensures !exit.Finished? ==> Inv(store0, cfg, ticks, i + 1, store', c', made', subs, false)
  {
    ProduceStep(store0, cfg, ticks, i, store, c, made, subs);
    var r := Produce(store, cfg, ticks[i], c.state, i);
    store', c', made' := r.store, ControlAfter(c, r), MadeAfter(made, r);
    exit := if r.halt.Some? then Panicked(r.halt.value) else Finished;
  }

  /** The `Generated` branch of a pass (src/main.rs:407-434): post the pending artifact once. */
  method PublishBranch(store0: Store, cfg: Config, ticks: seq<Tick>, i: nat,
                       store: Store, c: Control, made: seq<Artifact>, subs: seq<Submission>)
    returns (store': Store, c': Control, subs': seq<Submission>, exit: Exit)
    requires Inv(store0, cfg, ticks, i, store, c, made, subs, true)
    requires i < |ticks| && store0.GetState().id as int + |ticks| <= U32Max as int
    requires c.state.phase == Generated
    ensures Inv(store0, cfg, ticks, i + 1, store', c', made, subs', exit.Finished?)
    ensures exit.Finished? ==> subs' != [] && (c'.state.phase == Awaiting <==> subs'[|subs'| - 1].outcome.Accepted?)
  {
    PublishStep(store0, cfg, ticks, i, store, c, made, subs);
    var r := Publish(store, ticks[i].publication, c);
    store', c', subs' := r.store, r.c, SubsAfter(subs, r);
    exit := if r.halt.Some? then Panicked(r.halt.value) else Finished;
  }

  /**
   * One pass of the loop body (src/main.rs:346-435): produce an artifact
   * when the record is `Awaiting`, then publish the pending one unless a
   * panic ended the run.
   */
  method Pass(store0: Store, cfg: Config, ticks: seq<Tick>, i: nat,
              store: Store, c: Control, made: seq<Artifact>, subs: seq<Submission>)
    returns (store': Store, c': Control, made': seq<Artifact>, subs': seq<Submission>, exit: Exit)
    requires Inv(store0, cfg, ticks, i, store, c, made, subs, true)
    requires i < |ticks| && DrawInRange(cfg, ticks[i].draw)
    requires store0.GetState().id as int + |ticks| <= U32Max as int
    ensures Inv(store0, cfg, ticks, i + 1, store', c', made', subs', exit.Finished?)
    ensures exit.Finished? ==> subs' != [] && (c'.state.phase == Awaiting <==> subs'[|subs'| - 1].outcome.Accepted?)
  {
    store', c', made' := store, c, made;
    if c.state.phase == Awaiting {
      store', c', made', exit := ProduceBranch(store0, cfg, ticks, i, store, c, made, subs);
      if !exit.Finished? {
        return store', c', made', subs, exit;
      }
    }
    store', c', subs', exit := PublishBranch(store0, cfg, ticks, i, store', c', made', subs);
  }

  /** The passes of the loop, each keeping the invariant, until the trace runs out or a pass panics. */
  method Passes(store0: Store, cfg: Config, ticks: seq<Tick>)
    returns (store: Store, c: Control, made: seq<Artifact>, subs: seq<Submission>, exit: Exit)
    requires forall i :: 0 <= i < |ticks| ==> DrawInRange(cfg, ticks[i].draw)
    requires store0.GetState().id as int + |ticks| <= U32Max as int
    ensures Inv(store0, cfg, ticks, |ticks|, store, c, made, subs, exit.Finished?)
    ensures exit.Finished? && subs != [] ==> (c.state.phase == Awaiting <==> subs[|subs| - 1].outcome.Accepted?)
  {
    store := store0;
    c := Control(store0.GetState(), None, 0);
    made, subs, exit := [], [], Finished;
    InitialInv(store0, cfg, ticks);
    var i := 0;
    while i < |ticks| && exit.Finished?
      invariant i <= |ticks|
      invariant Inv(store0, cfg, ticks, i, store, c, made, subs, exit.Finished?)
      invariant exit.Finished? && subs != [] ==> (c.state.phase == Awaiting <==> subs[|subs| - 1].outcome.Accepted?)
    {
      store, c, made, subs, exit := Pass(store0, cfg, ticks, i, store, c, made, subs);
      i := i + 1;
    }
    if !exit.Finished? {
      HaltedInvLifts(store0, cfg, ticks, i, store, c, made, subs);
    }
  }

  /**
   * The run-forever loop (src/main.rs:344-436), for as many passes as the
   * trace `ticks` describes or until a panic. It starts from the loaded
   * record (src/main.rs:303) with nothing in memory and no failed attempt.
   * It returns the final storage and loop variables, the artifacts it wrote
   * (`made`) and every publish call it made (`subs`).
   */
  method RunForever(store0: Store, cfg: Config, ticks: seq<Tick>)
    returns (store: Store, c: Control, made: seq<Artifact>, subs: seq<Submission>, exit: Exit)
    requires forall i :: 0 <= i < |ticks| ==> DrawInRange(cfg, ticks[i].draw)
    requires store0.GetState().id as int + |ticks| <= U32Max as int
    // a run over healthy collaborators never panics, and posts once per pass
    ensures store0.imagesDirOk && store0.Consistent() && (forall j :: 0 <= j < |ticks| ==> TickHealthy(cfg, ticks[j])) ==>
      exit.Finished?
    ensures |subs| <= |ticks| && (exit.Finished? ==> |subs| == |ticks|)
    ensures exit.Finished? ==> store.GetState() == c.state
    ensures exit.Finished? && subs != [] ==> (c.state.phase == Awaiting <==> subs[|subs| - 1].outcome.Accepted?)
    // the log follows the publisher's answers; failures back off along the table
    ensures forall j :: 0 <= j < |subs| ==> (subs[j].outcome.Accepted? <==> ticks[j].publication.accepted)
    ensures forall j :: 0 <= j < |subs| && subs[j].outcome.Accepted? ==> subs[j].outcome.at == ticks[j].publication.clock
    ensures BacksOff(subs)
    ensures c.attempt == TrailingRejections(subs)
    // every success, and only a success, moves to the next id and the new last post
    ensures NumberedFrom(store0.GetState().id as int, subs)
    ensures c.state.id as int == store0.GetState().id as int + AcceptedCount(subs)
    ensures c.state.lastPost == LastPost(subs, store0.GetState().lastPost)
    // what is posted is what is stored, so a retry sends the same bytes
    ensures forall j :: 0 <= j < |subs| ==>
      Filename(subs[j].id) in store.files && store.files[Filename(subs[j].id)] == subs[j].bytes
    ensures forall j, k :: 0 <= j < |subs| && 0 <= k < |subs| && subs[j].id == subs[k].id ==> subs[j].bytes == subs[k].bytes
    // a run resumed in the Generated phase posts the artifact already on disk
    ensures store0.GetState().phase == Generated ==> forall j :: 0 <= j < |subs| && subs[j].id == store0.GetState().id ==>
      Filename(subs[j].id) in store0.files && subs[j].bytes == store0.files[Filename(subs[j].id)]
    // each id is produced at most once, never before its due time
    ensures forall m, n :: 0 <= m < n < |made| ==> made[m].id < made[n].id
    ensures store0.GetState().phase == Generated ==> forall m :: 0 <= m < |made| ==> store0.GetState().id < made[m].id
    ensures forall m :: 0 <= m < |made| && made[m].after.Some? ==>
      && DrawInRange(cfg, made[m].draw) && made[m].startedAt >= ScheduledAt(made[m].after.value, cfg, made[m].draw)
      && made[m].startedAt >= made[m].after.value + cfg.sleepTime - cfg.jitter
    // each artifact is the image of the pass that made it, with that pass's draw and the last post known then
    ensures forall m :: 0 <= m < |made| ==>
      && made[m].pass <= |subs| && made[m].pass < |ticks|
      && made[m].draw == ticks[made[m].pass].draw
      && Some(made[m].bytes) == ticks[made[m].pass].production.png
      && made[m].after == LastPost(subs[..made[m].pass], store0.GetState().lastPost)
    // ids are produced one after another, and every post sends a produced artifact or the resumed one
    ensures forall m, n :: 0 <= m < n < |made| ==> made[m].pass < made[n].pass
    ensures |made| <= |ticks|
    ensures forall m :: 0 <= m < |made| ==> made[m].id as int == FirstNewId(store0.GetState()) + m
    ensures forall j {:trigger Resumed(store0.GetState(), subs[j])} :: 0 <= j < |subs| && !Resumed(store0.GetState(), subs[j]) ==>
      exists m :: 0 <= m < |made| && made[m].id == subs[j].id && made[m].bytes == subs[j].bytes
    // storage stays consistent, and the saved record is never behind what was posted
    ensures store.Consistent() || store == store0
    ensures store.imagesDirOk == store0.imagesDirOk
    ensures store.record.Some? ==> store.record.value.id <= c.state.id
    ensures store.record.Some? ==> forall j :: 0 <= j < |subs| ==>
      || subs[j].id < store.record.value.id
      || (subs[j].id == store.record.value.id && store.record.value.phase == Generated)
    // files other than the artifacts of the ids the run went through are as they were
    ensures store.files - RunPaths(store0.GetState().id, c.state.id) == store0.files - RunPaths(store0.GetState().id, c.state.id)
    // a run that did not panic holds the next id to produce, or the last one produced while it is pending
    ensures exit.Finished? ==>
      c.state.id as int + (if c.state.phase == Generated then 1 else 0) == FirstNewId(store0.GetState()) + |made|
  {
    store, c, made, subs, exit := Passes(store0, cfg, ticks);
    InvMeansProgress(store0, cfg, ticks, store, c, made, subs, exit);
    InvMeansLog(store0, ticks, c, subs);
    InvMeansArtifacts(store0, cfg, ticks, store, c, made, subs, exit);
    InvMeansProvenance(store0, store, ticks, subs, made);
  }

  /**
   * A pass whose publish call fails, repeated, then one that succeeds, all
   * with healthy collaborators: the bot posts a single artifact, under the
   * id it started with, sending the same bytes every time, and then awaits
   * exactly the next id.
   */
  method FailuresThenOnePost(store0: Store, cfg: Config, ticks: seq<Tick>)
    returns (store: Store, c: Control, subs: seq<Submission>)
    requires forall i :: 0 <= i < |ticks| ==> DrawInRange(cfg, ticks[i].draw) && TickHealthy(cfg, ticks[i])
    requires store0.imagesDirOk && store0.Consistent()
    requires store0.GetState().id as int + |ticks| <= U32Max as int
    requires ticks != [] && ticks[|ticks| - 1].publication.accepted
    requires forall i :: 0 <= i < |ticks| - 1 ==> !ticks[i].publication.accepted
    ensures |subs| == |ticks|
    ensures c.state.id as int == store0.GetState().id as int + 1 && c.state.phase == Awaiting
    ensures store.GetState() == c.state
    ensures forall j :: 0 <= j < |subs| ==> subs[j].id == store0.GetState().id
    ensures forall j :: 0 <= j < |subs| ==> subs[j].bytes == subs[0].bytes
  {
    var made, exit;
    store, c, made, subs, exit := RunForever(store0, cfg, ticks);
    FailuresThenSuccess(subs);
  }

  /**
   * The process is killed after one run and started again on the storage
   * it left. As long as the record survived, no id is ever posted with
   * two different images across the restart.
   */
  method Restart(store0: Store, cfg: Config, ticks1: seq<Tick>, ticks2: seq<Tick>)
    returns (subs1: seq<Submission>, subs2: seq<Submission>, store1: Store, store2: Store)
    requires forall i :: 0 <= i < |ticks1| ==> DrawInRange(cfg, ticks1[i].draw)
    requires forall i :: 0 <= i < |ticks2| ==> DrawInRange(cfg, ticks2[i].draw)
    requires store0.GetState().id as int + |ticks1| + |ticks2| <= U32Max as int
    requires 1 + |ticks2| <= U32Max as int
    ensures store1.record.Some? ==> forall j, k :: 0 <= j < |subs1| && 0 <= k < |subs2| && subs1[j].id == subs2[k].id ==>
      subs1[j].bytes == subs2[k].bytes
  {
    var c1, made1, exit1;
    store1, c1, made1, subs1, exit1 := RunForever(store0, cfg, ticks1);
    var c2, made2, exit2;
    store2, c2, made2, subs2, exit2 := RunForever(store1, cfg, ticks2);
    if store1.record.Some? {
      SameBytesAcrossRestart(store1, subs1, subs2);
    }
  }

  /** The record `store1` keeps bounds the first run's ids; the second run starts from it. */
  lemma SameBytesAcrossRestart(store1: Store, subs1: seq<Submission>, subs2: seq<Submission>)
    requires store1.record.Some?
    requires forall j :: 0 <= j < |subs1| ==>
      Filename(subs1[j].id) in store1.files && store1.files[Filename(subs1[j].id)] == subs1[j].bytes
    requires forall j :: 0 <= j < |subs1| ==>
      || subs1[j].id < store1.record.value.id
      || (subs1[j].id == store1.record.value.id && store1.record.value.phase == Generated)
    requires NumberedFrom(store1.GetState().id as int, subs2)
    requires store1.GetState().phase == Generated ==> forall j :: 0 <= j < |subs2| && subs2[j].id == store1.GetState().id ==>
      Filename(subs2[j].id) in store1.files && subs2[j].bytes == store1.files[Filename(subs2[j].id)]
    ensures forall j, k :: 0 <= j < |subs1| && 0 <= k < |subs2| && subs1[j].id == subs2[k].id ==>
      subs1[j].bytes == subs2[k].bytes
  {
    forall j, k | 0 <= j < |subs1| && 0 <= k < |subs2| && subs1[j].id == subs2[k].id
      ensures subs1[j].bytes == subs2[k].bytes
    {
      assert subs2[k].id >= store1.GetState().id;
    }
  }
}
