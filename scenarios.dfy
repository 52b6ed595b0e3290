/**
 * Concrete runs of the posting state machine, each worked out from the
 * contracts of the run-forever loop and of immediate mode alone.
 */
module Scenarios {
  import opened Base
  import opened BotState
  import opened Storage
  import opened Schedule
  import opened Bot
  import opened RunLoop
  import opened Immediate

  /** A pass whose collaborators all succeed, except possibly the publisher. */
  function HealthyTick(png: Bytes, accepted: bool, clock: Instant): Tick {
    Tick(0, clock, Production(true, Some(png), Written, Written), Publication(accepted, clock, Written))
  }

  /**
   * A fresh bot whose first two publish calls fail: it retries the same
   * artifact after 30 and then 60 seconds, and the third call posts it as
   * id 1, leaving the record `{last_post: 300, id: 2, Awaiting}`.
   */
  method RetriesThenSucceeds(png: Bytes) returns (subs: seq<Submission>, store: Store)
    ensures |subs| == 3
    ensures subs[0].outcome == Rejected(30) && subs[1].outcome == Rejected(60) && subs[2].outcome == Accepted(300)
    ensures subs[0].id == subs[1].id == subs[2].id == 1
    ensures subs[0].bytes == subs[1].bytes == subs[2].bytes
    ensures store.GetState() == State(Some(300), 2, Awaiting)
  {
    var ticks := [HealthyTick(png, false, 100), HealthyTick(png, false, 200), HealthyTick(png, true, 300)];
    var store0 := Store(None, map[], true);
    var c, made, exit;
    store, c, made, subs, exit := RunForever(store0, DefaultConfig, ticks);
    assert subs[..0] == [] && subs[..1] == [subs[0]] && subs[..2] == [subs[0], subs[1]];
    assert subs == subs[..2] + [subs[2]];
    assert subs[..2][..1] == subs[..1] && subs[..1][..0] == subs[..0];
    assert AcceptedCount(subs[..1]) == 0;
    assert AcceptedCount(subs[..2]) == 0;
  }

  /**
   * A bot restarted in the `Generated` phase with `images/5.png` on disk
   * posts those very bytes as id 5, without producing anything new.
   */
  method ResumesPendingArtifact(png: Bytes) returns (subs: seq<Submission>, store: Store)
    ensures subs == [Submission(5, png, Accepted(4000))]
    ensures store.GetState() == State(Some(4000), 6, Awaiting)
  {
    var store0 := Store(Some(State(Some(100), 5, Generated)), map[Filename(5) := png], true);
    var c, made, exit;
    store, c, made, subs, exit := RunForever(store0, DefaultConfig, [HealthyTick([], true, 4000)]);
    assert subs[..0] == [];
  }

  /**
   * With the record lost (missing or unreadable), numbering starts again at
   * 1 even though `images/1.png` is still on disk from an earlier post; the
   * new image overwrites it and is what gets posted.
   */
  method LostRecordReusesFirstId(earlier: Bytes, png: Bytes) returns (subs: seq<Submission>)
    ensures |subs| == 1 && subs[0].id == 1 && subs[0].outcome == Accepted(10)
    ensures subs[0].bytes == png
  {
    var store0 := Store(None, map[Filename(1) := earlier], true);
    var ticks := [HealthyTick(png, true, 10)];
    var store, c, made, exit;
    store, c, made, subs, exit := RunForever(store0, DefaultConfig, ticks);
    assert subs[..0] == [];
    assert !Resumed(store0.GetState(), subs[0]);
    var m :| 0 <= m < |made| && made[m].id == subs[0].id && made[m].bytes == subs[0].bytes;
    assert ticks[made[m].pass] == ticks[0];
  }

  /**
   * A bot resuming at id 5 leaves `images/3.png` from an earlier run as it
   * was, and one pass writes at most one artifact.
   */
  method KeepsOlderArtifacts(b: Bytes, png: Bytes) returns (store: Store, made: seq<Artifact>)
    ensures Filename(3) in store.files && store.files[Filename(3)] == b
    ensures |made| <= 1
  {
    var store0 := Store(Some(State(Some(0), 5, Awaiting)), map[Filename(3) := b], true);
    var c, subs, exit;
    store, c, made, subs, exit := RunForever(store0, DefaultConfig, [HealthyTick(png, true, 10)]);
    if Filename(3) in RunPaths(5, c.state.id) {
      var id: u32 :| 5 <= id <= c.state.id && Filename(id) == Filename(3);
      FilenameInjective(id, 3);
      assert false;
    }
    assert Filename(3) in store0.files - RunPaths(store0.GetState().id, c.state.id);
  }

  /** Immediate mode whose encoder fails leaves the record and the artifacts untouched. */
  method ImmediateEncodingFailure(store0: Store) returns (store: Store, exit: Exit)
    requires store0.GetState().id < U32Max
    ensures store == store0 && exit.Panicked?
  {
    var sent;
    store, sent, exit := PostImmediately(store0, Production(true, None, Written, Written), Publication(true, 0, Written));
  }
}
