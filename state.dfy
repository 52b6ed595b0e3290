/**
 * The durable record of the bot (`State` and `Phase`, src/main.rs:79-157):
 * when it last posted, the sequence id of the next artifact, and whether
 * that artifact still has to be produced (`Awaiting`) or is produced and
 * waiting to be published (`Generated`).
 */
module BotState {
  import opened Base
  import opened Decimal

  /** A file path, as text. */
  type Path = string

  /** The directory that holds one artifact file per sequence id. */
  const ImagesDir: Path := "images"

  datatype Phase = Awaiting | Generated

  datatype State = State(lastPost: Option<Instant>, id: u32, phase: Phase) {

    /** The record of a bot that has never posted (`impl Default for State`). */
    static function Default(): (s: State)
      ensures s.lastPost.None? && s.id == 1 && s.phase == Awaiting
    {
      State(None, 1, Awaiting)
    }

    /** `generated()`: the artifact for this id now exists; nothing else changes. */
    function MarkGenerated(): (s: State)
      ensures s.phase == Generated
      ensures s.id == id && s.lastPost == lastPost
    {
      this.(phase := Generated)
    }

    /**
     * `posted()`: the artifact was published at `now`; the next id is
     * awaited. `id + 1` on a `u32` overflows at `u32::MAX`, which the
     * caller must rule out.
     */
    function MarkPosted(now: Instant): (s: State)
      requires id < U32Max
      ensures s.phase == Awaiting
      ensures s.id as int == id as int + 1
      ensures s.lastPost == Some(now)
    {
      State(Some(now), id + 1, Awaiting)
    }
  }

  /** `get_filename`'s path for the artifact of sequence id `id`: `images/{id}.png`. */
  function Filename(id: u32): Path {
    ImagesDir + "/" + Show(id as nat) + ".png"
  }

  /** The text between a known prefix and a known suffix. */
  lemma Infix(pre: string, x: string, suf: string)
    ensures (pre + x + suf)[|pre|..|pre| + |x|] == x
  {
  }

  /** The artifact path depends on the id alone, and distinct ids never share a path. */
  lemma FilenameInjective(a: u32, b: u32)
    ensures Filename(a) == Filename(b) <==> a == b
  {
    if Filename(a) == Filename(b) {
      var pre := ImagesDir + "/";
      Infix(pre, Show(a as nat), ".png");
      Infix(pre, Show(b as nat), ".png");
      assert |Show(a as nat)| == |Show(b as nat)|;
      ShowInjective(a as nat, b as nat);
    }
  }

  /** The artifact path has the shape `images/<decimal digits>.png`. */
  lemma FilenameShape(id: u32)
    ensures var p := Filename(id);
      |p| > 11 && p[..7] == "images/" && p[|p| - 4..] == ".png" && IsDigits(p[7..|p| - 4])
  {
    var d := Show(id as nat);
    Infix(ImagesDir + "/", d, ".png");
  }

  /** Marking the artifact generated keeps the record pointing at the same artifact file. */
  lemma GeneratedKeepsArtifactPath(s: State)
    ensures Filename(s.MarkGenerated().id) == Filename(s.id)
    ensures s.MarkGenerated().MarkGenerated() == s.MarkGenerated()
  {
  }

  /**
   * After a post the record points at a new artifact file, so the one just
   * posted is never overwritten by the next production.
   */
  lemma PostedMovesToFreshPath(s: State, now: Instant)
    requires s.id < U32Max
    ensures Filename(s.MarkPosted(now).id) != Filename(s.id)
    ensures s.MarkGenerated().MarkPosted(now) == s.MarkPosted(now)
  {
    FilenameInjective(s.MarkPosted(now).id, s.id);
  }
}
