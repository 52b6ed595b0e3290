/**
 * The bot's durable storage: the record file `state` and the artifact files
 * under `images/` (src/main.rs:103-140). The record file is modelled by the
 * record it holds, `None` when the file is missing or does not parse;
 * serialisation is taken to round-trip. Writes go through `File::create`
 * followed by `write_all`, so a failure can leave a file truncated.
 */
module Storage {
  import opened Base
  import opened BotState

  /** What became of one `File::create` plus `write_all`. */
  datatype WriteOutcome =
    | Written              // the whole content reached the file
    | CreateFailed         // the file could not be opened; it is untouched
    | WriteFailed(kept: nat) // the file was truncated, then only `kept` bytes arrived

  /** Why `get_saved_image` gave no bytes. */
  datatype LoadError = BadState | ImagesDirError | ReadError

  datatype Store = Store(record: Option<State>, files: map<Path, Bytes>, imagesDirOk: bool) {

    /** `get_state`: the saved record, or the default one when there is none that parses. */
    function GetState(): (s: State)
      ensures record.Some? ==> s == record.value
      ensures record.None? ==> s == State.Default()
    {
      match record
      case Some(r) => r
      case None => State.Default()
    }

    /**
     * `persist`: overwrite the record file with `s`. A failed write after
     * the file was created leaves a truncated record, which the model takes
     * to be unparsable.
     */
    function Persist(s: State, w: WriteOutcome): (st: Store)
      ensures st.files == files && st.imagesDirOk == imagesDirOk
      ensures w.Written? ==> st.record == Some(s)
      ensures w.CreateFailed? ==> st == this
      ensures w.WriteFailed? ==> st.record.None?
    {
      match w
      case Written => this.(record := Some(s))
      case CreateFailed => this
      case WriteFailed(_) => this.(record := None)
    }

    /** `get_filename`: the artifact path of `s`, once `create_dir_all("images")` succeeds. */
    function GetFilename(s: State): (r: Result<Path, LoadError>)
      ensures r.Ok? <==> imagesDirOk
      ensures r.Ok? ==> r.value == Filename(s.id)
    {
      if imagesDirOk then Ok(Filename(s.id)) else Err(ImagesDirError)
    }

    /** Create (truncate) the file at `p` and write `b` to it. */
    function WriteFile(p: Path, b: Bytes, w: WriteOutcome): (st: Store)
      ensures st.record == record && st.imagesDirOk == imagesDirOk
      ensures st.files - {p} == files - {p}
      ensures w.Written? ==> p in st.files && st.files[p] == b
      ensures w.CreateFailed? ==> st.files == files
      ensures w.WriteFailed? ==> p in st.files && st.files[p] <= b
    {
      match w
      case Written => this.(files := files[p := b])
      case CreateFailed => this
      case WriteFailed(k) => this.(files := files[p := b[..if k < |b| then k else |b|]])
    }

    /**
     * `get_saved_image`: the bytes of the artifact for `s`'s id. Refused in
     * the `Awaiting` phase; fails when the directory or the file is missing.
     */
    function GetSavedImage(s: State): (r: Result<Bytes, LoadError>)
      ensures s.phase == Awaiting ==> r == Err(BadState)
      ensures r.Ok? <==> s.phase == Generated && imagesDirOk && Filename(s.id) in files
      ensures r.Ok? ==> r.value == files[Filename(s.id)]
    {
      if s.phase.Awaiting? then Err(BadState)
      else if !imagesDirOk then Err(ImagesDirError)
      else if Filename(s.id) !in files then Err(ReadError)
      else Ok(files[Filename(s.id)])
    }

    /** The storage invariant: a record in the `Generated` phase has its artifact on disk. */
    predicate Consistent() {
      var s := GetState();
      s.phase == Generated ==> Filename(s.id) in files
    }
  }

  /** Loading with no record file gives `{last_post: None, id: 1, phase: Awaiting}` every time. */
  lemma LoadMissingIsDefault(st: Store, st': Store)
    requires st.record.None? && st'.record.None?
    ensures st.GetState() == State(None, 1, Awaiting)
    ensures st.GetState() == st'.GetState()
  {
  }

  /** What `persist` writes, `get_state` reads back. */
  lemma PersistThenLoad(st: Store, s: State)
    ensures st.Persist(s, Written).GetState() == s
    ensures st.Persist(s, Written).Consistent() <==> (s.phase == Generated ==> Filename(s.id) in st.files)
  {
  }

  /**
   * `persist` does not replace the record atomically: when the write fails
   * after `File::create` truncated the file, the next load falls back to the
   * default record, and the sequence id starts again at 1.
   */
  lemma TruncatedRecordResetsId(st: Store, s: State, k: nat)
    requires s.id != 1
    ensures st.Persist(s, WriteFailed(k)).GetState().id == 1
    ensures st.Persist(s, WriteFailed(k)).GetState() != s
  {
  }

  /** Writing the artifact of a `Generated` record and reloading it gives the same bytes. */
  lemma WriteThenReload(st: Store, s: State, b: Bytes, w: WriteOutcome)
    requires st.imagesDirOk && s.phase == Generated
    ensures st.WriteFile(Filename(s.id), b, Written).GetSavedImage(s) == Ok(b)
    ensures st.WriteFile(Filename(s.id), b, Written).Persist(s, w).GetSavedImage(s) == Ok(b)
  {
  }

  /** Writing the artifact of another id leaves the saved artifact of `s` as it was. */
  lemma OtherWriteKeepsSavedImage(st: Store, s: State, other: u32, b: Bytes, w: WriteOutcome)
    requires other != s.id
    ensures st.WriteFile(Filename(other), b, w).GetSavedImage(s) == st.GetSavedImage(s)
  {
    FilenameInjective(other, s.id);
    var st' := st.WriteFile(Filename(other), b, w);
    assert Filename(s.id) in st'.files <==> Filename(s.id) in st.files by {
      assert Filename(s.id) in st'.files - {Filename(other)} <==> Filename(s.id) in st.files - {Filename(other)};
    }
    if Filename(s.id) in st.files {
      assert (st'.files - {Filename(other)})[Filename(s.id)] == (st.files - {Filename(other)})[Filename(s.id)];
    }
  }
}
