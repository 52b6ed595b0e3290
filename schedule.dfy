/**
 * When the next production is due (the `Awaiting` branch of the main loop,
 * src/main.rs:348-371): `last_post + sleep_time + r` with `r` drawn from
 * `[-jitter, jitter)`, or at once when the bot has never posted.
 */
module Schedule {
  import opened Base

  /** The `[bot]` settings the scheduler reads, in seconds. */
  datatype Config = Config(sleepTime: int, jitter: int)

  /** `default_sleep_time` and `default_jitter` (src/main.rs:66-71). */
  const DefaultConfig: Config := Config(3600, 300)

  /** `gen_range(-jitter, jitter)` panics on an empty range. */
  datatype ScheduleError = EmptyJitterRange

  /** What the random draw promises: a value of `[-jitter, jitter)` whenever that range is not empty. */
  predicate DrawInRange(cfg: Config, draw: int) {
    cfg.jitter > 0 ==> -cfg.jitter <= draw < cfg.jitter
  }

  /** The instant the next post is scheduled for. */
  function ScheduledAt(lastPost: Instant, cfg: Config, draw: int): Instant {
    lastPost + (cfg.sleepTime + draw)
  }

  /**
   * The seconds to sleep before producing, seen at clock reading `now`:
   * none for a bot that never posted; otherwise just enough to reach the
   * scheduled instant, and none when it has already passed.
   */
  function TimeToWait(lastPost: Option<Instant>, cfg: Config, draw: int, now: Instant): (r: Result<nat, ScheduleError>)
    ensures lastPost.None? ==> r == Ok(0)
    ensures lastPost.Some? ==> (r.Err? <==> cfg.jitter <= 0)
    ensures lastPost.Some? && r.Ok? ==>
      var due := ScheduledAt(lastPost.value, cfg, draw);
      now + r.value >= due && (r.value == 0 || now + r.value == due)
  {
    match lastPost
    case None => Ok(0)
    case Some(last) =>
      if cfg.jitter <= 0 then Err(EmptyJitterRange)
      else
        var actual := ScheduledAt(last, cfg, draw) - now;
        if actual < 0 then Ok(0) else Ok(actual)
  }

  /** The scheduled instant lies in `[last + sleep - jitter, last + sleep + jitter)`. */
  lemma ScheduledWithinJitter(last: Instant, cfg: Config, draw: int)
    requires cfg.jitter > 0 && DrawInRange(cfg, draw)
    ensures last + cfg.sleepTime - cfg.jitter <= ScheduledAt(last, cfg, draw) < last + cfg.sleepTime + cfg.jitter
  {
  }

  /** No shorter sleep reaches the scheduled instant: the wait is the least one that does. */
  lemma WaitIsShortest(last: Instant, cfg: Config, draw: int, now: Instant, w: nat)
    requires cfg.jitter > 0
    requires now + w >= ScheduledAt(last, cfg, draw)
    ensures TimeToWait(Some(last), cfg, draw, now).Ok?
    ensures TimeToWait(Some(last), cfg, draw, now).value <= w
  {
  }

  /** With the default settings the next post comes 55 to 65 minutes after the last one. */
  lemma DefaultWindow(last: Instant, draw: int, now: Instant)
    requires DrawInRange(DefaultConfig, draw)
    ensures var r := TimeToWait(Some(last), DefaultConfig, draw, now);
      r.Ok? && last + 3300 <= now + r.value && (r.value > 0 ==> now + r.value < last + 3900)
  {
    ScheduledWithinJitter(last, DefaultConfig, draw);
  }
}
