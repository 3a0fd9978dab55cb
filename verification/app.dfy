/** The appearance decision engine: one invocation of `update_appearance`.
    It reads yesterday-shifted sun times and the stored last update, skips when
    the last update already follows the latest sun motion (unless forced), and
    otherwise sets the appearance that the next sun motion calls for, recording
    the current instant only once the setter has succeeded. */
module App {
  import opened Wrappers
  import opened Time
  import StableSort
  import opened StateStore

  datatype Appearance = Light | Dark

  datatype Motion = Sunrise | Sunset

  /** What the ephemeris returns: the next sunrise and the next sunset after a reference instant. */
  datatype SunTimes = SunTimes(sunrise: Instant, sunset: Instant)

  /** The instant of motion `m`. */
  function At(t: SunTimes, m: Motion): Instant {
    match m
    case Sunrise => t.sunrise
    case Sunset => t.sunset
  }

  /** The sun times as the ephemeris builds them: one entry per motion, each
      paired with its own instant, sunrise inserted first. */
  function Entries(t: SunTimes): (r: seq<(Motion, Instant)>)
    ensures |r| == 2 && r[0].0 == Sunrise && r[1].0 == Sunset
    ensures forall i :: 0 <= i < |r| ==> r[i].1 == At(t, r[i].0)
  {
    [(Sunrise, t.sunrise), (Sunset, t.sunset)]
  }

  /** The threshold for skipping: the later of the two shifted sun motions. */
  function LastMovement(shifted: SunTimes): (r: Instant)
    ensures r >= shifted.sunrise && r >= shifted.sunset
    ensures r == shifted.sunrise || r == shifted.sunset
  {
    if shifted.sunrise >= shifted.sunset then shifted.sunrise else shifted.sunset
  }

  /** The skip rule against the shifted sun times. A present `last_update` is
      always truthy, so the Python `last_update and ...` is only a presence test. */
  predicate ShouldSkip(force: bool, lastUpdate: Option<Instant>, shifted: SunTimes)
    ensures ShouldSkip(force, lastUpdate, shifted) <==>
              !force && lastUpdate.Some? &&
              lastUpdate.value > shifted.sunrise && lastUpdate.value > shifted.sunset
  {
    !force && lastUpdate.Some? && lastUpdate.value > LastMovement(shifted)
  }

  /** The motion that comes first once the entries are sorted by instant. */
  function NextMotion(t: SunTimes): (m: Motion)
    ensures m == Sunrise <==> t.sunrise <= t.sunset
    ensures At(t, m) <= t.sunrise && At(t, m) <= t.sunset
  {
    var sorted := StableSort.Sort(Entries(t));
    assert sorted == StableSort.Insert(Entries(t)[0], StableSort.Insert(Entries(t)[1], []));
    sorted[0].0
  }

  /** The appearance to set: if sunrise is next it is night now, so dark; if
      sunset is next it is day, so light. */
  function Target(t: SunTimes): (a: Appearance)
    ensures a == Dark <==> t.sunrise <= t.sunset
    ensures a == Light <==> t.sunset < t.sunrise
  {
    if NextMotion(t) == Sunrise then Dark else Light
  }

  /** The answers of the outside world to one invocation: the ephemeris for the
      shifted and the unshifted reference time (None when it raises), whether the
      OS setter succeeds, and the clock. */
  datatype Environment = Environment(
    yesterday: Option<SunTimes>,
    today: Option<SunTimes>,
    setterSucceeds: bool,
    now: Instant)

  datatype Error = ComputationError | StateError(cause: ReadError) | AppearanceSetError

  datatype Outcome = Skipped | Acted(appearance: Appearance) | Failed(error: Error)

  /** What one invocation did: how it ended, the dark-mode flags it passed to
      the OS setter, in order, and the store it left behind. */
  datatype Invocation = Invocation(outcome: Outcome, darkModeCalls: seq<bool>, store: Store)

  /** One run of `update_appearance(lat, lon, force)` against `store`. */
  function Invoke(force: bool, store: Store, env: Environment, codec: IsoCodec): (r: Invocation)
    ensures |r.darkModeCalls| <= 1
    ensures r.store != store ==> r.outcome.Acted?
    ensures r.outcome.Acted? ==>
              && env.setterSucceeds
              && r.darkModeCalls == [r.outcome.appearance == Dark]
              && r.store == Record(codec, env.now)
    ensures r.outcome.Skipped? ==> r.darkModeCalls == [] && r.store == store
    ensures r.outcome == Failed(AppearanceSetError) ==>
              !env.setterSucceeds && |r.darkModeCalls| == 1 && r.store == store
    ensures |r.darkModeCalls| == 1 <==> r.outcome.Acted? || r.outcome == Failed(AppearanceSetError)
  {
    match env.yesterday
    case None => Invocation(Failed(ComputationError), [], store)
    case Some(shifted) =>
      match ReadLastUpdate(store, codec)
      case Err(e) => Invocation(Failed(StateError(e)), [], store)
      case Ok(lastUpdate) =>
        if ShouldSkip(force, lastUpdate, shifted) then
          Invocation(Skipped, [], store)
        else
          match env.today
          case None => Invocation(Failed(ComputationError), [], store)
          case Some(times) =>
            var appearance := Target(times);
            // The setter receives one flag: dark mode on exactly for dark.
            var calls := [appearance == Dark];
            if env.setterSucceeds then Invocation(Acted(appearance), calls, Record(codec, env.now))
            else Invocation(Failed(AppearanceSetError), calls, store)
  }

  /** A raising shifted ephemeris ends the run before anything else happens:
      no read result matters, no setter call, no write. */
  lemma ShiftedEphemerisAborts(force: bool, store: Store, env: Environment, codec: IsoCodec)
    requires env.yesterday.None?
    ensures Invoke(force, store, env, codec) == Invocation(Failed(ComputationError), [], store)
  {
  }

  /** A run that does not skip but whose unshifted ephemeris raises ends in the
      same error, before the setter is called and without a write. */
  lemma CurrentEphemerisAborts(force: bool, store: Store, env: Environment, codec: IsoCodec)
    requires env.yesterday.Some? && env.today.None?
    requires ReadLastUpdate(store, codec).Ok?
    requires !ShouldSkip(force, ReadLastUpdate(store, codec).value, env.yesterday.value)
    ensures Invoke(force, store, env, codec) == Invocation(Failed(ComputationError), [], store)
  {
  }

  /** Skip: unforced, with an update stored after the latest shifted sun motion,
      the run does nothing. */
  lemma SkipsAfterLastMovement(force: bool, store: Store, env: Environment, codec: IsoCodec, last: Instant)
    requires !force
    requires env.yesterday.Some?
    requires ReadLastUpdate(store, codec) == Ok(Some(last))
    requires last > LastMovement(env.yesterday.value)
    ensures Invoke(force, store, env, codec) == Invocation(Skipped, [], store)
  {
  }

  /** The skip rule exactly: given readable sun times and store, the run skips
      if and only if it is unforced and a stored update is strictly later than
      both shifted sun motions. */
  lemma SkipExactly(force: bool, store: Store, env: Environment, codec: IsoCodec)
    requires env.yesterday.Some?
    requires ReadLastUpdate(store, codec).Ok?
    ensures var lastUpdate := ReadLastUpdate(store, codec).value;
            var y := env.yesterday.value;
            Invoke(force, store, env, codec).outcome.Skipped? <==>
              !force && lastUpdate.Some? && lastUpdate.value > y.sunrise && lastUpdate.value > y.sunset
  {
  }

  /** Strictness: with no stored update, or one at or before the latest shifted
      sun motion, an unforced run does not skip; it calls the setter once
      whenever the unshifted ephemeris answers. */
  lemma ActsUnlessStrictlyLater(store: Store, env: Environment, codec: IsoCodec)
    requires env.yesterday.Some?
    requires ReadLastUpdate(store, codec).Ok?
    requires var lastUpdate := ReadLastUpdate(store, codec).value;
             lastUpdate.None? || lastUpdate.value <= LastMovement(env.yesterday.value)
    ensures var r := Invoke(false, store, env, codec);
            && !r.outcome.Skipped?
            && (env.today.Some? <==> |r.darkModeCalls| == 1)
  {
  }

  /** Force: a forced run never skips, whatever the stored update; it calls the
      setter once whenever the unshifted ephemeris answers. */
  lemma ForceNeverSkips(store: Store, env: Environment, codec: IsoCodec)
    requires env.yesterday.Some?
    requires ReadLastUpdate(store, codec).Ok?
    ensures var r := Invoke(true, store, env, codec);
            && !r.outcome.Skipped?
            && (env.today.Some? <==> |r.darkModeCalls| == 1)
  {
  }

  /** Force does not protect against a malformed store: the read comes before
      the force test and its error ends the run, with no setter call. */
  lemma ForceStillReadsStore(force: bool, store: Store, env: Environment, codec: IsoCodec)
    requires env.yesterday.Some?
    requires ReadLastUpdate(store, codec).Err?
    ensures var r := Invoke(force, store, env, codec);
            && r.outcome == Failed(StateError(ReadLastUpdate(store, codec).error))
            && r.darkModeCalls == []
            && r.store == store
  {
  }

  /** Appearance choice: a run that reaches the setter asks for dark exactly
      when the next sunrise is at or before the next sunset; a tie gives dark,
      because sunrise is inserted first and the sort is stable. */
  lemma DarkIffSunriseFirst(force: bool, store: Store, env: Environment, codec: IsoCodec)
    requires env.today.Some?
    requires |Invoke(force, store, env, codec).darkModeCalls| == 1
    ensures var t := env.today.value;
            Invoke(force, store, env, codec).darkModeCalls[0] <==> t.sunrise <= t.sunset
  {
  }

  /** The tie between sunrise and sunset is broken by the sort's stability
      rather than by the comparison: sunrise keeps its place in front. The
      two-entry sort could also be unfolded directly; the body instead derives
      the tie-break from stability alone, which is why it holds for `sorted`. */
  lemma {:induction false} TieGoesToSunrise(t: SunTimes)
    requires t.sunrise == t.sunset
    ensures StableSort.Sort(Entries(t))[0] == (Sunrise, t.sunrise)
  {
    var k := t.sunrise;
    StableSort.SortIsStable(Entries(t), k);
    var e := Entries(t);
    StableSort.WithKeyCons(e[1], [], k);
    StableSort.WithKeyCons(e[0], [e[1]], k);
    assert e == [e[0]] + [e[1]];
    var s := StableSort.Sort(e);
    assert s == [s[0]] + s[1..];
    StableSort.WithKeyCons(s[0], s[1..], k);
    // Both sorted entries have key k, as sorting only permutes them.
    assert s[0] in multiset(s);
  }

  /** Failure isolation: when the setter fails, the run ends in an error and
      the stored last update is the one it started with. */
  lemma FailedSetterKeepsState(force: bool, store: Store, env: Environment, codec: IsoCodec)
    requires !env.setterSucceeds
    ensures var r := Invoke(force, store, env, codec);
            && !r.outcome.Acted?
            && r.store == store
            && ReadLastUpdate(r.store, codec) == ReadLastUpdate(store, codec)
  {
  }

  /** Idempotence: right after a successful run that recorded an instant later
      than the latest shifted sun motion, an unforced rerun with the same sun
      times skips, makes no setter call and leaves the store alone. */
  lemma RerunSkips(force: bool, store: Store, env: Environment, env2: Environment, codec: IsoCodec)
    requires RoundTrips(codec)
    requires Invoke(force, store, env, codec).outcome.Acted?
    requires env2.yesterday == env.yesterday
    requires env.now > LastMovement(env.yesterday.value)
    ensures var first := Invoke(force, store, env, codec);
            Invoke(false, first.store, env2, codec) == Invocation(Skipped, [], first.store)
  {
    var first := Invoke(force, store, env, codec);
    WriteThenRead(codec, env.now);
    assert ReadLastUpdate(first.store, codec) == Ok(Some(env.now));
  }

  /** The threshold can lie in the future: the first sun motion after now minus
      one day is still ahead when today's motion falls later in the day than
      yesterday's. In that window idempotence fails: an unforced run that acted
      is followed by a rerun that acts again and calls the setter again. */
  lemma RerunBeforeThresholdActsAgain(store: Store, env: Environment, codec: IsoCodec)
    requires RoundTrips(codec)
    requires Invoke(false, store, env, codec).outcome.Acted?
    requires env.now <= LastMovement(env.yesterday.value)
    ensures var first := Invoke(false, store, env, codec);
            var second := Invoke(false, first.store, env, codec);
            && second.outcome == first.outcome
            && second.darkModeCalls == first.darkModeCalls
            && |second.darkModeCalls| == 1
  {
    var first := Invoke(false, store, env, codec);
    WriteThenRead(codec, env.now);
    assert ReadLastUpdate(first.store, codec) == Ok(Some(env.now));
  }

  /** A concrete day, in minutes: yesterday's sunset at 18:00 (1080), today's
      sunrise at 06:00 (1800) and sunset at 18:01 (2521), tomorrow's sunrise at
      06:00 (3240). At 18:00 today (2520) the shifted reference is exactly
      yesterday's sunset, so the threshold is today's 18:01 sunset, still ahead.
      A store written at this morning's run (1801) does not stop the run, which
      sets light mode; an immediate rerun sets light mode again, overriding any
      manual change in between. */
  lemma LaterSunsetDefeatsSkip(codec: IsoCodec)
    requires RoundTrips(codec)
    ensures var env := Environment(Some(SunTimes(1800, 2521)), Some(SunTimes(3240, 2521)), true, 2520);
            var first := Invoke(false, Record(codec, 1801), env, codec);
            && first.outcome == Acted(Light)
            && Invoke(false, first.store, env, codec).outcome == Acted(Light)
            && Invoke(false, first.store, env, codec).darkModeCalls == [false]
  {
    var env := Environment(Some(SunTimes(1800, 2521)), Some(SunTimes(3240, 2521)), true, 2520);
    WriteThenRead(codec, 1801);
    WriteThenRead(codec, 2520);
    assert ReadLastUpdate(Invoke(false, Record(codec, 1801), env, codec).store, codec) == Ok(Some(2520));
  }

  /** Monotonicity: an unforced run that acts, on a clock past the latest shifted
      sun motion, moves a stored update strictly forward. */
  lemma ActingAdvancesLastUpdate(store: Store, env: Environment, codec: IsoCodec, last: Instant)
    requires RoundTrips(codec)
    requires ReadLastUpdate(store, codec) == Ok(Some(last))
    requires Invoke(false, store, env, codec).outcome.Acted?
    requires env.now > LastMovement(env.yesterday.value)
    ensures var r := Invoke(false, store, env, codec);
            exists t :: ReadLastUpdate(r.store, codec) == Ok(Some(t)) && t > last
  {
    WriteThenRead(codec, env.now);
    assert ReadLastUpdate(Invoke(false, store, env, codec).store, codec) == Ok(Some(env.now));
  }
}
