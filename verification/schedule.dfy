/** Repeated invocations, as an external scheduler makes them: each run starts
    from the store the previous one left. The persisted instant is always the
    clock reading of the most recent run that changed the appearance, never
    that of a skipped or failed run. */
module Schedule {
  import opened Wrappers
  import opened Time
  import opened StateStore
  import opened App

  /** The clock reading of the last run, among the first |outcomes|, that acted. */
  function LastActed(envs: seq<Environment>, outcomes: seq<Outcome>): Option<Instant>
    requires |outcomes| <= |envs|
  {
    if |outcomes| == 0 then None
    else
      var i := |outcomes| - 1;
      if outcomes[i].Acted? then Some(envs[i].now) else LastActed(envs, outcomes[..i])
  }

  /** How many of the runs reached the OS setter. */
  function SetterAttempts(outcomes: seq<Outcome>): nat {
    if |outcomes| == 0 then 0
    else
      var i := |outcomes| - 1;
      (if outcomes[i].Acted? || outcomes[i] == Failed(AppearanceSetError) then 1 else 0)
        + SetterAttempts(outcomes[..i])
  }

  /** Runs `update_appearance` once per entry of `envs`, with the matching force flag. */
  method RunSchedule(store0: Store, forces: seq<bool>, envs: seq<Environment>, codec: IsoCodec)
    returns (outcomes: seq<Outcome>, calls: seq<bool>, store: Store)
    requires |forces| == |envs|
    ensures |outcomes| == |envs|
    ensures |calls| == SetterAttempts(outcomes)
    ensures LastActed(envs, outcomes).None? ==> store == store0
    ensures LastActed(envs, outcomes).Some? ==> store == Record(codec, LastActed(envs, outcomes).value)
    ensures RoundTrips(codec) && LastActed(envs, outcomes).Some? ==>
              ReadLastUpdate(store, codec) == Ok(LastActed(envs, outcomes))
  {
    outcomes, calls, store := [], [], store0;
    var i := 0;
    while i < |envs|
      invariant 0 <= i <= |envs|
      invariant |outcomes| == i
      invariant |calls| == SetterAttempts(outcomes)
      invariant LastActed(envs, outcomes).None? ==> store == store0
      invariant LastActed(envs, outcomes).Some? ==> store == Record(codec, LastActed(envs, outcomes).value)
    {
      var r := Invoke(forces[i], store, envs[i], codec);
      assert (outcomes + [r.outcome])[..i] == outcomes;
      outcomes, calls, store := outcomes + [r.outcome], calls + r.darkModeCalls, r.store;
      i := i + 1;
    }
    if RoundTrips(codec) && LastActed(envs, outcomes).Some? {
      WriteThenRead(codec, LastActed(envs, outcomes).value);
    }
  }
}
