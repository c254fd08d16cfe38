/** The snapshot thread `store_monitors` as a sequential state machine over
    its one local variable, `last_minute`. Each pass of its loop observes the
    minute of a first `Local::now()` call (the gate), the hour and minute of a
    second one made inside `format_time_with_suffix` (the file name), whether
    `File::create` succeeded and whether serialization succeeded. What the
    pass does is recorded as an event; the loop ends when the controller
    clears `running`, that is, after the last observation. */
module SnapshotWriter {
  import opened SnapshotName

  datatype Observation = Observation(
    minute: Minute,
    nameHour: Hour,
    nameMinute: Minute,
    createOk: bool,
    writeOk: bool)

  datatype Event =
    /** The minute equals `last_minute`: nothing written; the pass sleeps. */
    | Unchanged
    /** `File::create(filename)` failed: `continue`, no sleep, `last_minute` kept. */
    | CreateFailed(filename: string)
    /** The file was created and serialization ran (`written` tells whether it
        succeeded); `last_minute` takes the minute and the pass sleeps. */
    | Stored(filename: string, written: bool)

  /** Whether the pass ends with the 60-second sleep. */
  predicate Sleeps(e: Event) {
    !e.CreateFailed?
  }

  /** `let mut last_minute = 0`: an ordinary minute, not an "unset" marker. */
  const InitialLastMinute: Minute := 0

  /** One pass of the loop from `last_minute`: the new `last_minute` and what
      happened. */
  function Step(lastMinute: Minute, o: Observation): (r: (Minute, Event))
    ensures r.1.Unchanged? <==> o.minute == lastMinute
    ensures r.1.Stored? <==> o.minute != lastMinute && o.createOk
    ensures r.0 == (if r.1.Stored? then o.minute else lastMinute)
    ensures Sleeps(r.1) <==> o.minute == lastMinute || o.createOk
    ensures !r.1.Unchanged? ==> r.1.filename == SnapshotFilename(o.nameHour, o.nameMinute)
    ensures r.1.Stored? ==> r.1.written == o.writeOk
  {
    if o.minute == lastMinute then (lastMinute, Unchanged)
    else
      var filename := SnapshotFilename(o.nameHour, o.nameMinute);
      if !o.createOk then (lastMinute, CreateFailed(filename))
      else (o.minute, Stored(filename, o.writeOk))
  }

  /** The passes `obs` from the start of the thread: the final `last_minute`
      and one event per pass. */
  function Run(obs: seq<Observation>): (r: (Minute, seq<Event>))
    ensures |r.1| == |obs|
  {
    if obs == [] then (InitialLastMinute, [])
    else
      var before := Run(obs[..|obs| - 1]);
      var after := Step(before.0, obs[|obs| - 1]);
      (after.0, before.1 + [after.1])
  }

  /** `last_minute` when pass `k` starts. */
  function LastMinuteBefore(obs: seq<Observation>, k: nat): Minute
    requires k <= |obs|
  {
    Run(obs[..k]).0
  }

  /** `store_monitors`, with the lock, the file contents and the sleeps left
      out. */
  method StoreMonitors(obs: seq<Observation>) returns (lastMinute: Minute, events: seq<Event>)
    ensures (lastMinute, events) == Run(obs)
  {
    lastMinute := InitialLastMinute;
    events := [];
    var i := 0;
    while i < |obs|
      invariant 0 <= i <= |obs|
      invariant (lastMinute, events) == Run(obs[..i])
    {
      var o := obs[i];
      assert obs[..i + 1][..i] == obs[..i];
      i := i + 1;
      if o.minute != lastMinute {
        var filename := SnapshotFilename(o.nameHour, o.nameMinute);
        if !o.createOk {
          events := events + [CreateFailed(filename)];
          continue;
        }
        events := events + [Stored(filename, o.writeOk)];
        lastMinute := o.minute;
      } else {
        events := events + [Unchanged];
      }
    }
    assert obs[..i] == obs;
  }

  /** Pass `k` is the step from the `last_minute` left by the passes before it. */
  lemma {:induction false} RunEventAt(obs: seq<Observation>, k: nat)
    requires k < |obs|
    ensures Run(obs).1[k] == Step(LastMinuteBefore(obs, k), obs[k]).1
    ensures LastMinuteBefore(obs, k + 1) == Step(LastMinuteBefore(obs, k), obs[k]).0
  {
    var init := obs[..|obs| - 1];
    assert obs[..|obs|] == obs;
    if k < |obs| - 1 {
      RunEventAt(init, k);
      assert init[..k] == obs[..k];
      assert init[..k + 1] == obs[..k + 1];
    } else {
      assert obs[..k] == init;
    }
  }

  /** Because `last_minute` starts at 0, a first pass that falls in minute 0
      writes nothing. */
  lemma FirstPassInMinuteZero(obs: seq<Observation>)
    requires |obs| > 0 && obs[0].minute == 0
    ensures Run(obs).1[0] == Unchanged
  {
    RunEventAt(obs, 0);
  }

  /** A file is created exactly when the pass's minute differs from
      `last_minute` and creation succeeds; afterwards `last_minute` is that
      minute whether or not serialization succeeded. */
  lemma StoredSetsLastMinute(obs: seq<Observation>, k: nat)
    requires k < |obs|
    ensures Run(obs).1[k].Stored? <==> obs[k].minute != LastMinuteBefore(obs, k) && obs[k].createOk
    ensures Run(obs).1[k].Stored? ==> LastMinuteBefore(obs, k + 1) == obs[k].minute
    ensures !Run(obs).1[k].Stored? ==> LastMinuteBefore(obs, k + 1) == LastMinuteBefore(obs, k)
  {
    RunEventAt(obs, k);
  }

  /** Once `last_minute` is `m`, passes that keep observing `m` do nothing. */
  lemma {:induction false} SameMinuteStaysQuiet(obs: seq<Observation>, a: nat, b: nat)
    requires a <= b < |obs|
    requires LastMinuteBefore(obs, a) == obs[b].minute
    requires forall k :: a <= k <= b ==> obs[k].minute == obs[b].minute
    ensures Run(obs).1[b] == Unchanged
    ensures LastMinuteBefore(obs, b + 1) == obs[b].minute
  {
    if a < b {
      SameMinuteStaysQuiet(obs, a, b - 1);
    }
    RunEventAt(obs, b);
  }

  /** Consecutive passes that all observe the same minute create at most one
      file between them. */
  lemma AtMostOneFilePerMinute(obs: seq<Observation>, i: nat, j: nat)
    requires i < j < |obs|
    requires forall k :: i <= k <= j ==> obs[k].minute == obs[i].minute
    ensures !(Run(obs).1[i].Stored? && Run(obs).1[j].Stored?)
  {
    var next: nat := i + 1;
    if Run(obs).1[i].Stored? {
      StoredSetsLastMinute(obs, i);
      SameMinuteStaysQuiet(obs, next, j);
    }
  }

  /** The final `last_minute` is the minute of the last pass that created a
      file, or 0 if none did. */
  lemma {:induction false} FinalLastMinute(obs: seq<Observation>)
    ensures (forall k :: 0 <= k < |obs| ==> !Run(obs).1[k].Stored?) ==> Run(obs).0 == InitialLastMinute
    ensures forall k :: 0 <= k < |obs| && Run(obs).1[k].Stored? && NoneStoredAfter(Run(obs).1, k) ==>
      Run(obs).0 == obs[k].minute
  {
    if obs != [] {
      var n := |obs| - 1;
      var init := obs[..n];
      FinalLastMinute(init);
      assert forall k :: 0 <= k < n ==> Run(obs).1[k] == Run(init).1[k];
      if !Run(obs).1[n].Stored? {
        assert Run(obs).0 == Run(init).0;
        forall k | 0 <= k < |obs| && Run(obs).1[k].Stored? && NoneStoredAfter(Run(obs).1, k)
          ensures Run(obs).0 == obs[k].minute
        {
          assert k < n;
          assert NoneStoredAfter(Run(init).1, k);
          assert obs[k] == init[k];
        }
      }
    }
  }

  /** The model leaves a pass's gate reading and name reading unrelated, so
      it admits two passes that create the same file: here the gate sees
      minutes 1 and 2 while both name readings are 10:00. In the program the
      name is read just after the gate in the same pass, and every created
      file is followed by the 60-second sleep, so a repeated name within one
      run needs the local clock to be set back during the run. */
  lemma SameNameTwiceInOneRun()
    ensures var obs := [Observation(1, 10, 0, true, true), Observation(2, 10, 0, true, true)];
      Run(obs).1 == [Stored(SnapshotFilename(10, 0), true), Stored(SnapshotFilename(10, 0), true)]
  {
    var obs := [Observation(1, 10, 0, true, true), Observation(2, 10, 0, true, true)];
    assert obs[..1] == [obs[0]];
    assert obs[..1][..0] == [];
  }

  /** No event after pass `k` created a file. */
  predicate NoneStoredAfter(events: seq<Event>, k: nat) {
    forall j :: k < j < |events| ==> !events[j].Stored?
  }
}
