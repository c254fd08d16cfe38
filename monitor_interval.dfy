/** The monitor records of the `monitor_interval` binary and one tick of its
    updater thread: under the lock, every monitor's `result` is overwritten
    with a fresh value and timestamp. The clock readings and the random
    numbers the tick consumes are inputs, one of each per monitor, in the
    order the loop visits the monitors. */
module MonitorInterval {
  import opened RustInt
  import opened Wrappers

  /** A measurement: both parts optional, as deserialized. */
  datatype Result = Result(value: Option<I32>, processedAt: Option<I64>)

  /** A monitor: `monitorType` is serialized under the key `type`. */
  datatype Monitor = Monitor(
    monitorId: Option<U32>,
    name: string,
    script: Option<string>,
    monitorType: Option<string>,
    result: Option<Result>,
    code: string)

  /** `m` carries a result whose value and timestamp are both present. */
  predicate Populated(m: Monitor) {
    m.result.Some? && m.result.value.value.Some? && m.result.value.processedAt.Some?
  }

  /** The measured value of a populated monitor. */
  function ValueOf(m: Monitor): I32
    requires Populated(m)
  {
    m.result.value.value.value
  }

  /** The timestamp of a populated monitor. */
  function StampOf(m: Monitor): I64
    requires Populated(m)
  {
    m.result.value.processedAt.value
  }

  /** `m'` is `m` with at most its `result` replaced. */
  predicate SameExceptResult(m: Monitor, m': Monitor) {
    m'.monitorId == m.monitorId && m'.name == m.name && m'.script == m.script &&
    m'.monitorType == m.monitorType && m'.code == m.code
  }

  /** The value written for the random draw `r`: Rust's `r % 100`. */
  function DrawnValue(r: I32): (v: I32)
    ensures -100 < v < 100
    ensures (r - v) % 100 == 0
    ensures v < 0 <==> r < 0 && r % 100 != 0
  {
    TruncRem100Negative(r);
    TruncRem100(r)
  }

  /** The timestamp written for a clock reading of `secs` seconds since the
      epoch: `as_secs() as i64`. */
  function Stamp(secs: U64): (t: I64)
    ensures secs < TWO_63 ==> t == secs
  {
    AsI64(secs)
  }

  /** The loop body applied to one monitor. */
  function Updated(m: Monitor, r: I32, secs: U64): (m': Monitor)
    ensures Populated(m') && SameExceptResult(m, m')
    ensures ValueOf(m') == DrawnValue(r) && StampOf(m') == Stamp(secs)
  {
    m.(result := Some(Result(Some(DrawnValue(r)), Some(Stamp(secs)))))
  }

  /** The collection after one tick, the `k`-th monitor consuming the `k`-th
      random number and the `k`-th clock reading. */
  function Ticked(ms: seq<Monitor>, randoms: seq<I32>, clock: seq<U64>): (ms': seq<Monitor>)
    requires |randoms| == |ms| && |clock| == |ms|
    ensures |ms'| == |ms|
    ensures forall k :: 0 <= k < |ms| ==> Populated(ms'[k]) && SameExceptResult(ms[k], ms'[k])
  {
    seq(|ms|, k requires 0 <= k < |ms| => Updated(ms[k], randoms[k], clock[k]))
  }

  /** One pass of the body of `update_monitors`'s `while` loop, in place on
      the locked vector. */
  method UpdateTick(monitors: array<Monitor>, randoms: seq<I32>, clock: seq<U64>)
    requires |randoms| == monitors.Length && |clock| == monitors.Length
    modifies monitors
    ensures monitors[..] == Ticked(old(monitors[..]), randoms, clock)
  {
    var i := 0;
    while i < monitors.Length
      invariant 0 <= i <= monitors.Length
      invariant forall k :: 0 <= k < i ==> monitors[k] == Updated(old(monitors[k]), randoms[k], clock[k])
      invariant forall k :: i <= k < monitors.Length ==> monitors[k] == old(monitors[k])
    {
      var processedAt := Stamp(clock[i]);
      monitors[i] := monitors[i].(result := Some(Result(Some(DrawnValue(randoms[i])), Some(processedAt))));
      i := i + 1;
    }
  }

  /** A tick keeps the length and order of the collection and changes no
      field but `result`. */
  lemma TickTouchesOnlyResults(ms: seq<Monitor>, randoms: seq<I32>, clock: seq<U64>)
    requires |randoms| == |ms| && |clock| == |ms|
    ensures |Ticked(ms, randoms, clock)| == |ms|
    ensures forall k :: 0 <= k < |ms| ==> SameExceptResult(ms[k], Ticked(ms, randoms, clock)[k])
  {
  }

  /** After a tick every monitor has a result with both value and timestamp. */
  lemma TickPopulatesResults(ms: seq<Monitor>, randoms: seq<I32>, clock: seq<U64>)
    requires |randoms| == |ms| && |clock| == |ms|
    ensures forall k :: 0 <= k < |ms| ==> Populated(Ticked(ms, randoms, clock)[k])
  {
  }

  /** Each written value is the truncating remainder of its draw: it lies
      strictly between -100 and 100 and is negative exactly when the draw is
      negative and not a multiple of 100, so it is not confined to [0, 100). */
  lemma TickValues(ms: seq<Monitor>, randoms: seq<I32>, clock: seq<U64>, k: nat)
    requires |randoms| == |ms| && |clock| == |ms|
    requires k < |ms|
    ensures Populated(Ticked(ms, randoms, clock)[k])
    ensures var v := ValueOf(Ticked(ms, randoms, clock)[k]);
      -100 < v < 100 && (randoms[k] - v) % 100 == 0 &&
      (v < 0 <==> randoms[k] < 0 && randoms[k] % 100 != 0)
  {
  }

  /** A negative draw that is not a multiple of 100 yields a negative value. */
  lemma TickCanWriteNegative(m: Monitor, secs: U64)
    ensures Populated(Ticked([m], [-1], [secs])[0])
    ensures ValueOf(Ticked([m], [-1], [secs])[0]) == -1
  {
  }

  /** Each timestamp is the clock reading taken for that monitor, whenever
      the readings are below 2^63 seconds. */
  lemma TickStampsAreReadings(ms: seq<Monitor>, randoms: seq<I32>, clock: seq<U64>)
    requires |randoms| == |ms| && |clock| == |ms|
    requires forall k :: 0 <= k < |clock| ==> clock[k] < TWO_63
    ensures forall k :: 0 <= k < |ms| ==>
      Populated(Ticked(ms, randoms, clock)[k]) && StampOf(Ticked(ms, randoms, clock)[k]) == clock[k]
  {
  }

  /** With a non-decreasing clock below 2^63 the timestamps are
      non-decreasing along the vector. */
  lemma TickStampsFollowClock(ms: seq<Monitor>, randoms: seq<I32>, clock: seq<U64>)
    requires |randoms| == |ms| && |clock| == |ms|
    requires NonDecreasing(clock)
    requires forall k :: 0 <= k < |clock| ==> clock[k] < TWO_63
    ensures forall i, j :: 0 <= i <= j < |ms| ==>
      Populated(Ticked(ms, randoms, clock)[i]) && Populated(Ticked(ms, randoms, clock)[j]) &&
      StampOf(Ticked(ms, randoms, clock)[i]) <= StampOf(Ticked(ms, randoms, clock)[j])
  {
    TickStampsAreReadings(ms, randoms, clock);
  }

  /** Across two consecutive ticks driven by one non-decreasing clock (the
      first tick's readings followed by the second's), every monitor's
      timestamp does not decrease. */
  lemma StampsMonotoneAcrossTicks(ms: seq<Monitor>, r1: seq<I32>, c1: seq<U64>, r2: seq<I32>, c2: seq<U64>)
    requires |r1| == |ms| && |c1| == |ms| && |r2| == |ms| && |c2| == |ms|
    requires NonDecreasing(c1 + c2)
    requires forall k :: 0 <= k < |c2| ==> c2[k] < TWO_63
    ensures forall k :: 0 <= k < |ms| ==>
      Populated(Ticked(ms, r1, c1)[k]) && Populated(Ticked(Ticked(ms, r1, c1), r2, c2)[k]) &&
      StampOf(Ticked(ms, r1, c1)[k]) <= StampOf(Ticked(Ticked(ms, r1, c1), r2, c2)[k])
  {
    var once := Ticked(ms, r1, c1);
    forall k | 0 <= k < |ms|
      ensures Populated(once[k]) && Populated(Ticked(once, r2, c2)[k])
      ensures StampOf(once[k]) <= StampOf(Ticked(once, r2, c2)[k])
    {
      assert (c1 + c2)[k] == c1[k] && (c1 + c2)[|c1| + k] == c2[k];
      assert c1[k] <= c2[k] < TWO_63;
    }
  }
}
