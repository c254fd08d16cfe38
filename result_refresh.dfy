/** The one-shot `j_conv` program's refresh loop: every monitor of the loaded
    document gets a result holding a fresh draw of `gen_range(0..100)` and
    the timestamp `Utc::now().timestamp()`, by inserting a new result or by
    updating the existing one in place. Draws and clock readings are inputs,
    one of each per monitor, in loop order. */
module ResultRefresh {
  import opened RustInt
  import opened Wrappers

  /** In this program both parts of a result are required. */
  datatype Result = Result(value: I64, processedAt: I64)

  datatype Monitor = Monitor(name: string, script: Option<string>, result: Option<Result>, code: string)

  /** The measured value of a monitor that has a result. */
  function ValueOf(m: Monitor): I64
    requires m.result.Some?
  {
    m.result.value.value
  }

  /** The timestamp of a monitor that has a result. */
  function StampOf(m: Monitor): I64
    requires m.result.Some?
  {
    m.result.value.processedAt
  }

  /** What `gen_range(0..100)` can return: the range is half-open. */
  type Draw = v: int | 0 <= v < 100

  /** The collection the loop is meant to leave: each monitor's result is the
      pair of its draw and its clock reading, whatever it held before. */
  function Refreshed(ms: seq<Monitor>, draws: seq<Draw>, clock: seq<I64>): (ms': seq<Monitor>)
    requires |draws| == |ms| && |clock| == |ms|
    ensures |ms'| == |ms|
    ensures forall k :: 0 <= k < |ms| ==>
      ms'[k].name == ms[k].name && ms'[k].script == ms[k].script && ms'[k].code == ms[k].code &&
      ms'[k].result.Some? && ValueOf(ms'[k]) == draws[k] && StampOf(ms'[k]) == clock[k]
  {
    seq(|ms|, k requires 0 <= k < |ms| => ms[k].(result := Some(Result(draws[k], clock[k]))))
  }

  /** The `for monitor in &mut monitor_data.monitors` loop. A monitor
      without a result gets a new one; a monitor with one has its `value` and
      `processed_at` overwritten in place. Both branches leave the same
      monitor. */
  method RefreshResults(monitors: array<Monitor>, draws: seq<Draw>, clock: seq<I64>)
    requires |draws| == monitors.Length && |clock| == monitors.Length
    modifies monitors
    ensures monitors[..] == Refreshed(old(monitors[..]), draws, clock)
  {
    for i := 0 to monitors.Length
      invariant forall k :: 0 <= k < i ==> monitors[k] == old(monitors[k]).(result := Some(Result(draws[k], clock[k])))
      invariant forall k :: i <= k < monitors.Length ==> monitors[k] == old(monitors[k])
    {
      if monitors[i].result.None? {
        monitors[i] := monitors[i].(result := Some(Result(draws[i], clock[i])));
      } else {
        var result := monitors[i].result.value;
        result := result.(value := draws[i]);
        result := result.(processedAt := clock[i]);
        monitors[i] := monitors[i].(result := Some(result));
      }
    }
  }

  /** The loop keeps the length and order of the collection and the name,
      script and code of every monitor, and leaves every monitor with a
      result whose value lies in [0, 100). */
  lemma RefreshedShape(ms: seq<Monitor>, draws: seq<Draw>, clock: seq<I64>)
    requires |draws| == |ms| && |clock| == |ms|
    ensures |Refreshed(ms, draws, clock)| == |ms|
    ensures forall k :: 0 <= k < |ms| ==>
      var m := Refreshed(ms, draws, clock)[k];
      m.name == ms[k].name && m.script == ms[k].script && m.code == ms[k].code &&
      m.result.Some? && 0 <= ValueOf(m) < 100 && ValueOf(m) == draws[k]
  {
  }

  /** With a non-decreasing clock the timestamps are non-decreasing along the
      vector. */
  lemma RefreshedStampsFollowClock(ms: seq<Monitor>, draws: seq<Draw>, clock: seq<I64>)
    requires |draws| == |ms| && |clock| == |ms|
    requires NonDecreasing(clock)
    ensures forall i, j :: 0 <= i <= j < |ms| ==>
      Refreshed(ms, draws, clock)[i].result.Some? && Refreshed(ms, draws, clock)[j].result.Some? &&
      StampOf(Refreshed(ms, draws, clock)[i]) <= StampOf(Refreshed(ms, draws, clock)[j])
  {
  }
}
