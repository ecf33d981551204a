/** Reconnect backoff: geometric, capped, with additive jitter. */
module Backoff {
  import opened Base

  const INITIAL_RECONNECT_BACKOFF_MS: nat := 500
  const MAX_RECONNECT_BACKOFF_MS: nat := 60_000
  const JITTER_CEILING_MS: nat := 250

  function SaturatingMul64(a: nat, b: nat): nat {
    Min(a * b, U64_MODULUS - 1)
  }

  /** The delay, in milliseconds, before the retry that follows failure `attempt`. */
  function ComputeBackoff(attempt: nat, jitter: nat): nat {
    var exponent := Min(SaturatingSub(attempt, 1), 20);
    var scaled := SaturatingMul64(INITIAL_RECONNECT_BACKOFF_MS, Pow2(exponent));
    var capped := Min(scaled, MAX_RECONNECT_BACKOFF_MS);
    Min(SaturatingAdd(capped, jitter, U64_MODULUS - 1), MAX_RECONNECT_BACKOFF_MS)
  }

  /** The schedule the delays follow, with no exponent clamp and no machine width. */
  function Schedule(attempt: nat): nat
    requires attempt >= 1
  {
    Min(INITIAL_RECONNECT_BACKOFF_MS * Pow2(attempt - 1), MAX_RECONNECT_BACKOFF_MS)
  }

  lemma {:induction false} Pow2Grows(m: nat, n: nat)
    requires m <= n
    ensures Pow2(m) <= Pow2(n)
    decreases n
  {
    if m == n {
    } else {
      Pow2Grows(m, n - 1);
    }
  }

  lemma Pow2Values()
    ensures Pow2(1) == 2 && Pow2(2) == 4 && Pow2(3) == 8 && Pow2(4) == 16 && Pow2(5) == 32 && Pow2(6) == 64
    ensures Pow2(7) == 128 && Pow2(20) == 1048576
  {
    assert Pow2(10) == 1024 by { assert Pow2(5) == 32 && Pow2(8) == 256; }
    assert Pow2(15) == 32768 by { assert Pow2(13) == 8192; }
    assert Pow2(18) == 262144;
  }

  /** For every attempt and every draw: between the schedule and the cap, less than
      one jitter ceiling above the schedule, and pinned at the cap from attempt 8 on.
      Neither the exponent clamp nor a 64-bit saturation is ever visible. */
  lemma BackoffBounds(attempt: nat, jitter: nat)
    requires attempt >= 1 && jitter < JITTER_CEILING_MS
    ensures Schedule(attempt) <= ComputeBackoff(attempt, jitter) <= MAX_RECONNECT_BACKOFF_MS
    ensures ComputeBackoff(attempt, jitter) == Min(Schedule(attempt) + jitter, MAX_RECONNECT_BACKOFF_MS)
    ensures attempt >= 8 ==> ComputeBackoff(attempt, jitter) == MAX_RECONNECT_BACKOFF_MS
    ensures attempt <= 7 ==> Schedule(attempt) == INITIAL_RECONNECT_BACKOFF_MS * Pow2(attempt - 1)
  {
    Pow2Values();
    if attempt >= 8 {
      Pow2Grows(7, attempt - 1);
      Pow2Grows(7, Min(attempt - 1, 20));
      Pow2Grows(Min(attempt - 1, 20), 20);
    } else {
      Pow2Grows(attempt - 1, 6);
    }
  }

  /** The schedule in milliseconds. */
  lemma ScheduleValues()
    ensures Schedule(1) == 500 && Schedule(2) == 1000 && Schedule(3) == 2000 && Schedule(4) == 4000
    ensures Schedule(5) == 8000 && Schedule(6) == 16000 && Schedule(7) == 32000
    ensures forall attempt :: attempt >= 8 ==> Schedule(attempt) == 60000
  {
    Pow2Values();
    forall attempt | attempt >= 8
      ensures Schedule(attempt) == 60000
    {
      Pow2Grows(7, attempt - 1);
    }
  }

  /** Up to the cap, each delay beats the one before it whatever the two draws. */
  lemma BackoffGrows(attempt: nat, jitter: nat, nextJitter: nat)
    requires 1 <= attempt <= 7 && jitter < JITTER_CEILING_MS && nextJitter < JITTER_CEILING_MS
    ensures ComputeBackoff(attempt, jitter) < ComputeBackoff(attempt + 1, nextJitter)
  {
    Pow2Values();
    BackoffBounds(attempt, jitter);
    BackoffBounds(attempt + 1, nextJitter);
  }

  // ------------------------------------------------------------ failure streaks

  /** The delays of a streak of failures 1, 2, ..., under these draws. */
  function StreakDelays(jitters: seq<nat>): (r: seq<nat>)
    ensures |r| == |jitters|
  {
    if jitters == [] then []
    else
      StreakDelays(jitters[..|jitters| - 1])
      + [ComputeBackoff(Min(|jitters|, U32_MAX), jitters[|jitters| - 1])]
  }

  lemma StreakDelaysSnoc(jitters: seq<nat>, last: nat)
    ensures StreakDelays(jitters + [last])
            == StreakDelays(jitters) + [ComputeBackoff(Min(|jitters| + 1, U32_MAX), last)]
  {
    assert (jitters + [last])[..|jitters|] == jitters;
  }

  function Total(delays: seq<nat>): nat {
    if delays == [] then 0 else Total(delays[..|delays| - 1]) + delays[|delays| - 1]
  }

  /** 500 + 1000 + ... + 32000, then 60000 per failure. */
  function StreakFloor(failures: nat): nat {
    if failures <= 7 then INITIAL_RECONNECT_BACKOFF_MS * (Pow2(failures) - 1)
    else INITIAL_RECONNECT_BACKOFF_MS * 127 + MAX_RECONNECT_BACKOFF_MS * (failures - 7)
  }

  /** The floor is the sum of the schedule. */
  lemma StreakFloorStep(failures: nat)
    requires failures >= 1
    ensures StreakFloor(failures) == StreakFloor(failures - 1) + Schedule(failures)
    ensures failures >= 8 ==> Schedule(failures) == MAX_RECONNECT_BACKOFF_MS
  {
    BackoffBounds(failures, 0);
    Pow2Values();
    if failures <= 7 {
      assert Pow2(failures) == 2 * Pow2(failures - 1);
    } else {
      Pow2Grows(7, failures - 1);
    }
  }

  /** The total time slept over a streak is fixed by its length, to within the jitter
      of its first seven delays. */
  lemma {:induction false} StreakBounds(jitters: seq<nat>)
    requires forall i :: 0 <= i < |jitters| ==> jitters[i] < JITTER_CEILING_MS
    ensures StreakFloor(|jitters|) <= Total(StreakDelays(jitters))
    ensures Total(StreakDelays(jitters)) <= StreakFloor(|jitters|) + (JITTER_CEILING_MS - 1) * Min(|jitters|, 7)
    decreases |jitters|
  {
    var n := |jitters|;
    if n == 0 {
    } else {
      var delays := StreakDelays(jitters);
      StreakBounds(jitters[..n - 1]);
      assert delays[..n - 1] == StreakDelays(jitters[..n - 1]);
      StreakFloorStep(n);
      DelayNearSchedule(n, jitters[n - 1]);
    }
  }

  lemma DelayNearSchedule(failures: nat, jitter: nat)
    requires failures >= 1 && jitter < JITTER_CEILING_MS
    ensures Schedule(failures) <= ComputeBackoff(Min(failures, U32_MAX), jitter)
            <= Schedule(failures) + (if failures <= 7 then JITTER_CEILING_MS - 1 else 0)
  {
    BackoffBounds(Min(failures, U32_MAX), jitter);
    StreakFloorStep(failures);
  }
}
