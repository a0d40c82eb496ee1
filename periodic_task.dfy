/**
 * The periodic tasks of the demonstration. Each task keeps one piece of state, its
 * next release time. Every cycle it advances that time by its period, samples the
 * clock, reports whether the deadline (the advanced release time) was met, and then
 * sleeps until that absolute release time. The clock samples are inputs here, and
 * the verdicts are returned instead of printed.
 */
module PeriodicTask {
  import opened TimeUtils

  /** The value `timespec_cmp` must return for a deadline to count as missed. */
  const MissedTime: int := 1

  /** What a task reports at the end of a cycle. */
  datatype Verdict = Met | Missed

  /** The fixed configuration of one task: its period in microseconds and its priority. */
  datatype TaskConfig = TaskConfig(periodUs: int, priority: int)

  const Task1: TaskConfig := TaskConfig(100_000, 3)
  const Task2: TaskConfig := TaskConfig(200_000, 2)
  const Task3: TaskConfig := TaskConfig(300_000, 1)

  /** The three tasks the program starts. */
  const TaskSet: seq<TaskConfig> := [Task1, Task2, Task3]

  /** Rate-monotonic priority assignment: a strictly shorter period means a strictly
      higher priority. */
  predicate RateMonotonic(tasks: seq<TaskConfig>) {
    forall i, j :: 0 <= i < |tasks| && 0 <= j < |tasks| ==>
      (tasks[i].periodUs < tasks[j].periodUs <==> tasks[i].priority > tasks[j].priority)
  }

  /** The configured task set is rate monotonic, and every period is positive and short
      enough for the single carry of the time advance to keep time points normalized. */
  lemma TaskSetConfiguration()
    ensures RateMonotonic(TaskSet)
    ensures forall i :: 0 <= i < |TaskSet| ==> 0 < TaskSet[i].periodUs < 1_000_000
  {
  }

  /** With any configured period, the sub-second sum formed while advancing a normalized
      release time stays below 2^31, so it fits even a 32-bit `long`. */
  lemma ConfiguredAdvanceFitsInt32(t: TimePoint, task: TaskConfig)
    requires Normalized(t) && task in TaskSet
    ensures 0 <= t.nsec + task.periodUs * NanosecondsInMicrosecond < 0x8000_0000
  {
  }

  /** The deadline check of one cycle: missed exactly when the sampled time compares
      as later than the release time. */
  function Check(now: TimePoint, next: TimePoint): (v: Verdict)
    ensures v == Missed <==> now.sec > next.sec || (now.sec == next.sec && now.nsec > next.nsec)
  {
    if Cmp(now, next) == MissedTime then Missed else Met
  }

  /** On normalized clock values a deadline is missed exactly when the sampled instant is
      strictly after the release instant; reaching the release instant exactly is met. */
  lemma CheckMissedIffLater(now: TimePoint, next: TimePoint)
    requires Normalized(now) && Normalized(next)
    ensures Check(now, next) == Missed <==> TotalNanos(now) > TotalNanos(next)
    ensures TotalNanos(now) == TotalNanos(next) ==> Check(now, next) == Met
  {
    CmpOrdersInstants(now, next);
  }

  /** The release time after `k` cycles of a task with period `periodUs` started at `start`. */
  function ReleaseAfter(start: TimePoint, periodUs: int, k: nat): TimePoint {
    if k == 0 then start else AdvancedBy(ReleaseAfter(start, periodUs, k - 1), periodUs)
  }

  /** No drift: after `k` cycles the release time lies exactly `k` periods after the start. */
  lemma {:induction false} ReleaseAfterIsLinear(start: TimePoint, periodUs: int, k: nat)
    ensures TotalNanos(ReleaseAfter(start, periodUs, k))
         == TotalNanos(start) + k * periodUs * NanosecondsInMicrosecond
  {
    if k > 0 {
      ReleaseAfterIsLinear(start, periodUs, k - 1);
      calc {
        TotalNanos(ReleaseAfter(start, periodUs, k));
        TotalNanos(ReleaseAfter(start, periodUs, k - 1)) + periodUs * NanosecondsInMicrosecond;
        TotalNanos(start) + (k - 1) * periodUs * NanosecondsInMicrosecond + periodUs * NanosecondsInMicrosecond;
        { assert (k - 1) * periodUs + periodUs == k * periodUs; }
        TotalNanos(start) + k * periodUs * NanosecondsInMicrosecond;
      }
    }
  }

  /** Release times stay normalized when the start is and the period is under a second. */
  lemma {:induction false} ReleaseAfterNormalized(start: TimePoint, periodUs: int, k: nat)
    requires Normalized(start) && 0 <= periodUs < 1_000_000
    ensures Normalized(ReleaseAfter(start, periodUs, k))
  {
    if k > 0 {
      ReleaseAfterNormalized(start, periodUs, k - 1);
    }
  }

  /** The closed form of the schedule: the release time after `k` cycles is the canonical
      time point `start + k * period`, field by field. */
  lemma ReleaseAfterClosedForm(start: TimePoint, periodUs: int, k: nat)
    requires Normalized(start) && 0 <= periodUs < 1_000_000
    ensures ReleaseAfter(start, periodUs, k)
         == FromNanos(TotalNanos(start) + k * periodUs * NanosecondsInMicrosecond)
  {
    ReleaseAfterIsLinear(start, periodUs, k);
    ReleaseAfterNormalized(start, periodUs, k);
    NormalizedIsCanonical(ReleaseAfter(start, periodUs, k));
  }

  /** Release times strictly increase from one cycle to the next for a positive period. */
  lemma ReleasesIncrease(start: TimePoint, periodUs: int, k: nat)
    requires periodUs > 0
    ensures Cmp(ReleaseAfter(start, periodUs, k + 1), ReleaseAfter(start, periodUs, k)) == 1
  {
    AdvancedIsLater(ReleaseAfter(start, periodUs, k), periodUs);
  }

  /** Cycle `k` (counting from 0) reports a miss exactly when its clock sample is strictly
      later than `k + 1` periods after the start; earlier samples play no part. */
  lemma MissedIffOverran(start: TimePoint, periodUs: int, k: nat, now: TimePoint)
    requires Normalized(start) && Normalized(now) && 0 <= periodUs < 1_000_000
    ensures Check(now, ReleaseAfter(start, periodUs, k + 1)) == Missed
        <==> TotalNanos(now) > TotalNanos(start) + (k + 1) * periodUs * NanosecondsInMicrosecond
  {
    ReleaseAfterNormalized(start, periodUs, k + 1);
    ReleaseAfterIsLinear(start, periodUs, k + 1);
    CheckMissedIffLater(now, ReleaseAfter(start, periodUs, k + 1));
  }

  /**
   * The loop of one task, run for as many cycles as there are clock samples.
   * `start` is the clock value read before the loop; `samples[k]` is the value read
   * after the work of cycle `k`. Each cycle advances the release time in place by the
   * period, checks the sample against it, and would then sleep until it.
   */
  method RunTask(task: TaskConfig, start: TimePoint, samples: seq<TimePoint>)
    returns (verdicts: seq<Verdict>, next: TimePoint)
    ensures |verdicts| == |samples|
    // the release time ends `|samples|` periods after the start, whatever was sampled
    ensures next == ReleaseAfter(start, task.periodUs, |samples|)
    // each verdict compares that cycle's sample with that cycle's advanced release time
    ensures forall k :: 0 <= k < |samples| ==>
      verdicts[k] == Check(samples[k], ReleaseAfter(start, task.periodUs, k + 1))
  {
    var timeNextTask := new Timespec(start);
    verdicts := [];
    var i := 0;
    while i < |samples|
      invariant 0 <= i <= |samples|
      invariant |verdicts| == i
      invariant timeNextTask.Value() == ReleaseAfter(start, task.periodUs, i)
      invariant forall k :: 0 <= k < i ==>
        verdicts[k] == Check(samples[k], ReleaseAfter(start, task.periodUs, k + 1))
    {
      timeNextTask.AddUs(task.periodUs);
      var timeCurrentTask := samples[i];
      var verdict := Check(timeCurrentTask, timeNextTask.Value());
      verdicts := verdicts + [verdict];
      i := i + 1;
    }
    next := timeNextTask.Value();
  }
}
