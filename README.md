# Periodic real-time tasks: release times and deadline checks

This project models the timing core of a small demonstration of rate-monotonic
scheduling on Linux (`embeddedlinux.c`). Three threads run the same periodic loop
with periods of 100 ms, 200 ms and 300 ms and priorities 3, 2 and 1. Each loop does
some busy work and then advances its next release time by its period. It reads the
clock and reports "Deadline met" or "Missed deadline". Then it sleeps until the
absolute release time.

The model has two modules:

- `TimeUtils` (`time_utils.dfy`) covers time points as `(sec, nsec)` pairs.
  `AdvancedBy` is the arithmetic of `timespec_add_us`, and the class `Timespec`
  performs it in place, as the source does through a pointer. `Cmp` is the three-way
  comparison `timespec_cmp`. The lemmas prove that `Cmp` is a total order and that on
  normalized points it orders instants by their nanosecond count.
- `PeriodicTask` (`periodic_task.dfy`) covers the per-cycle release and deadline rule,
  which the source repeats in `task1`, `task2` and `task3`. It also holds the task set's
  periods and priorities. `RunTask` replaces the clock by a sequence of sampled times
  and returns the verdicts. It is proved against `ReleaseAfter`, the release time after
  `k` cycles. The lemmas show that the schedule does not drift: after `k` cycles the
  release time is exactly `start + k * period`, whatever the verdicts were.

A sample exactly at the release time counts as met: the code reports a miss only when
`timespec_cmp` returns `MISSED_TIME` (1), that is, when the sample is strictly later
(embeddedlinux.c:39, 105). `Check` and `CheckMissedIffLater` state this rule.

## Model

| member | source | states |
|---|---|---|
| TimeUtils.AdvancedBy | embeddedlinux.c:57-63 | adding `us` microseconds moves the instant by exactly `us*1000` ns; the seconds field rises by 0 or 1, and by 1 exactly when `nsec + us*1000 >= 1e9`; a normalized point stays normalized when `0 <= us < 1e6` |
| TimeUtils.Timespec.AddUs | embeddedlinux.c:57-63 | advances the structure in place to `AdvancedBy` of its old value, adding exactly `us*1000` ns and keeping normalization under the one-second bound |
| TimeUtils.Timespec.constructor | embeddedlinux.c:90-92 | the release-time structure starts out holding the sampled clock value |
| TimeUtils.Cmp | embeddedlinux.c:65-76 | returns only -1, 0 or 1; 0 exactly on equal points; 1 exactly when the seconds are greater or equal seconds have greater nanoseconds; -1 in the mirrored case |
| TimeUtils.CmpOrdersInstants | embeddedlinux.c:65-76 | on normalized points the comparison is the sign of the difference of the nanosecond counts, so it orders the instants themselves |
| TimeUtils.CmpReflexive | embeddedlinux.c:65-76 | every point compares equal to itself |
| TimeUtils.CmpAntisymmetric | embeddedlinux.c:65-76 | swapping the arguments negates the result |
| TimeUtils.CmpTransitive | embeddedlinux.c:65-76 | "later than" is transitive |
| TimeUtils.NormalizedUnique | embeddedlinux.c:65-76 | two normalized points denoting the same instant are field-wise equal, so comparing equal means the same instant |
| TimeUtils.AdvancedIsLater | embeddedlinux.c:57-76 | advancing any point by a positive period yields a point that compares as later (1) |
| PeriodicTask.TaskSetConfiguration | embeddedlinux.c:32-38 | the three configured tasks are rate monotonic (shorter period iff higher priority), and every period lies in `(0, 1e6)` microseconds, so a single carry suffices |
| PeriodicTask.ConfiguredAdvanceFitsInt32 | embeddedlinux.c:32-34 | for a normalized release time and any configured period, the intermediate sum `tv_nsec + us*1000` lies below 2^31, so it fits a 32-bit `long` |
| PeriodicTask.Check | embeddedlinux.c:105-108 | a cycle is Missed exactly when the sampled time compares as later (`MISSED_TIME`) than the release time |
| PeriodicTask.CheckMissedIffLater | embeddedlinux.c:105-108 | on normalized values, Missed iff the sampled instant is strictly after the release instant; a sample at the release instant is Met |
| PeriodicTask.ReleaseAfterIsLinear | embeddedlinux.c:103 | after `k` cycles the release instant is exactly `start + k*period*1000` ns (no drift, no catch-up) |
| PeriodicTask.ReleaseAfterNormalized | embeddedlinux.c:103 | release times stay normalized for a normalized start and a period under one second |
| PeriodicTask.ReleaseAfterClosedForm | embeddedlinux.c:93-110 | the release time after `k` cycles is, field by field, the canonical point `start + k*period` |
| PeriodicTask.ReleasesIncrease | embeddedlinux.c:103 | for a positive period each release time compares as later than the previous one |
| PeriodicTask.MissedIffOverran | embeddedlinux.c:103-108 | cycle `k` is Missed iff its sample is strictly after `start + (k+1)*period`, independent of earlier samples and verdicts |
| PeriodicTask.RunTask | embeddedlinux.c:89-110 | over a run of sampled clock values: one verdict per cycle; the final release time is `ReleaseAfter(start, period, n)` whatever the samples; verdict `k` checks sample `k` against release `k+1` (the same loop is `task2` at lines 116-131 and `task3` at lines 136-158) |

## Left out

- Thread creation, SCHED_FIFO policy, priority and CPU-affinity setup and joining in `main` (embeddedlinux.c:161-215) are OS plumbing for concurrency, not modelled. Only the period and priority constants they use are modelled, as `Task1`, `Task2`, `Task3` and `TaskSet` (facts about them are stated in `TaskSetConfiguration`).
- The shared mutex and the priority-inversion regime (embeddedlinux.c:42, 94-99, 141-147) are not modelled. They concern inter-thread blocking and real-time delays. They are compiled out in the configured rate-monotonic regime and have no effect on the release and deadline rule.
- `clock_gettime` and `clock_nanosleep` are replaced by caller-supplied time points: `start` and `samples` in `RunTask`. The absolute sleep only means that the next cycle starts at or after the release time, and no property here depends on it.
- `subtract_timespecs` (embeddedlinux.c:78-85) computes in floating point and only serves diagnostics, so it is not modelled.
- The busy-work loops (embeddedlinux.c:100-102, 121-123, 148-150) have no observable result, so they are not modelled.
- The `printf` reports are modelled as `Verdict` values `Met` and `Missed`, not as text.
- TimeUtils.AdvancedBy: does not model integer widths. The C text fixes none: `long` and `time_t` are 64 bits on 64-bit Linux, while on 32-bit ARM Linux `long` is 32 bits and `time_t` has traditionally been 32 bits too. With a 32-bit `long`, `us * 1000` (embeddedlinux.c:58) wraps for `us > 2147483`, and `tv_sec += 1` (line 61) wraps in 2038 whatever the period. Neither wrap-around nor the `tv_sec` limit is modelled: integers are unbounded. With the configured periods, `tv_nsec + us * 1000` stays below 1.3e9 < 2^31, so neither width overflows in the sum (stated by `ConfiguredAdvanceFitsInt32`).
- TimeUtils.AdvancedBy and TimeUtils.Timespec.AddUs: the source compares and subtracts `NANOSECONDS_IN_SECOND` as a double (embeddedlinux.c:28, 59-60). Both members use the exact integer 1000000000 instead, which matches the source for every `tv_nsec` below 2^53.
