/**
 * Time utilities of the periodic-task demonstration: absolute time points made of
 * a seconds field and a nanoseconds field (a POSIX `struct timespec`), advancing a
 * time point by a number of microseconds, and the three-way comparison that decides
 * whether a deadline was missed.
 *
 * Integers are unbounded here. The width of the source's `time_t` and `long` fields
 * depends on the platform (64 or 32 bits); wrap-around is not modelled. For the periods
 * the task set uses, the sub-second sum stays below 2^31, so neither width overflows there.
 */
module TimeUtils {

  /** Nanoseconds in one second (the source writes it as a double literal, but only
      ever applies it to exact integers). */
  const NanosecondsInSecond: int := 1_000_000_000

  /** Nanoseconds in one microsecond, the factor applied to a period before adding it. */
  const NanosecondsInMicrosecond: int := 1000

  /** An absolute time point: whole seconds and a sub-second part in nanoseconds. */
  datatype TimePoint = TimePoint(sec: int, nsec: int)

  /** The invariant a sampled clock value satisfies: the sub-second part lies in [0, 1e9). */
  predicate Normalized(t: TimePoint) {
    0 <= t.nsec < NanosecondsInSecond
  }

  /** The time point read as a single count of nanoseconds. */
  function TotalNanos(t: TimePoint): int {
    t.sec * NanosecondsInSecond + t.nsec
  }

  /** The normalized time point that lies `n` nanoseconds after the epoch. */
  function FromNanos(n: int): (t: TimePoint)
    ensures Normalized(t) && TotalNanos(t) == n
  {
    TimePoint(n / NanosecondsInSecond, n % NanosecondsInSecond)
  }

  /** Two normalized time points that denote the same instant are the same pair. */
  lemma NormalizedUnique(a: TimePoint, b: TimePoint)
    requires Normalized(a) && Normalized(b)
    requires TotalNanos(a) == TotalNanos(b)
    ensures a == b
  {
    CmpOrdersInstants(a, b);
  }

  /** A normalized time point is the canonical form of its own nanosecond count. */
  lemma NormalizedIsCanonical(t: TimePoint)
    requires Normalized(t)
    ensures FromNanos(TotalNanos(t)) == t
  {
    NormalizedUnique(FromNanos(TotalNanos(t)), t);
  }

  /**
   * The value `timespec_add_us` leaves in the structure: the microseconds are scaled
   * to nanoseconds and added to the sub-second field, and ONE conditional carry moves
   * a full second into the seconds field.
   */
  function AdvancedBy(t: TimePoint, us: int): (r: TimePoint)
    // the instant moves by exactly `us` microseconds, whatever the inputs
    ensures TotalNanos(r) == TotalNanos(t) + us * NanosecondsInMicrosecond
    // the seconds field rises by one precisely when the sub-second sum reaches a second
    ensures r.sec == t.sec || r.sec == t.sec + 1
    ensures r.sec == t.sec + 1 <==> t.nsec + us * NanosecondsInMicrosecond >= NanosecondsInSecond
    // a single carry is enough to stay normalized when less than a second is added
    ensures Normalized(t) && 0 <= us < 1_000_000 ==> Normalized(r)
  {
    var nsec := t.nsec + us * NanosecondsInMicrosecond;
    if nsec >= NanosecondsInSecond then TimePoint(t.sec + 1, nsec - NanosecondsInSecond)
    else TimePoint(t.sec, nsec)
  }

  /**
   * `timespec_cmp`: -1 when `a` is earlier than `b`, 0 when they are equal, 1 when
   * `a` is later; seconds decide first and nanoseconds break ties.
   */
  function Cmp(a: TimePoint, b: TimePoint): (r: int)
    ensures r == -1 || r == 0 || r == 1
    ensures r == 0 <==> a == b
    ensures r == 1 <==> a.sec > b.sec || (a.sec == b.sec && a.nsec > b.nsec)
    ensures r == -1 <==> a.sec < b.sec || (a.sec == b.sec && a.nsec < b.nsec)
  {
    if a.sec > b.sec then 1
    else if a.sec < b.sec then -1
    else if a.nsec > b.nsec then 1
    else if a.nsec < b.nsec then -1
    else 0
  }

  /** The sign of an integer, as -1, 0 or 1. */
  function Sign(x: int): (s: int)
    ensures s == -1 || s == 0 || s == 1
    ensures s == 0 <==> x == 0
    ensures s == 1 <==> x > 0
  {
    if x > 0 then 1 else if x < 0 then -1 else 0
  }

  /** On normalized time points the lexicographic comparison orders the instants. */
  lemma CmpOrdersInstants(a: TimePoint, b: TimePoint)
    requires Normalized(a) && Normalized(b)
    ensures Cmp(a, b) == Sign(TotalNanos(a) - TotalNanos(b))
  {
    if a.sec > b.sec {
      assert TotalNanos(b) < (b.sec + 1) * NanosecondsInSecond <= TotalNanos(a);
    } else if a.sec < b.sec {
      assert TotalNanos(a) < (a.sec + 1) * NanosecondsInSecond <= TotalNanos(b);
    }
  }

  /** Every time point compares equal to itself. */
  lemma CmpReflexive(a: TimePoint)
    ensures Cmp(a, a) == 0
  {
  }

  /** Swapping the arguments negates the answer. */
  lemma CmpAntisymmetric(a: TimePoint, b: TimePoint)
    ensures Cmp(a, b) == -Cmp(b, a)
  {
  }

  /** "Later than" is transitive. */
  lemma CmpTransitive(a: TimePoint, b: TimePoint, c: TimePoint)
    requires Cmp(a, b) == 1 && Cmp(b, c) == 1
    ensures Cmp(a, c) == 1
  {
  }

  /** Advancing by a positive period always yields a strictly later time point. */
  lemma AdvancedIsLater(t: TimePoint, us: int)
    requires us > 0
    ensures Cmp(AdvancedBy(t, us), t) == 1
  {
  }

  /**
   * A `struct timespec` that the source updates in place through a pointer, as it
   * does with each task's next release time.
   */
  class Timespec {
    var tvSec: int
    var tvNsec: int

    /** The time point the structure currently holds. */
    function Value(): TimePoint
      reads this
    {
      TimePoint(tvSec, tvNsec)
    }

    /** A structure filled with a sampled clock value. */
    constructor (t: TimePoint)
      ensures Value() == t
    {
      tvSec := t.sec;
      tvNsec := t.nsec;
    }

    /** `timespec_add_us`: advance the structure in place by `us` microseconds. */
    method AddUs(us: int)
      modifies this
      ensures Value() == AdvancedBy(old(Value()), us)
      ensures TotalNanos(Value()) == TotalNanos(old(Value())) + us * NanosecondsInMicrosecond
      ensures Normalized(old(Value())) && 0 <= us < 1_000_000 ==> Normalized(Value())
    {
      tvNsec := tvNsec + us * NanosecondsInMicrosecond;
      if tvNsec >= NanosecondsInSecond {
        tvNsec := tvNsec - NanosecondsInSecond;
        tvSec := tvSec + 1;
      }
    }
  }
}
