/** Shared vocabulary: failure-carrying results and the calendar. */
module Common {

  datatype Option<+T> = None | Some(value: T)

  datatype Result<+T, +E> = Success(value: T) | Failure(error: E)

  /** Pass, or the exception an operation that returns nothing raised. */
  datatype Outcome<+E> = Pass | Fail(error: E)

  /** A point in time: milliseconds since 1970-01-01T00:00:00 UTC, the unit of the
      market API's timestamps and the resolution `pd.to_datetime(unit='ms')` keeps. */
  type Instant = int

  /** A UTC calendar date, counted in days since 1970-01-01. */
  type Day = int

  const MsPerDay: int := 86_400_000

  /** Midnight (UTC) at the start of a day: what parsing a "YYYY-MM-DD" text gives. */
  function StartOf(d: Day): Instant
  {
    d * MsPerDay
  }

  /** The calendar date of an instant (`.date()` of a naive UTC datetime). Dafny's
      division is Euclidean, which for a positive divisor is the floor, so instants
      before 1970 fall on the right day too. */
  function DayOf(t: Instant): (d: Day)
    ensures StartOf(d) <= t < StartOf(d + 1)
  {
    t / MsPerDay
  }

  lemma DayOfMonotone(t: Instant, u: Instant)
    requires t <= u
    ensures DayOf(t) <= DayOf(u)
  {
  }

  lemma DayOfStart(d: Day)
    ensures DayOf(StartOf(d)) == d
  {
  }

  /** The values of the successes, in order. */
  function Successes<T, E>(rs: seq<Result<T, E>>): seq<T>
  {
    if rs == [] then []
    else
      var r := rs[|rs| - 1];
      Successes(rs[..|rs| - 1]) + (if r.Success? then [r.value] else [])
  }

  /** The errors of the failures, in order. */
  function Failures<T, E>(rs: seq<Result<T, E>>): seq<E>
  {
    if rs == [] then []
    else
      var r := rs[|rs| - 1];
      Failures(rs[..|rs| - 1]) + (if r.Failure? then [r.error] else [])
  }

  /** Extending the prefix by one result extends exactly one of the two lists. */
  lemma PrefixStep<T, E>(rs: seq<Result<T, E>>, i: nat)
    requires i < |rs|
    ensures Successes(rs[..i + 1]) == Successes(rs[..i]) + (if rs[i].Success? then [rs[i].value] else [])
    ensures Failures(rs[..i + 1]) == Failures(rs[..i]) + (if rs[i].Failure? then [rs[i].error] else [])
  {
    assert rs[..i + 1][..i] == rs[..i];
  }

  lemma {:induction false} SuccessesOrFailures<T, E>(rs: seq<Result<T, E>>)
    ensures |Successes(rs)| + |Failures(rs)| == |rs|
  {
    if rs != [] {
      SuccessesOrFailures(rs[..|rs| - 1]);
    }
  }

  lemma {:induction false} SuccessesExactly<T, E>(rs: seq<Result<T, E>>, v: T)
    ensures v in Successes(rs) <==> Success(v) in rs
  {
    if rs != [] {
      var init := rs[..|rs| - 1];
      SuccessesExactly(init, v);
      assert rs == init + [rs[|rs| - 1]];
    }
  }

  lemma {:induction false} FailuresExactly<T, E>(rs: seq<Result<T, E>>, e: E)
    ensures e in Failures(rs) <==> Failure(e) in rs
  {
    if rs != [] {
      var init := rs[..|rs| - 1];
      FailuresExactly(init, e);
      assert rs == init + [rs[|rs| - 1]];
    }
  }
}
