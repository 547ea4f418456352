/**
 The CPU-load sampler of omr/OMR_TI.cpp. The system and the process version keep the same two saved
 records, status and counter, and differ only in how a load is computed from two records.
 */
module CpuLoad {
  import opened MachineIntegers
  import opened Options

  const MINIMUM_CPU_LOAD_INTERVAL: int := 1_000_000
  const MAXIMUM_NEGATIVE_ELAPSED_TIME_COUNT: int := 3

  datatype Kind = System | Process

  /**
   One record. `cpuTime` is the counter that must not decrease: all CPU time for the system sampler, user time
   for the process sampler, which alone also uses `systemTime`.
   */
  datatype Reading = Reading(timestamp: int, cpuTime: int, systemTime: int, numberOfCpus: int) {
    predicate InRange() {
      IsInt64(timestamp) && IsInt64(cpuTime) && IsInt64(systemTime) && -TWO_31 <= numberOfCpus < TWO_31
    }
  }

  datatype Status = NoHistory | Supported | CpuLoadErrorValue | InsufficientPrivilege | Unsupported

  /** The ways in which the port and thread libraries fail to measure. */
  datatype PortFailure = PrivilegeMissing | NotSupported | OtherFailure

  datatype Measurement = Measured(reading: Reading) | Failed(failure: PortFailure)

  /** The status a failure is recorded as. */
  function StatusOf(failure: PortFailure): Status {
    match failure
    case PrivilegeMissing => InsufficientPrivilege
    case NotSupported => Unsupported
    case OtherFailure => CpuLoadErrorValue
  }

  datatype CalcError = Ok | ElapsedTimeNegative | ElapsedTimeTooSmall | NegativeInterval

  datatype Error = NoError | Retry | InternalError | NotAvailable | IllegalArgument | ThreadNotAttached

  /** A double, up to rounding. */
  datatype Double = Finite(value: real) | MinusInfinity

  // ---------- One pair of records ----------

  function ComputeTimeInterval(end: int, start: int): int {
    ToInt64(ToUint64(end) - ToUint64(start))
  }

  function CalculateError(end: Reading, start: Reading): CalcError {
    var delta := ComputeTimeInterval(end.timestamp, start.timestamp);
    if delta < 0 then ElapsedTimeNegative
    else if delta < MINIMUM_CPU_LOAD_INTERVAL then ElapsedTimeTooSmall
    else if end.cpuTime < start.cpuTime then NegativeInterval
    else Ok
  }

  /** OMR_MIN(num / den, 1.0). Dividing by zero gives an infinity or a NaN, and a NaN is not less than 1.0. */
  function AtMostOne(num: int, den: int): Double {
    if den == 0 then (if num < 0 then MinusInfinity else Finite(1.0))
    else if num as real / den as real < 1.0 then Finite(num as real / den as real)
    else Finite(1.0)
  }

  function Denominator(end: Reading, start: Reading): int {
    ToInt64(end.numberOfCpus * ComputeTimeInterval(end.timestamp, start.timestamp))
  }

  function CalculateLoad(kind: Kind, end: Reading, start: Reading): Double {
    var cpuTimeDelta := ToInt64(end.cpuTime - start.cpuTime);
    match kind
    case System => AtMostOne(cpuTimeDelta, Denominator(end, start))
    case Process =>
      var systemDelta := ToInt64(end.systemTime - start.systemTime);
      var processDelta := Add64(systemDelta, cpuTimeDelta);
      if processDelta < systemDelta then Finite(1.0) else AtMostOne(processDelta, Denominator(end, start))
  }

  ghost predicate InUnitInterval(d: Double) {
    d.Finite? && 0.0 <= d.value <= 1.0
  }

  /** The interval is the true one or, when that does not fit, off by exactly one turn of the clock. */
  lemma IntervalIsModular(end: int, start: int)
    requires IsInt64(end) && IsInt64(start)
    ensures var d := ComputeTimeInterval(end, start);
            d == if end - start >= TWO_63 then end - start - TWO_64
                 else if end - start < -TWO_63 then end - start + TWO_64
                 else end - start
  {
  }

  lemma QuotientSign(num: int, den: int)
    ensures InUnitInterval(AtMostOne(num, den)) <==>
            if num > 0 then den >= 0 else if num == 0 then true else den < 0
  {
    if den != 0 {
      var q := num as real / den as real;
      assert q * den as real == num as real;
    }
  }

  lemma AtMostOneIs(num: int, den: int)
    requires den != 0
    ensures AtMostOne(num, den).Finite? && AtMostOne(num, den).value <= 1.0
  {
  }

  /**
   The comment "cpuload is in [0, 1]" for the system sampler: true exactly when no CPU time passed, or when the
   difference of the counters overflows `int64_t` just when the product of CPU count and interval turns out negative.
   */
  lemma SystemLoadIsAFraction(end: Reading, start: Reading)
    requires end.InRange() && start.InRange() && CalculateError(end, start) == Ok
    ensures var used := end.cpuTime - start.cpuTime;
            InUnitInterval(CalculateLoad(System, end, start)) <==>
            used == 0 || (used < TWO_63 <==> Denominator(end, start) >= 0)
  {
    var used := end.cpuTime - start.cpuTime;
    WrapOnce(used);
    QuotientSign(ToInt64(used), Denominator(end, start));
  }

  /** Two CPUs and an interval of 2^62 ns: the product wraps and the load comes out negative. */
  lemma SystemLoadCanBeNegative()
    ensures var start, end := Reading(0, 0, 0, 2), Reading(0x4000_0000_0000_0000, 1, 0, 2);
            && start.InRange() && end.InRange() && CalculateError(end, start) == Ok
            && CalculateLoad(System, end, start).Finite? && CalculateLoad(System, end, start).value < 0.0
  {
    var start, end := Reading(0, 0, 0, 2), Reading(0x4000_0000_0000_0000, 1, 0, 2);
    assert ComputeTimeInterval(end.timestamp, start.timestamp) == 0x4000_0000_0000_0000;
    assert Denominator(end, start) == -TWO_63;
    assert CalculateLoad(System, end, start) == AtMostOne(1, -TWO_63);
    QuotientSign(1, -TWO_63);
  }

  /** One CPU, 2 ms, and a counter that started at the least `int64_t`: its difference wraps and the load is negative. */
  lemma OverflowingCountersGoNegative()
    ensures var start, end := Reading(0, -TWO_63, 0, 1), Reading(2_000_000, 1, 0, 1);
            && start.InRange() && end.InRange() && CalculateError(end, start) == Ok && Denominator(end, start) == 2_000_000
            && CalculateLoad(System, end, start).Finite? && CalculateLoad(System, end, start).value < 0.0
  {
    var start, end := Reading(0, -TWO_63, 0, 1), Reading(2_000_000, 1, 0, 1);
    assert ComputeTimeInterval(end.timestamp, start.timestamp) == 2_000_000 == Denominator(end, start);
    SystemLoadIsAFraction(end, start);
    WrapOnce(end.cpuTime - start.cpuTime);
    AtMostOneIs(ToInt64(end.cpuTime - start.cpuTime), Denominator(end, start));
  }

  /**
   For the process sampler the check on user time alone is not enough: system time may have gone down by more than
   user time grew. The load is a fraction exactly when no time was used in all, the sum of the two overflows (which is
   answered by 1), or the time used and the product agree in sign. An overflow of the user time's difference does no
   harm, since the sum comes back into range or is noticed.
   */
  lemma ProcessLoadIsAFraction(end: Reading, start: Reading)
    requires end.InRange() && start.InRange() && CalculateError(end, start) == Ok
    ensures var used := ToInt64(end.systemTime - start.systemTime) + (end.cpuTime - start.cpuTime);
            InUnitInterval(CalculateLoad(Process, end, start)) <==>
            used == 0 || used >= TWO_63 || (used > 0 <==> Denominator(end, start) >= 0)
  {
    var systemDelta, userTime := ToInt64(end.systemTime - start.systemTime), end.cpuTime - start.cpuTime;
    var processDelta := Add64(systemDelta, ToInt64(userTime));
    OverflowIsNoticed(systemDelta, userTime);
    QuotientSign(processDelta, Denominator(end, start));
    assert CalculateLoad(Process, end, start) ==
           if processDelta < systemDelta then Finite(1.0) else AtMostOne(processDelta, Denominator(end, start));
  }

  /** One CPU and 2 ms, in which user time grew by 50 ns and system time fell by 100. */
  lemma ProcessLoadCanBeNegative()
    ensures var start, end := Reading(0, 0, 100, 1), Reading(2_000_000, 50, 0, 1);
            && start.InRange() && end.InRange() && CalculateError(end, start) == Ok && Denominator(end, start) == 2_000_000
            && CalculateLoad(Process, end, start).Finite? && CalculateLoad(Process, end, start).value < 0.0
  {
    var start, end := Reading(0, 0, 100, 1), Reading(2_000_000, 50, 0, 1);
    assert ComputeTimeInterval(end.timestamp, start.timestamp) == 2_000_000 == Denominator(end, start);
    assert CalculateLoad(Process, end, start) == AtMostOne(-50, 2_000_000);
    QuotientSign(-50, 2_000_000);
  }

  /** Up to a whole turn of the counter, a value wraps at most once. */
  lemma WrapOnce(x: int)
    requires -TWO_63 <= x < TWO_64
    ensures ToInt64(x) == if x >= TWO_63 then x - TWO_64 else x
  {
  }

  /** Adding a growth in two wrapping steps: the sum comes out below the other addend exactly when it overflows. */
  lemma OverflowIsNoticed(a: int, b: int)
    requires IsInt64(a) && 0 <= b < TWO_64
    ensures var sum := Add64(a, ToInt64(b));
            if a + b >= TWO_63 then b > 0 && sum < a else a <= sum == a + b
  {
    WrapOnce(b);
    WrapBoth(a, b);
  }

  // ---------- What a load measures ----------

  /** CPU time used between two records. */
  function Used(kind: Kind, end: Reading, start: Reading): int {
    end.cpuTime - start.cpuTime + if kind == Process then end.systemTime - start.systemTime else 0
  }

  /**
   The share of the time all CPUs had in which they were used, but no more than 1. Where a difference or product does not
   fit `int64_t`, or there is no CPU, nothing is asked for here.
   */
  ghost predicate Measures(kind: Kind, load: Double, end: Reading, start: Reading) {
    var time, used := end.numberOfCpus * (end.timestamp - start.timestamp), Used(kind, end, start);
    && (end.numberOfCpus > 0 && IsInt64(time) && 0 <= used && IsInt64(used)
        && IsInt64(end.timestamp - start.timestamp) && IsInt64(end.cpuTime - start.cpuTime)
        && IsInt64(end.systemTime - start.systemTime) ==>
          load.Finite? && if used < time then load.value * time as real == used as real else load.value == 1.0)
  }

  lemma Quotient(num: nat, den: int)
    requires den > 0
    ensures var load := AtMostOne(num, den);
            load.Finite? && if num < den then load.value * den as real == num as real else load.value == 1.0
  {
    var q := num as real / den as real;
    assert q * den as real == num as real;
    if num < den { assert q < 1.0; } else { assert q >= 1.0; }
  }

  lemma LoadsMeasure(kind: Kind, end: Reading, start: Reading)
    requires end.InRange() && start.InRange() && CalculateError(end, start) == Ok
    ensures Measures(kind, CalculateLoad(kind, end, start), end, start)
  {
    var time, used := end.numberOfCpus * (end.timestamp - start.timestamp), Used(kind, end, start);
    IntervalIsModular(end.timestamp, start.timestamp);
    if end.numberOfCpus > 0 && IsInt64(time) && 0 <= used && IsInt64(used) && IsInt64(end.timestamp - start.timestamp)
       && IsInt64(end.cpuTime - start.cpuTime) && IsInt64(end.systemTime - start.systemTime) {
      assert Denominator(end, start) == time;
      ProductIsPositive(end.numberOfCpus, end.timestamp - start.timestamp);
      Quotient(used, time);
    }
  }

  lemma ProductIsPositive(a: int, b: int)
    requires a > 0 && b > 0
    ensures a * b > 0
  {
  }

  /** Two records give a load if at least 1 ms lies between them and the counter has not gone down. */
  predicate Usable(end: Reading, start: Reading) {
    1_000_000 <= ComputeTimeInterval(end.timestamp, start.timestamp) && start.cpuTime <= end.cpuTime
  }

  /** The four verdicts, by the interval: `IntervalIsModular` says what that is. */
  lemma ErrorsMean(end: Reading, start: Reading)
    ensures var d := ComputeTimeInterval(end.timestamp, start.timestamp);
            && (CalculateError(end, start) == Ok <==> Usable(end, start))
            && (CalculateError(end, start) == ElapsedTimeNegative <==> d < 0)
            && (CalculateError(end, start) == ElapsedTimeTooSmall <==> 0 <= d < 1_000_000)
            && (CalculateError(end, start) == NegativeInterval <==> 1_000_000 <= d && end.cpuTime < start.cpuTime)
  {
  }

  // ---------- The sampler ----------

  datatype State = State(oldest: Reading, interim: Reading, status: Status, negativeCount: nat) {
    ghost predicate Valid() {
      oldest.InRange() && interim.InRange() && negativeCount <= MAXIMUM_NEGATIVE_ELAPSED_TIME_COUNT
    }
  }

  /** State afterwards, return code, and the load if one was stored. */
  datatype Outcome = Outcome(state: State, rc: Error, load: Option<Double>)

  /** The second attempt, against the oldest record. */
  function RetryWithOldest(kind: Kind, s: State, newest: Reading): Outcome {
    match CalculateError(newest, s.oldest)
    case Ok => Outcome(s.(negativeCount := 0), NoError, Some(CalculateLoad(kind, newest, s.oldest)))
    case NegativeInterval => Outcome(s.(oldest := newest, negativeCount := 0), InternalError, None)
    case ElapsedTimeTooSmall => Outcome(s.(negativeCount := 0), Retry, None)
    case ElapsedTimeNegative =>
      if s.negativeCount == MAXIMUM_NEGATIVE_ELAPSED_TIME_COUNT
      then Outcome(s.(oldest := newest, negativeCount := 0), Retry, None)
      else Outcome(s.(negativeCount := s.negativeCount + 1), Retry, None)
  }

  function Step(kind: Kind, s: State, m: Measurement): Outcome {
    if s.status != Supported && s.status != NoHistory then Outcome(s, NotAvailable, None)
    else
      match m
      case Failed(failure) => Outcome(s.(status := StatusOf(failure)), NotAvailable, None)
      case Measured(newest) =>
        if s.status == NoHistory then
          Outcome(s.(oldest := newest, interim := newest, status := Supported), Retry, None)
        else
          match CalculateError(newest, s.interim)
          case Ok =>
            Outcome(s.(oldest := s.interim, interim := newest), NoError, Some(CalculateLoad(kind, newest, s.interim)))
          case NegativeInterval => RetryWithOldest(kind, s.(interim := newest), newest)
          case _ => RetryWithOldest(kind, s, newest)
  }

  /**
   What a caller is told: a load exactly with success, against the interim record if that is usable, else against the
   oldest; a retry on the first call; and after a failed measurement, now and ever after, that there is no answer.
   */
  ghost predicate Answers(kind: Kind, s: State, m: Measurement, s': State, rc: Error, load: Option<Double>) {
    && (rc == NoError <==> load.Some?)
    && (s.status != Supported && s.status != NoHistory ==> rc == NotAvailable && s' == s)
    && (s.status == Supported || s.status == NoHistory ==>
          match m
          case Failed(PrivilegeMissing) => rc == NotAvailable && s' == s.(status := InsufficientPrivilege)
          case Failed(NotSupported) => rc == NotAvailable && s' == s.(status := Unsupported)
          case Failed(OtherFailure) => rc == NotAvailable && s' == s.(status := CpuLoadErrorValue)
          case Measured(r) =>
            if s.status == NoHistory then rc == Retry && s' == State(r, r, Supported, s.negativeCount)
            else
              && s'.status == Supported
              && (rc == NoError <==> Usable(r, s.interim) || Usable(r, s.oldest))
              && (rc == NoError && r.InRange() && s.Valid() ==>
                    Measures(kind, load.value, r, if Usable(r, s.interim) then s.interim else s.oldest)))
  }

  lemma StepAnswers(kind: Kind, s: State, m: Measurement)
    ensures var o := Step(kind, s, m); Answers(kind, s, m, o.state, o.rc, o.load)
  {
    if m.Measured? && s.status == Supported && m.reading.InRange() && s.Valid() {
      if CalculateError(m.reading, s.interim) == Ok { LoadsMeasure(kind, m.reading, s.interim); }
      if CalculateError(m.reading, s.oldest) == Ok { LoadsMeasure(kind, m.reading, s.oldest); }
    }
  }

  class Sampler {
    const kind: Kind
    var oldest: Reading
    var interim: Reading
    var status: Status
    var negativeElapsedTimeCount: nat

    constructor (kind: Kind, zero: Reading)
      ensures this.kind == kind && Now() == State(zero, zero, NoHistory, 0)
    {
      this.kind := kind;
      oldest, interim, status, negativeElapsedTimeCount := zero, zero, NoHistory, 0;
    }

    ghost function Now(): State
      reads this
    {
      State(oldest, interim, status, negativeElapsedTimeCount)
    }

    /** omrtiGetSystemCpuLoad and omrtiGetProcessCpuLoad; `entersMonitor` and `m` are the libraries' answers. */
    method GetCpuLoad(attached: bool, hasOutput: bool, hasSysInfo: bool, entersMonitor: bool, m: Measurement)
      returns (rc: Error, cpuLoad: Option<Double>)
      modifies this
      ensures !attached ==> rc == ThreadNotAttached
      ensures attached && !hasOutput ==> rc == IllegalArgument
      ensures attached && hasOutput && !hasSysInfo ==> rc == NotAvailable
      ensures attached && hasOutput && hasSysInfo && !entersMonitor ==> rc == InternalError
      ensures !(attached && hasOutput && hasSysInfo && entersMonitor) ==> Now() == old(Now()) && cpuLoad == None
      ensures attached && hasOutput && hasSysInfo && entersMonitor ==>
                Outcome(Now(), rc, cpuLoad) == Step(kind, old(Now()), m) && Answers(kind, old(Now()), m, Now(), rc, cpuLoad)
    {
      rc, cpuLoad := NoError, None;
      StepAnswers(kind, Now(), m);
      if !attached {
        rc := ThreadNotAttached;
      } else if !hasOutput {
        rc := IllegalArgument;
      } else if !hasSysInfo {
        rc := NotAvailable;
      } else if !entersMonitor {
        rc := InternalError;
      } else if status == Supported || status == NoHistory {
        match m {
          case Failed(failure) =>
            status := StatusOf(failure);
            rc := NotAvailable;
          case Measured(newest) =>
            if status == NoHistory {
              oldest := newest;
              interim := newest;
              status := Supported;
              rc := Retry;
            } else {
              rc, cpuLoad := Compute(newest);
            }
        }
      } else {
        rc := NotAvailable;
      }
    }

    method Compute(newest: Reading) returns (rc: Error, cpuLoad: Option<Double>)
      requires status == Supported
      modifies this
      ensures Outcome(Now(), rc, cpuLoad) == Step(kind, old(Now()), Measured(newest))
    {
      rc, cpuLoad := NoError, None;
      var error := CalculateError(newest, interim);
      if error == Ok {
        cpuLoad := Some(CalculateLoad(kind, newest, interim));
        oldest := interim;
        interim := newest;
      } else {
        if error == NegativeInterval {
          interim := newest;
        }
        error := CalculateError(newest, oldest);
        if error == Ok {
          cpuLoad := Some(CalculateLoad(kind, newest, oldest));
          negativeElapsedTimeCount := 0;
        } else if error == NegativeInterval {
          oldest := newest;
          negativeElapsedTimeCount := 0;
          rc := InternalError;
        } else if error == ElapsedTimeTooSmall {
          negativeElapsedTimeCount := 0;
          rc := Retry;
        } else {
          if negativeElapsedTimeCount == MAXIMUM_NEGATIVE_ELAPSED_TIME_COUNT {
            oldest := newest;
            negativeElapsedTimeCount := 0;
          } else {
            negativeElapsedTimeCount := negativeElapsedTimeCount + 1;
          }
          rc := Retry;
        }
      }
    }
  }

  // ---------- Recovery ----------

  /** A stretch of sane samples, following `last` if there was one. */
  ghost predicate SaneAfter(last: Option<Reading>, r: Reading) {
    && r.InRange() && 0 <= r.timestamp
    && (last.Some? ==> r.timestamp - last.value.timestamp >= MINIMUM_CPU_LOAD_INTERVAL && last.value.cpuTime <= r.cpuTime)
  }

  ghost predicate Sane(last: Option<Reading>, rs: seq<Reading>)
    decreases rs
  {
    rs == [] || (SaneAfter(last, rs[0]) && Sane(Some(rs[0]), rs[1..]))
  }

  /** The results other than OMR_ERROR_NONE while `rs` is sampled from `s`. */
  ghost function Failures(kind: Kind, s: State, rs: seq<Reading>): nat
    decreases rs
  {
    if rs == [] then 0
    else
      var o := Step(kind, s, Measured(rs[0]));
      (if o.rc == NoError then 0 else 1) + Failures(kind, o.state, rs[1..])
  }

  /** A saved record that every later sane sample follows by a full interval. */
  ghost predicate Fresh(saved: Reading, last: Option<Reading>) {
    last.Some? && 0 <= saved.timestamp <= last.value.timestamp && saved.cpuTime <= last.value.cpuTime
  }

  /** How many failures may still come after the sample `last`. */
  ghost function Budget(s: State, last: Option<Reading>): int {
    var o := s.oldest.timestamp;
    if Fresh(s.interim, last) || Fresh(s.oldest, last) then 0
    else if o < 0 then
      // A clock once negative: too small at first, or so far in the past that the interval wraps for good.
      if last.None? then 5
      else if last.value.timestamp - o >= TWO_63 then 4 - s.negativeCount
      else 4
    else if last.Some? && o <= last.value.timestamp then 1
    else 5 - s.negativeCount
  }

  lemma BudgetCoversStep(kind: Kind, s: State, last: Option<Reading>, r: Reading)
    requires s.Valid() && s.status == Supported && SaneAfter(last, r)
    requires last.Some? ==> 0 <= last.value.timestamp
    ensures var o := Step(kind, s, Measured(r));
            && o.state.Valid() && o.state.status == Supported
            && (if o.rc == NoError then 0 else 1) + Budget(o.state, Some(r)) <= Budget(s, last)
  {
    IntervalIsModular(r.timestamp, s.interim.timestamp);
    IntervalIsModular(r.timestamp, s.oldest.timestamp);
  }

  lemma {:induction false} BudgetCoversRun(kind: Kind, s: State, last: Option<Reading>, rs: seq<Reading>)
    requires s.Valid() && s.status == Supported && Sane(last, rs)
    requires last.Some? ==> 0 <= last.value.timestamp
    ensures Failures(kind, s, rs) <= Budget(s, last)
    decreases rs
  {
    if rs != [] {
      BudgetCoversStep(kind, s, last, rs[0]);
      BudgetCoversRun(kind, Step(kind, s, Measured(rs[0])).state, Some(rs[0]), rs[1..]);
    }
  }

  /** Whatever stale records were saved, a run of sane samples fails at most five times. */
  lemma RecoveryIsBounded(kind: Kind, s: State, rs: seq<Reading>)
    requires s.Valid() && s.status == Supported && Sane(None, rs)
    ensures Failures(kind, s, rs) <= 5
  {
    BudgetCoversRun(kind, s, None, rs);
  }

  lemma FailsThen(kind: Kind, s: State, r: Reading, rest: seq<Reading>, error: CalcError, next: State)
    requires s.Valid() && s.status == Supported && r.InRange()
    requires IsInt64(r.timestamp - s.interim.timestamp) && r.timestamp < s.interim.timestamp
    requires IsInt64(r.timestamp - s.oldest.timestamp)
    requires var d := r.timestamp - s.oldest.timestamp;
             error == if d < 0 then ElapsedTimeNegative
                      else if d < MINIMUM_CPU_LOAD_INTERVAL then ElapsedTimeTooSmall
                      else if r.cpuTime < s.oldest.cpuTime then NegativeInterval
                      else Ok
    requires error != Ok && next == RetryWithOldest(kind, s, r).state
    ensures Failures(kind, s, [r] + rest) == 1 + Failures(kind, next, rest)
  {
    IntervalIsModular(r.timestamp, s.interim.timestamp);
    IntervalIsModular(r.timestamp, s.oldest.timestamp);
    assert ([r] + rest)[1..] == rest;
  }

  /** Five is reached: three negative intervals, one too small, one with a decreasing counter. */
  lemma FiveFailuresHappen(kind: Kind) returns (s: State, rs: seq<Reading>)
    ensures s.Valid() && s.status == Supported && Sane(None, rs)
    ensures Failures(kind, s, rs) == 5
  {
    s := State(Reading(2_999_999, 100, 0, 1), Reading(9_000_000, 0, 0, 1), Supported, 0);
    var r0, r1, r2 := Reading(0, 0, 0, 1), Reading(1_000_000, 0, 0, 1), Reading(2_000_000, 0, 0, 1);
    var r3, r4 := Reading(3_000_000, 0, 0, 1), Reading(4_000_000, 0, 0, 1);
    var s1, s2, s3 := s.(negativeCount := 1), s.(negativeCount := 2), s.(negativeCount := 3);
    IntervalsOf(s);
    FailsThen(kind, s, r4, [], NegativeInterval, s.(oldest := r4));
    FailsThen(kind, s3, r3, [r4], ElapsedTimeTooSmall, s);
    FailsThen(kind, s2, r2, [r3] + [r4], ElapsedTimeNegative, s3);
    FailsThen(kind, s1, r1, [r2] + ([r3] + [r4]), ElapsedTimeNegative, s2);
    FailsThen(kind, s, r0, [r1] + ([r2] + ([r3] + [r4])), ElapsedTimeNegative, s1);
    rs := [r0] + ([r1] + ([r2] + ([r3] + [r4])));
    assert [r4] + [] == [r4];
    SaneOfFive(r0, r1, r2, r3, r4);
  }

  lemma SaneOfFive(r0: Reading, r1: Reading, r2: Reading, r3: Reading, r4: Reading)
    requires SaneAfter(None, r0) && SaneAfter(Some(r0), r1) && SaneAfter(Some(r1), r2)
    requires SaneAfter(Some(r2), r3) && SaneAfter(Some(r3), r4)
    ensures Sane(None, [r0] + ([r1] + ([r2] + ([r3] + [r4]))))
  {
    assert [r4][1..] == [];
    SaneCons(Some(r2), r3, [r4]);
    SaneCons(Some(r1), r2, [r3] + [r4]);
    SaneCons(Some(r0), r1, [r2] + ([r3] + [r4]));
    SaneCons(None, r0, [r1] + ([r2] + ([r3] + [r4])));
  }

  lemma SaneCons(last: Option<Reading>, r: Reading, rest: seq<Reading>)
    requires SaneAfter(last, r) && Sane(Some(r), rest)
    ensures Sane(last, [r] + rest)
  {
    assert ([r] + rest)[1..] == rest;
  }

  lemma IntervalsOf(s: State)
    requires s.oldest.timestamp == 2_999_999
    ensures forall t: int {:trigger ComputeTimeInterval(t, s.oldest.timestamp)} ::
              0 <= t < 10_000_000 ==> ComputeTimeInterval(t, s.oldest.timestamp) == t - 2_999_999
  {
  }

  /** From a new sampler, only the first call of a sane run asks for a retry. */
  lemma OnlyTheFirstCallRetries(kind: Kind, s: State, rs: seq<Reading>)
    requires s.Valid() && s.status == NoHistory && Sane(None, rs) && rs != []
    ensures Step(kind, s, Measured(rs[0])).rc == Retry
    ensures Failures(kind, s, rs) == 1
  {
    BudgetCoversRun(kind, Step(kind, s, Measured(rs[0])).state, Some(rs[0]), rs[1..]);
  }

  // ---------- What the loads measure ----------

  ghost function AfterSamples(kind: Kind, s: State, rs: seq<Reading>): State
    decreases rs
  {
    if rs == [] then s else AfterSamples(kind, Step(kind, s, Measured(rs[0])).state, rs[1..])
  }

  /** The load stored is that of the interval from `start` to `end`, and measures it. */
  ghost predicate Covers(kind: Kind, load: Option<Double>, end: Reading, start: Reading) {
    load == Some(CalculateLoad(kind, end, start)) && Measures(kind, load.value, end, start)
  }

  lemma SaneStep(kind: Kind, s: State, r: Reading)
    requires s.Valid() && s.status == Supported && 0 <= s.interim.timestamp && SaneAfter(Some(s.interim), r)
    ensures Step(kind, s, Measured(r)) ==
            Outcome(s.(oldest := s.interim, interim := r), NoError, Some(CalculateLoad(kind, r, s.interim)))
    ensures Covers(kind, Step(kind, s, Measured(r)).load, r, s.interim)
  {
    IntervalIsModular(r.timestamp, s.interim.timestamp);
    LoadsMeasure(kind, r, s.interim);
  }

  /** Sane samples move a window of two over the readings: each load covers exactly the latest interval. */
  lemma {:induction false} WindowOfTwo(kind: Kind, s: State, rs: seq<Reading>)
    requires s.Valid() && s.status == Supported && 0 <= s.interim.timestamp
    requires Sane(Some(s.interim), rs) && rs != []
    ensures var window, n := [s.interim] + rs, |rs|;
            && AfterSamples(kind, s, rs) == s.(oldest := window[n - 1], interim := window[n])
            && Covers(kind, Step(kind, AfterSamples(kind, s, rs[..n - 1]), Measured(rs[n - 1])).load, window[n], window[n - 1])
    decreases rs
  {
    SaneStep(kind, s, rs[0]);
    if |rs| > 1 {
      var next := s.(oldest := s.interim, interim := rs[0]);
      WindowOfTwo(kind, next, rs[1..]);
      assert rs[..|rs| - 1][1..] == rs[1..][..|rs| - 2];
      assert ([s.interim] + rs)[1..] == rs && [rs[0]] + rs[1..] == rs;
    } else {
      assert rs[1..] == [] && rs[..0] == [];
    }
  }

  /** A call that comes too soon after the last is still answered, over the interval before it. */
  lemma EarlyCallUsesTheOldest(kind: Kind, s: State, r: Reading)
    requires s.Valid() && s.status == Supported && r.InRange()
    requires 0 <= s.oldest.timestamp && SaneAfter(Some(s.oldest), s.interim)
    requires s.interim.timestamp <= r.timestamp < s.interim.timestamp + MINIMUM_CPU_LOAD_INTERVAL
    requires s.interim.cpuTime <= r.cpuTime
    ensures Step(kind, s, Measured(r)) ==
            Outcome(s.(negativeCount := 0), NoError, Some(CalculateLoad(kind, r, s.oldest)))
    ensures Measures(kind, CalculateLoad(kind, r, s.oldest), r, s.oldest)
  {
    IntervalIsModular(r.timestamp, s.interim.timestamp);
    IntervalIsModular(r.timestamp, s.oldest.timestamp);
    LoadsMeasure(kind, r, s.oldest);
  }

  // ---------- When clock or counter go back ----------

  /** `r` lies before both saved records. */
  ghost predicate Behind(r: Reading, s: State) {
    && r.InRange() && r.timestamp < s.interim.timestamp && r.timestamp < s.oldest.timestamp
    && IsInt64(r.timestamp - s.interim.timestamp) && IsInt64(r.timestamp - s.oldest.timestamp)
  }

  lemma ClockSetBackOnce(kind: Kind, s: State, r: Reading)
    requires s.Valid() && s.status == Supported && s.negativeCount < 3 && Behind(r, s)
    ensures Step(kind, s, Measured(r)) == Outcome(s.(negativeCount := s.negativeCount + 1), Retry, None)
  {
    IntervalIsModular(r.timestamp, s.interim.timestamp);
    IntervalIsModular(r.timestamp, s.oldest.timestamp);
  }

  /** Three times a clock set back is counted and otherwise ignored. */
  lemma {:induction false} ClockSetBackIsIgnored(kind: Kind, s: State, rs: seq<Reading>)
    requires s.Valid() && s.status == Supported && s.negativeCount + |rs| <= 3
    requires forall i :: 0 <= i < |rs| ==> Behind(rs[i], s)
    ensures AfterSamples(kind, s, rs) == s.(negativeCount := s.negativeCount + |rs|) && Failures(kind, s, rs) == |rs|
    decreases rs
  {
    if rs != [] {
      ClockSetBackOnce(kind, s, rs[0]);
      assert forall i :: 0 <= i < |rs[1..]| ==> rs[1..][i] == rs[i + 1];
      ClockSetBackIsIgnored(kind, s.(negativeCount := s.negativeCount + 1), rs[1..]);
    }
  }

  /** The fourth time it is believed: the sample becomes the oldest record, and the count starts again. */
  lemma ClockSetBackIsBelieved(kind: Kind, s: State, r: Reading)
    requires s.Valid() && s.status == Supported && s.negativeCount == 3 && Behind(r, s)
    ensures Step(kind, s, Measured(r)) == Outcome(s.(oldest := r, negativeCount := 0), Retry, None)
  {
    IntervalIsModular(r.timestamp, s.interim.timestamp);
    IntervalIsModular(r.timestamp, s.oldest.timestamp);
  }

  /** A counter below both records costs one call, after which both are new. */
  lemma CounterSetBack(kind: Kind, s: State, r: Reading)
    requires s.Valid() && s.status == Supported && r.InRange() && 0 <= s.oldest.timestamp <= s.interim.timestamp
    requires r.timestamp - s.interim.timestamp >= 1_000_000
    requires r.cpuTime < s.interim.cpuTime
    ensures Step(kind, s, Measured(r)).rc == if r.cpuTime < s.oldest.cpuTime then InternalError else NoError
    ensures Step(kind, s, Measured(r)).state ==
            s.(oldest := if r.cpuTime < s.oldest.cpuTime then r else s.oldest, interim := r, negativeCount := 0)
  {
    IntervalIsModular(r.timestamp, s.interim.timestamp);
    IntervalIsModular(r.timestamp, s.oldest.timestamp);
  }

  /** A call too soon after both records asks for another, and changes no record. */
  lemma TooSoonAfterBoth(kind: Kind, s: State, r: Reading)
    requires s.Valid() && s.status == Supported && r.InRange()
    requires 0 <= r.timestamp - s.interim.timestamp < 1_000_000 && 0 <= r.timestamp - s.oldest.timestamp < 1_000_000
    ensures Step(kind, s, Measured(r)) == Outcome(s.(negativeCount := 0), Retry, None)
  {
    IntervalIsModular(r.timestamp, s.interim.timestamp);
    IntervalIsModular(r.timestamp, s.oldest.timestamp);
  }

  // ---------- Every run ----------

  ghost function Run(kind: Kind, s: State, ms: seq<Measurement>): State
    decreases ms
  {
    if ms == [] then s else Run(kind, Step(kind, s, ms[0]).state, ms[1..])
  }

  predicate Broken(status: Status) {
    status != Supported && status != NoHistory
  }

  /** Whatever the clocks do, the counter stays within its bound; one failed measurement ends the answers for good. */
  lemma {:induction false} EveryRunStaysValid(kind: Kind, s: State, ms: seq<Measurement>)
    requires s.Valid() && forall i :: 0 <= i < |ms| && ms[i].Measured? ==> ms[i].reading.InRange()
    ensures Run(kind, s, ms).Valid()
    ensures Broken(Run(kind, s, ms).status) <==> Broken(s.status) || exists i :: 0 <= i < |ms| && ms[i].Failed?
    ensures Broken(s.status) ==> Run(kind, s, ms) == s
    decreases ms
  {
    if ms != [] {
      var next := Step(kind, s, ms[0]).state;
      assert next.Valid();
      EveryRunStaysValid(kind, next, ms[1..]);
      if exists i :: 0 <= i < |ms| && ms[i].Failed? {
        var i :| 0 <= i < |ms| && ms[i].Failed?;
        assert i > 0 ==> ms[1..][i - 1].Failed?;
      }
    }
  }
}
