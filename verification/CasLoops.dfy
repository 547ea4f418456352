/**
 The compare-and-swap loops of include_core/AtomicSupport.hpp as an interleaved step system: any number of
 threads on one cell, each load, compare-and-swap and return a step of its own.
 */
module CasLoops {

  // ---------- Words ----------

  function Pow2(n: nat): (p: nat)
    ensures p > 0
  {
    if n == 0 then 1 else 2 * Pow2(n - 1)
  }

  function BitAnd(a: nat, b: nat): nat {
    if a == 0 || b == 0 then 0 else 2 * BitAnd(a / 2, b / 2) + (if a % 2 == 1 && b % 2 == 1 then 1 else 0)
  }

  function BitOr(a: nat, b: nat): nat
    decreases a + b
  {
    if a == 0 && b == 0 then 0 else 2 * BitOr(a / 2, b / 2) + (if a % 2 == 1 || b % 2 == 1 then 1 else 0)
  }

  lemma {:induction false} BitOpsStayInWord(a: nat, b: nat, bits: nat)
    requires a < Pow2(bits) && b < Pow2(bits)
    ensures BitAnd(a, b) < Pow2(bits) && BitOr(a, b) < Pow2(bits)
  {
    if bits > 0 { BitOpsStayInWord(a / 2, b / 2, bits - 1); }
  }

  /** Bit `k` of `x`. */
  predicate Bit(x: nat, k: nat) {
    if k == 0 then x % 2 == 1 else Bit(x / 2, k - 1)
  }

  lemma {:induction false} BitsOfAndOr(a: nat, b: nat, k: nat)
    ensures Bit(BitAnd(a, b), k) <==> Bit(a, k) && Bit(b, k)
    ensures Bit(BitOr(a, b), k) <==> Bit(a, k) || Bit(b, k)
    decreases k
  {
    if k > 0 {
      BitsOfAndOr(a / 2, b / 2, k - 1);
      if a == 0 || b == 0 { ZeroHasNoBits(k); }
      if a == 0 && b == 0 { ZeroHasNoBits(k - 1); }
    }
  }

  lemma {:induction false} ZeroHasNoBits(k: nat)
    ensures !Bit(0, k)
  {
    if k > 0 { ZeroHasNoBits(k - 1); }
  }

  /** The two word sizes there are. */
  lemma WordSizes()
    ensures Pow2(32) == 0x1_0000_0000 && Pow2(64) == 0x1_0000_0000_0000_0000
  {
    assert Pow2(2) == 4;
    Pow2Splits(2, 2);
    Pow2Splits(4, 4);
    Pow2Splits(8, 8);
    Pow2Splits(16, 16);
    Pow2Splits(32, 32);
  }

  lemma {:induction false} Pow2Splits(a: nat, b: nat)
    ensures Pow2(a + b) == Pow2(a) * Pow2(b)
  {
    if a > 0 { Pow2Splits(a - 1, b); }
  }

  // ---------- Operations ----------

  /**
   The read-modify-write loops, a bare lockCompareExchange with or without pre-read, and getU64 where it is one.
   */
  datatype Op =
    | Add(addend: nat)
    | Subtract(value: nat)
    | And(mask: nat)
    | Or(mask: nat)
    | Set(value: nat)
    | CompareExchange(oldValue: nat, newValue: nat, readBeforeCAS: bool)
    | GetTorn
  {
    predicate IsLoop() {
      !CompareExchange? && !GetTorn?
    }

    predicate InWord(m: nat) {
      match this
      case Add(n) => n < m
      case Subtract(n) => n < m
      case And(n) => n < m
      case Or(n) => n < m
      case Set(n) => n < m
      case CompareExchange(o, n, _) => o < m && n < m
      case GetTorn => true
    }

    /** The value a loop tries to store over `seen`. */
    function NewValue(seen: nat, m: nat): nat
      requires IsLoop() && m > 0
    {
      match this
      case Add(n) => (seen + n) % m
      case Subtract(n) => (seen - n) % m
      case And(n) => BitAnd(seen, n)
      case Or(n) => BitOr(seen, n)
      case Set(n) => n
    }

    /** What a loop returns once it has stored: the adds and subtracts the new value, the others the old. */
    function Returns(seen: nat, m: nat): nat
      requires IsLoop() && m > 0
    {
      if Add? || Subtract? then NewValue(seen, m) else seen
    }

    /** The operation executed atomically: the cell afterwards. */
    function AtomicCell(cell: nat, m: nat): nat
      requires m > 0
    {
      match this
      case CompareExchange(o, n, _) => if cell == o then n else cell
      case GetTorn => cell
      case _ => NewValue(cell, m)
    }

    /** The operation executed atomically: the value it returns. */
    function AtomicReturn(cell: nat, m: nat): nat
      requires m > 0
    {
      match this
      case CompareExchange(_, _, _) => cell
      case GetTorn => cell
      case _ => Returns(cell, m)
    }
  }

  // ---------- The step system ----------

  /** Where a thread is; `since` is the length of the log when the operation was invoked. */
  datatype Thread =
    | Idle
    | ToLoad(op: Op, since: nat)
    | ToLoadRest(op: Op, since: nat, half: nat, lowFirst: bool)
    | ToCas(op: Op, since: nat, seen: nat)
    | Done(op: Op, since: nat, at: nat, result: nat)

  /** An operation taking effect. */
  datatype Entry = Entry(thread: nat, op: Op, result: nat)

  /** A completed call: it took effect as log entry `at`, after invocation and before return. */
  datatype Call = Call(thread: nat, op: Op, result: nat, invokedAt: nat, at: nat, returnedAt: nat)

  /** `halves`: the cell is a 64-bit word on a 32-bit build, where a load takes two, in either order, and no pre-read is made. */
  datatype State = State(
    halves: bool, cell: nat, threads: seq<Thread>,
    log: seq<Entry>, calls: seq<Call>, successes: nat, failures: nat, steps: nat)

  datatype Step = Invoke(t: nat, op: Op) | Advance(t: nat, lowFirst: bool)

  predicate Enabled(s: State, step: Step, m: nat) {
    && step.t < |s.threads|
    && match step
       case Invoke(t, op) => s.threads[t].Idle? && op.InWord(m) && (op.GetTorn? ==> s.halves)
       case Advance(t, _) => !s.threads[t].Idle?
  }

  function Move(s: State, t: nat, next: Thread): State
    requires t < |s.threads|
  {
    s.(threads := s.threads[t := next], steps := s.steps + 1)
  }

  /** The operation of thread `t` takes effect on the spot and leaves `cell` behind. */
  function Effect(s: State, t: nat, op: Op, since: nat, cell: nat, result: nat): State
    requires t < |s.threads|
  {
    Move(s, t, Done(op, since, |s.log|, result)).(cell := cell, log := s.log + [Entry(t, op, result)])
  }

  /** After the load or pre-read of a whole word. */
  function Loaded(s: State, t: nat, op: Op, since: nat): State
    requires t < |s.threads|
  {
    match op
    case CompareExchange(o, n, readBeforeCAS) =>
      if readBeforeCAS && !s.halves && s.cell != o then Effect(s, t, op, since, s.cell, s.cell)
      else Move(s, t, ToCas(op, since, o))
    case _ => Move(s, t, ToCas(op, since, s.cell))
  }

  function HalfSize(bits: nat): (h: nat)
    ensures h > 0
  {
    Pow2(bits / 2)
  }

  /** The half of a word that is loaded first. */
  function FirstHalf(cell: nat, lowFirst: bool, h: nat): nat
    requires h > 0
  {
    if lowFirst then cell % h else cell / h
  }

  /** The word made of a half loaded earlier and the other one loaded now. */
  function Joined(cell: nat, half: nat, lowFirst: bool, h: nat): nat
    requires h > 0
  {
    if lowFirst then cell / h * h + half else half * h + cell % h
  }

  /** The compare-and-swap instruction and what the caller does with its answer. */
  function Cas(s: State, t: nat, op: Op, since: nat, seen: nat, bits: nat): State
    requires t < |s.threads|
  {
    var m := Pow2(bits);
    var desired := match op case CompareExchange(_, n, _) => n case GetTorn => seen case _ => op.NewValue(seen, m);
    if s.cell == seen then
      var result := if op.IsLoop() then op.Returns(seen, m) else s.cell;
      Effect(s, t, op, since, desired, result).(successes := s.successes + 1)
    else if op.IsLoop() then
      Move(s, t, ToLoad(op, since)).(failures := s.failures + 1)
    else
      Effect(s, t, op, since, s.cell, s.cell)
  }

  function Do(s: State, step: Step, bits: nat): State
    requires Enabled(s, step, Pow2(bits))
  {
    var t, h := step.t, HalfSize(bits);
    match step
    case Invoke(_, op) => Move(s, t, ToLoad(op, |s.log|))
    case Advance(_, lowFirst) =>
      match s.threads[t]
      case Idle => s
      case ToLoad(op, since) =>
        if s.halves && !op.CompareExchange?
        then Move(s, t, ToLoadRest(op, since, FirstHalf(s.cell, lowFirst, h), lowFirst))
        else Loaded(s, t, op, since)
      case ToLoadRest(op, since, half, first) => Move(s, t, ToCas(op, since, Joined(s.cell, half, first, h)))
      case ToCas(op, since, seen) => Cas(s, t, op, since, seen, bits)
      case Done(op, since, at, result) =>
        Move(s, t, Idle).(calls := s.calls + [Call(t, op, result, since, at, |s.log|)])
  }

  function Start(halves: bool, cell: nat, n: nat): State {
    State(halves, cell, seq(n, _ => Idle), [], [], 0, 0, 0)
  }

  ghost predicate IsRun(s: State, steps: seq<Step>, bits: nat)
    decreases steps
  {
    steps == [] || (Enabled(s, steps[0], Pow2(bits)) && IsRun(Do(s, steps[0], bits), steps[1..], bits))
  }

  ghost function After(s: State, steps: seq<Step>, bits: nat): State
    requires IsRun(s, steps, bits)
    decreases steps
  {
    if steps == [] then s else After(Do(s, steps[0], bits), steps[1..], bits)
  }

  // ---------- Linearization ----------

  /** The cell after the first `n` log entries have been executed atomically, one after another. */
  ghost function Replay(init: nat, log: seq<Entry>, n: nat, m: nat): nat
    requires n <= |log| && m > 0
  {
    if n == 0 then init else log[n - 1].op.AtomicCell(Replay(init, log, n - 1, m), m)
  }

  ghost predicate Linearized(init: nat, s: State, m: nat)
    requires m > 0
  {
    s.cell == Replay(init, s.log, |s.log|, m) && ResultsMatch(init, s.log, m)
  }

  lemma {:induction false} ReplayOfPrefix(init: nat, log: seq<Entry>, more: Entry, n: nat, m: nat)
    requires n <= |log| && m > 0
    ensures Replay(init, log + [more], n, m) == Replay(init, log, n, m)
  {
    if n > 0 { ReplayOfPrefix(init, log, more, n - 1, m); }
  }

  ghost predicate ResultsMatch(init: nat, log: seq<Entry>, m: nat)
    requires m > 0
  {
    forall i :: 0 <= i < |log| ==> ResultMatches(init, log, i, m)
  }

  ghost predicate ResultMatches(init: nat, log: seq<Entry>, i: nat, m: nat)
    requires m > 0 && i < |log|
  {
    log[i].result == log[i].op.AtomicReturn(Replay(init, log, i, m), m)
  }

  lemma LogGrows(init: nat, log: seq<Entry>, more: Entry, m: nat)
    requires m > 0 && ResultsMatch(init, log, m)
    requires more.result == more.op.AtomicReturn(Replay(init, log, |log|, m), m)
    ensures ResultsMatch(init, log + [more], m)
    ensures Replay(init, log + [more], |log| + 1, m) == more.op.AtomicCell(Replay(init, log, |log|, m), m)
  {
    forall i | 0 <= i < |log| + 1 ensures ResultMatches(init, log + [more], i, m) {
      ReplayOfPrefix(init, log, more, i, m);
      if i < |log| { assert ResultMatches(init, log, i, m); }
    }
    ReplayOfPrefix(init, log, more, |log|, m);
  }

  lemma EffectLinearizes(init: nat, s: State, t: nat, op: Op, since: nat, m: nat)
    requires t < |s.threads| && m > 0 && Linearized(init, s, m)
    ensures Linearized(init, Effect(s, t, op, since, op.AtomicCell(s.cell, m), op.AtomicReturn(s.cell, m)), m)
  {
    LogGrows(init, s.log, Entry(t, op, op.AtomicReturn(s.cell, m)), m);
  }

  /** A thread about to compare-and-swap a loop holds what it loaded, a bare one what it was told to expect. */
  ghost predicate Consistent(th: Thread) {
    && (th.ToCas? && th.op.CompareExchange? ==> th.seen == th.op.oldValue)
    && (th.ToLoadRest? ==> !th.op.CompareExchange?)
  }

  ghost predicate AllConsistent(s: State) {
    forall t :: 0 <= t < |s.threads| ==> Consistent(s.threads[t])
  }

  lemma CasLinearizes(init: nat, s: State, t: nat, op: Op, since: nat, seen: nat, bits: nat)
    requires t < |s.threads| && Linearized(init, s, Pow2(bits))
    requires op.CompareExchange? ==> seen == op.oldValue
    ensures Linearized(init, Cas(s, t, op, since, seen, bits), Pow2(bits))
  {
    EffectLinearizes(init, s, t, op, since, Pow2(bits));
  }

  lemma LoadLinearizes(init: nat, s: State, t: nat, op: Op, since: nat, m: nat)
    requires t < |s.threads| && m > 0 && Linearized(init, s, m)
    ensures Linearized(init, Loaded(s, t, op, since), m)
  {
    EffectLinearizes(init, s, t, op, since, m);
  }

  /** Every step is an atomic operation or leaves cell and log alone. */
  lemma StepLinearizes(init: nat, s: State, step: Step, bits: nat)
    requires Enabled(s, step, Pow2(bits)) && AllConsistent(s) && Linearized(init, s, Pow2(bits))
    ensures Linearized(init, Do(s, step, bits), Pow2(bits))
  {
    var th := s.threads[step.t];
    assert Consistent(th);
    if step.Advance? {
      match th
      case ToLoad(op, since) => LoadLinearizes(init, s, step.t, op, since, Pow2(bits));
      case ToCas(op, since, seen) => CasLinearizes(init, s, step.t, op, since, seen, bits);
      case _ =>
    }
  }

  lemma StepKeepsConsistent(s: State, step: Step, bits: nat)
    requires Enabled(s, step, Pow2(bits)) && AllConsistent(s)
    ensures AllConsistent(Do(s, step, bits))
  {
    assert Consistent(s.threads[step.t]);
  }

  // ---------- Each call is one log entry, inside its own interval ----------

  ghost predicate CallRecorded(s: State, c: Call) {
    c.invokedAt <= c.at < c.returnedAt <= |s.log| && s.log[c.at] == Entry(c.thread, c.op, c.result)
  }

  ghost predicate ThreadRecorded(s: State, t: nat)
    requires t < |s.threads|
  {
    var th := s.threads[t];
    && (!th.Idle? ==> th.since <= |s.log|)
    && (th.Done? ==> th.since <= th.at < |s.log| && s.log[th.at] == Entry(t, th.op, th.result))
  }

  /** Calls of one thread follow one another, and the one it is in follows them all. */
  ghost predicate Ordered(s: State) {
    && (forall i, j :: 0 <= i < j < |s.calls| && s.calls[i].thread == s.calls[j].thread ==>
          s.calls[i].returnedAt <= s.calls[j].invokedAt)
    && (forall i, t :: 0 <= i < |s.calls| && 0 <= t < |s.threads| && s.calls[i].thread == t && !s.threads[t].Idle? ==>
          s.calls[i].returnedAt <= s.threads[t].since)
  }

  ghost predicate Recorded(s: State) {
    && (forall i :: 0 <= i < |s.calls| ==> CallRecorded(s, s.calls[i]))
    && (forall t :: 0 <= t < |s.threads| ==> ThreadRecorded(s, t))
    && Ordered(s)
  }

  lemma StepRecords(s: State, step: Step, bits: nat)
    requires Enabled(s, step, Pow2(bits)) && Recorded(s)
    ensures Recorded(Do(s, step, bits))
  {
    var s' := Do(s, step, bits);
    assert ThreadRecorded(s, step.t);
    assert s.log <= s'.log && s.calls <= s'.calls;
    forall i | 0 <= i < |s'.calls| ensures CallRecorded(s', s'.calls[i]) {
      if i < |s.calls| { assert CallRecorded(s, s.calls[i]); }
    }
    forall t | 0 <= t < |s'.threads| ensures ThreadRecorded(s', t) {
      if t != step.t { assert ThreadRecorded(s, t); }
    }
    StepOrders(s, s', step.t);
  }

  /** What a step of thread `t` may do to threads and calls. */
  lemma StepOrders(s: State, s': State, t: nat)
    requires Recorded(s) && t < |s.threads| == |s'.threads|
    requires forall u :: 0 <= u < |s.threads| && u != t ==> s'.threads[u] == s.threads[u]
    requires s.threads[t].Idle? ==> s'.calls == s.calls && (s'.threads[t].Idle? || s'.threads[t].since == |s.log|)
    requires !s.threads[t].Idle? && !s'.threads[t].Idle? ==> s'.calls == s.calls && s'.threads[t].since == s.threads[t].since
    requires !s.threads[t].Idle? && s'.threads[t].Idle? ==>
               |s'.calls| == |s.calls| + 1 && s'.calls[..|s.calls|] == s.calls
               && s'.calls[|s.calls|].thread == t && s'.calls[|s.calls|].invokedAt == s.threads[t].since
    ensures Ordered(s')
  {
    forall i | 0 <= i < |s.calls| ensures s'.calls[i] == s.calls[i] && s.calls[i].returnedAt <= |s.log| {
      assert CallRecorded(s, s.calls[i]);
      assert s'.calls[..|s.calls|][i] == s'.calls[i];
    }
  }

  // ---------- Words stay words ----------

  ghost predicate InWords(s: State, bits: nat) {
    && s.cell < Pow2(bits)
    && forall t :: 0 <= t < |s.threads| ==> ThreadInWord(s.threads[t], bits)
  }

  /** A half loaded is small enough for its place, and what a loop will compare with fits the word. */
  ghost predicate ThreadInWord(th: Thread, bits: nat) {
    && (!th.Idle? ==> th.op.InWord(Pow2(bits)))
    && (th.ToLoadRest? ==> th.half < if th.lowFirst then Pow2(bits / 2) else Pow2(bits - bits / 2))
    && (th.ToCas? && th.op.IsLoop() ==> th.seen < Pow2(bits))
  }

  /** High and low halves, of whatever words, make a word. */
  lemma HalvesMakeAWord(high: nat, low: nat, h: nat, k: nat)
    requires high < k && low < h
    ensures high * h + low < k * h
  {
    assert (high + 1) * h <= k * h;
  }

  lemma HalfFits(cell: nat, h: nat, k: nat)
    requires h > 0 && cell < k * h
    ensures cell / h < k && cell % h < h && cell == cell / h * h + cell % h
  {
    var q := cell / h;
    if q >= k {
      MultiplyBoth(h, k, q);
      assert false;
    }
  }

  lemma JoinedFits(cell: nat, half: nat, lowFirst: bool, h: nat, k: nat)
    requires h > 0 && cell < k * h && half < if lowFirst then h else k
    ensures FirstHalf(cell, true, h) < h && FirstHalf(cell, false, h) < k
    ensures Joined(cell, half, lowFirst, h) < k * h
  {
    HalfFits(cell, h, k);
    if lowFirst { HalvesMakeAWord(cell / h, half, h, k); } else { HalvesMakeAWord(half, cell % h, h, k); }
  }

  lemma LoadsFit(s: State, half: nat, lowFirst: bool, bits: nat)
    requires s.cell < Pow2(bits) && half < if lowFirst then Pow2(bits / 2) else Pow2(bits - bits / 2)
    ensures FirstHalf(s.cell, true, HalfSize(bits)) < Pow2(bits / 2)
    ensures FirstHalf(s.cell, false, HalfSize(bits)) < Pow2(bits - bits / 2)
    ensures Joined(s.cell, half, lowFirst, HalfSize(bits)) < Pow2(bits)
  {
    var h, k := HalfSize(bits), Pow2(bits - bits / 2);
    Pow2Splits(bits / 2, bits - bits / 2);
    assert Pow2(bits) == k * h;
    JoinedFits(s.cell, half, lowFirst, h, k);
  }

  /** No step leaves the cell's word size. */
  lemma StepStaysInWords(s: State, step: Step, bits: nat)
    requires Enabled(s, step, Pow2(bits)) && AllConsistent(s) && InWords(s, bits)
    ensures InWords(Do(s, step, bits), bits)
  {
    var th := s.threads[step.t];
    assert Consistent(th) && ThreadInWord(th, bits);
    if th.ToLoadRest? {
      LoadsFit(s, th.half, th.lowFirst, bits);
    } else {
      LoadsFit(s, 0, true, bits);
    }
    if th.ToCas? && th.op.And? { BitOpsStayInWord(th.seen, th.op.mask, bits); }
    if th.ToCas? && th.op.Or? { BitOpsStayInWord(th.seen, th.op.mask, bits); }
    OthersStayInWords(s, Do(s, step, bits), step.t, bits);
  }

  lemma OthersStayInWords(s: State, s': State, t: nat, bits: nat)
    requires InWords(s, bits) && t < |s.threads| == |s'.threads| && s'.cell < Pow2(bits)
    requires s'.threads == s.threads[t := s'.threads[t]] && ThreadInWord(s'.threads[t], bits)
    ensures InWords(s', bits)
  {
    forall u | 0 <= u < |s'.threads| ensures ThreadInWord(s'.threads[u], bits) {
      assert ThreadInWord(s.threads[u], bits);
    }
  }

  // ---------- Each log entry is one call ----------

  /** Entry `e` is that of a completed call, or of one about to return. */
  ghost predicate Claimed(s: State, e: nat) {
    || (exists i :: 0 <= i < |s.calls| && s.calls[i].at == e)
    || (exists t :: 0 <= t < |s.threads| && s.threads[t].Done? && s.threads[t].at == e)
  }

  ghost predicate AllClaimed(s: State) {
    forall e :: 0 <= e < |s.log| ==> Claimed(s, e)
  }

  lemma StepClaims(s: State, step: Step, bits: nat)
    requires Enabled(s, step, Pow2(bits)) && AllClaimed(s)
    ensures AllClaimed(Do(s, step, bits))
  {
    var s', t := Do(s, step, bits), step.t;
    assert s'.threads == s.threads[t := s'.threads[t]];
    forall e | 0 <= e < |s'.log| ensures Claimed(s', e) {
      if e < |s.log| {
        ClaimStays(s, step, bits, e);
      } else {
        assert s'.threads[t].Done? && s'.threads[t].at == e;
      }
    }
  }

  lemma ClaimStays(s: State, step: Step, bits: nat, e: nat)
    requires Enabled(s, step, Pow2(bits)) && Claimed(s, e)
    ensures Claimed(Do(s, step, bits), e)
  {
    var s', t := Do(s, step, bits), step.t;
    if exists i :: 0 <= i < |s.calls| && s.calls[i].at == e {
      var i :| 0 <= i < |s.calls| && s.calls[i].at == e;
      assert s'.calls[i] == s.calls[i];
    } else {
      var u :| 0 <= u < |s.threads| && s.threads[u].Done? && s.threads[u].at == e;
      if u == t {
        assert s'.calls[|s.calls|].at == e;
      } else {
        assert s'.threads[u] == s.threads[u];
      }
    }
  }

  /** No entry belongs to two: neither to a call and one about to return, nor to two about to return. */
  lemma ClaimsAreSingle(s: State, i: nat, t: nat, u: nat)
    requires Recorded(s) && t < |s.threads| && s.threads[t].Done?
    ensures i < |s.calls| ==> s.calls[i].at != s.threads[t].at
    ensures u < |s.threads| && u != t && s.threads[u].Done? ==> s.threads[u].at != s.threads[t].at
  {
    assert ThreadRecorded(s, t);
    if i < |s.calls| { assert CallRecorded(s, s.calls[i]); }
    if u < |s.threads| { assert ThreadRecorded(s, u); }
  }

  // ---------- Every run ----------

  /** What a run keeps: an atomic execution of the log, calls and log entries matched one to one, words. */
  ghost predicate Explained(init: nat, s: State, bits: nat) {
    Linearized(init, s, Pow2(bits)) && Recorded(s) && AllClaimed(s) && InWords(s, bits)
  }

  /**
   Linearizability: whatever the interleaving, the cell and every result are those of executing the log entry by
   entry; every completed call took effect, as one entry of its own, between its invocation and its return; and every
   entry is that of a completed call or of one about to return.
   */
  lemma {:induction false} EveryRunLinearizes(init: nat, s: State, steps: seq<Step>, bits: nat)
    requires IsRun(s, steps, bits) && AllConsistent(s) && Explained(init, s, bits)
    ensures Explained(init, After(s, steps, bits), bits)
    decreases steps
  {
    if steps != [] {
      StepKeepsConsistent(s, steps[0], bits);
      StepLinearizes(init, s, steps[0], bits);
      StepRecords(s, steps[0], bits);
      StepClaims(s, steps[0], bits);
      StepStaysInWords(s, steps[0], bits);
      EveryRunLinearizes(init, Do(s, steps[0], bits), steps[1..], bits);
    }
  }

  lemma RunsFromStartLinearize(halves: bool, init: nat, n: nat, steps: seq<Step>, bits: nat)
    requires IsRun(Start(halves, init, n), steps, bits) && init < Pow2(bits)
    ensures Explained(init, After(Start(halves, init, n), steps, bits), bits)
  {
    EveryRunLinearizes(init, Start(halves, init, n), steps, bits);
  }

  /**
   What each operation is to do to a word of `bits` bits that holds `before`, and what to answer. The sums are those of
   modular arithmetic, the bits those of each position.
   */
  ghost predicate Performs(op: Op, result: nat, before: nat, after: nat, bits: nat) {
    match op
    case Add(n) => result == after == (before + n) % Pow2(bits)
    case Subtract(n) => result == after == (before - n) % Pow2(bits)
    case And(n) => result == before && forall k: nat :: Bit(after, k) <==> Bit(before, k) && Bit(n, k)
    case Or(n) => result == before && forall k: nat :: Bit(after, k) <==> Bit(before, k) || Bit(n, k)
    case Set(n) => result == before && after == n
    case CompareExchange(o, n, _) => result == before && after == if before == o then n else before
    case GetTorn => result == before == after
  }

  lemma AtomicMeans(op: Op, cell: nat, bits: nat)
    ensures Performs(op, op.AtomicReturn(cell, Pow2(bits)), cell, op.AtomicCell(cell, Pow2(bits)), bits)
  {
    match op
    case And(n) =>
      forall k: nat ensures Bit(BitAnd(cell, n), k) <==> Bit(cell, k) && Bit(n, k) { BitsOfAndOr(cell, n, k); }
    case Or(n) =>
      forall k: nat ensures Bit(BitOr(cell, n), k) <==> Bit(cell, k) || Bit(n, k) { BitsOfAndOr(cell, n, k); }
    case _ =>
  }

  /** In every run each entry does and answers what its operation is to, on the cell the entries before it left. */
  lemma EntriesPerform(halves: bool, init: nat, n: nat, steps: seq<Step>, bits: nat, i: nat)
    requires IsRun(Start(halves, init, n), steps, bits) && init < Pow2(bits)
    requires i < |After(Start(halves, init, n), steps, bits).log|
    ensures var log := After(Start(halves, init, n), steps, bits).log;
            Performs(log[i].op, log[i].result, Replay(init, log, i, Pow2(bits)), Replay(init, log, i + 1, Pow2(bits)), bits)
  {
    RunsFromStartLinearize(halves, init, n, steps, bits);
    var log := After(Start(halves, init, n), steps, bits).log;
    assert ResultMatches(init, log, i, Pow2(bits));
    AtomicMeans(log[i].op, Replay(init, log, i, Pow2(bits)), bits);
  }

  /** And so does each call, at the point inside its interval where it took effect. */
  lemma CallsPerform(halves: bool, init: nat, n: nat, steps: seq<Step>, bits: nat, j: nat)
    requires IsRun(Start(halves, init, n), steps, bits) && init < Pow2(bits)
    requires j < |After(Start(halves, init, n), steps, bits).calls|
    ensures var s := After(Start(halves, init, n), steps, bits);
            var c := s.calls[j];
            && c.invokedAt <= c.at < c.returnedAt <= |s.log|
            && Performs(c.op, c.result, Replay(init, s.log, c.at, Pow2(bits)), Replay(init, s.log, c.at + 1, Pow2(bits)), bits)
            && s.cell == Replay(init, s.log, |s.log|, Pow2(bits)) && Replay(init, s.log, 0, Pow2(bits)) == init
  {
    RunsFromStartLinearize(halves, init, n, steps, bits);
    var s := After(Start(halves, init, n), steps, bits);
    assert CallRecorded(s, s.calls[j]);
    EntriesPerform(halves, init, n, steps, bits, s.calls[j].at);
  }

  /** A call that returned before another was invoked took effect before it; no two calls share an entry. */
  lemma RealTimeOrderIsKept(s: State, i: nat, j: nat)
    requires Recorded(s) && i < |s.calls| && j < |s.calls| && i != j
    ensures s.calls[i].at != s.calls[j].at
    ensures s.calls[i].returnedAt <= s.calls[j].invokedAt ==> s.calls[i].at < s.calls[j].at
  {
    assert CallRecorded(s, s.calls[i]) && CallRecorded(s, s.calls[j]);
  }

  // ---------- Adds and subtracts ----------

  predicate Counts(op: Op) {
    op.Add? || op.Subtract? || op.GetTorn?
  }

  ghost predicate CountsOnly(log: seq<Entry>) {
    forall i :: 0 <= i < |log| ==> Counts(log[i].op)
  }

  /** The signed sum of what the first `n` entries add and subtract. */
  ghost function SignedTotal(log: seq<Entry>, n: nat): int
    requires n <= |log|
  {
    if n == 0 then 0
    else SignedTotal(log, n - 1) + Change(log[n - 1].op)
  }

  ghost function Change(op: Op): int {
    match op
    case Add(x) => x
    case Subtract(x) => 0 - x as int
    case _ => 0
  }

  lemma ModAbsorbs(a: int, b: int, m: nat)
    requires m > 0
    ensures (a % m + b) % m == (a + b) % m
  {
    var q, q' := a / m, (a + b) / m;
    assert a % m + b == (q' - q) * m + (a + b) % m;
    ModUnique(a % m + b, q' - q, (a + b) % m, m);
  }

  lemma ModUnique(x: int, q: int, r: nat, m: nat)
    requires m > 0 && x == q * m + r && r < m
    ensures x % m == r
  {
    var q', r' := x / m, x % m;
    assert (q - q') * m == r' - r;
    MultipleIsFar(q - q', m);
  }

  lemma MultipleIsFar(k: int, m: nat)
    ensures k >= 1 ==> k * m >= m
    ensures k <= -1 ==> k * m <= 0 - m
  {
  }

  ghost predicate Residue(x: nat, total: int, m: nat)
    requires m > 0
  {
    x == total % m
  }

  lemma AtomicCounter(op: Op, cell: nat, total: int, m: nat)
    requires m > 0 && Residue(cell, total, m)
    requires Counts(op)
    ensures Residue(op.AtomicCell(cell, m), total + Change(op), m)
  {
    ModAbsorbs(total, Change(op), m);
  }

  /** Counters add up modulo the word size. */
  lemma {:induction false} TotalsAddUp(init: nat, log: seq<Entry>, n: nat, m: nat)
    requires n <= |log| && init < m && CountsOnly(log)
    ensures Residue(Replay(init, log, n, m), init + SignedTotal(log, n), m)
  {
    if n == 0 {
      ModUnique(init, 0, init, m);
    } else {
      TotalsAddUp(init, log, n - 1, m);
      AtomicCounter(log[n - 1].op, Replay(init, log, n - 1, m), init + SignedTotal(log, n - 1), m);
    }
  }

  /** A torn read, however the halves were mixed, returns a value the cell held and leaves it alone. */
  lemma TornReadIsHarmless(init: nat, n: nat, steps: seq<Step>, bits: nat, i: nat)
    requires IsRun(Start(true, init, n), steps, bits) && init < Pow2(bits)
    requires var s := After(Start(true, init, n), steps, bits); i < |s.log| && s.log[i].op.GetTorn?
    ensures var s := After(Start(true, init, n), steps, bits);
            && s.log[i].result == Replay(init, s.log, i, Pow2(bits))
            && Replay(init, s.log, i + 1, Pow2(bits)) == Replay(init, s.log, i, Pow2(bits))
  {
    RunsFromStartLinearize(true, init, n, steps, bits);
    assert ResultMatches(init, After(Start(true, init, n), steps, bits).log, i, Pow2(bits));
  }

  // ---------- Progress ----------

  ghost function SumBy(threads: seq<Thread>, f: Thread -> int, n: nat): int
    requires n <= |threads|
  {
    if n == 0 then 0 else SumBy(threads, f, n - 1) + f(threads[n - 1])
  }

  lemma {:induction false} SumByUpdate(threads: seq<Thread>, f: Thread -> int, t: nat, th: Thread, n: nat)
    requires n <= |threads| && t < |threads|
    ensures SumBy(threads[t := th], f, n) == SumBy(threads, f, n) + if t < n then f(th) - f(threads[t]) else 0
  {
    if n > 0 { SumByUpdate(threads, f, t, th, n - 1); }
  }

  lemma {:induction false} SumByBound(threads: seq<Thread>, f: Thread -> int, most: nat, t: nat, n: nat)
    requires n <= |threads| && t < |threads| && forall th :: 0 <= f(th) <= most
    ensures 0 <= SumBy(threads, f, n) <= most * n
    ensures f(threads[t]) == 0 && t < n ==> SumBy(threads, f, n) <= most * (n - 1)
  {
    if n > 0 { SumByBound(threads, f, most, t, n - 1); }
  }

  /** The loops that will fail unless the cell changes back: what they have loaded, or are about to, is not the cell. */
  ghost function Stale(cell: nat, h: nat): Thread -> int
    requires h > 0
  {
    (th: Thread) =>
      if th.ToCas? && th.op.IsLoop() && th.seen != cell then 1
      else if th.ToLoadRest? && th.op.IsLoop() && Joined(cell, th.half, th.lowFirst, h) != cell then 1
      else 0
  }

  /** The steps of a failed attempt: its load or loads, and its compare-and-swap. */
  function AttemptCost(halves: bool): nat {
    if halves then 3 else 2
  }

  function AttemptsCost(halves: bool, failures: nat): (c: nat)
    ensures c == AttemptCost(halves) * failures
  {
    if halves then 3 * failures else 2 * failures
  }

  /** The steps a thread has spent on its operation, failed attempts aside; never more than four. */
  ghost function Spent(halves: bool): Thread -> int {
    (th: Thread) => match th
          case Idle => 0
          case ToLoad(_, _) => 1
          case ToLoadRest(_, _, _, _) => 2
          case ToCas(_, _, _) => AttemptCost(halves)
          case Done(_, _, _, _) => 4
  }

  ghost function Finished(): Thread -> int {
    (th: Thread) => if th.Done? then 1 else 0
  }

  ghost function Stales(s: State, bits: nat): int {
    SumBy(s.threads, Stale(s.cell, HalfSize(bits)), |s.threads|)
  }

  /** Failed attempts are paid for by successful ones: at most N - 1 each, counting those still to come. */
  ghost predicate Amortised(s: State, bits: nat) {
    s.failures + Stales(s, bits) <= (|s.threads| - 1) * s.successes
  }

  ghost predicate Accounted(s: State) {
    && s.steps <= 5 * |s.calls| + AttemptsCost(s.halves, s.failures) + SumBy(s.threads, Spent(s.halves), |s.threads|)
    && s.successes <= |s.calls| + SumBy(s.threads, Finished(), |s.threads|)
  }

  /** That is, a thread between its two loads is stale exactly when the half it holds is outdated. */
  lemma JoiningHalves(cell: nat, half: nat, lowFirst: bool, h: nat)
    requires h > 0
    ensures Joined(cell, half, lowFirst, h) == cell <==> half == FirstHalf(cell, lowFirst, h)
  {
    var q, r := cell / h, cell % h;
    assert cell == q * h + r;
    if !lowFirst && half * h == q * h { assert (half - q) * h == 0; }
  }

  /** A success moves its own thread to the end; any other step keeps the cell and turns staleness into failure. */
  lemma StepPays(s: State, step: Step, bits: nat)
    requires Enabled(s, step, Pow2(bits)) && Consistent(s.threads[step.t])
    ensures var s', t, h := Do(s, step, bits), step.t, HalfSize(bits);
            && s'.threads == s.threads[t := s'.threads[t]] && s'.halves == s.halves
            && if s'.successes == s.successes
               then s'.cell == s.cell
                    && s'.failures + Stale(s.cell, h)(s'.threads[t]) <= s.failures + Stale(s.cell, h)(s.threads[t])
               else s'.successes == s.successes + 1 && s'.failures == s.failures && s'.threads[t].Done?
  {
    var th := s.threads[step.t];
    if th.ToLoad? && step.Advance? {
      var h := HalfSize(bits);
      JoiningHalves(s.cell, FirstHalf(s.cell, step.lowFirst, h), step.lowFirst, h);
    }
  }

  lemma StepAmortises(s: State, step: Step, bits: nat)
    requires Enabled(s, step, Pow2(bits)) && AllConsistent(s) && Amortised(s, bits)
    ensures Amortised(Do(s, step, bits), bits)
  {
    assert Consistent(s.threads[step.t]);
    StepPays(s, step, bits);
    var s', t, h := Do(s, step, bits), step.t, HalfSize(bits);
    if s'.successes == s.successes {
      SumByUpdate(s.threads, Stale(s.cell, h), t, s'.threads[t], |s.threads|);
    } else {
      SuccessPays(s.threads, s'.threads, s.cell, s'.cell, t, s.failures, s.successes, h);
    }
  }

  lemma SuccessPays(threads: seq<Thread>, threads': seq<Thread>, cell: nat, cell': nat, t: nat,
                    failures: nat, successes: nat, h: nat)
    requires t < |threads| == |threads'| && threads'[t].Done? && h > 0
    requires failures + SumBy(threads, Stale(cell, h), |threads|) <= (|threads| - 1) * successes
    ensures failures + SumBy(threads', Stale(cell', h), |threads|) <= (|threads| - 1) * (successes + 1)
  {
    var n := |threads|;
    SumByBound(threads, Stale(cell, h), 1, t, n);
    SumByBound(threads', Stale(cell', h), 1, t, n);
    assert (n - 1) * (successes + 1) == (n - 1) * successes + (n - 1);
  }

  /** Every step is paid for by the call it returns from, the attempt it fails, or what its thread has spent. */
  lemma StepCosts(s: State, step: Step, bits: nat)
    requires Enabled(s, step, Pow2(bits)) && Consistent(s.threads[step.t]) && HalvesOnly(s)
    ensures var s', t, h := Do(s, step, bits), step.t, s.halves;
            && s'.threads == s.threads[t := s'.threads[t]] && s'.halves == h && s'.steps == s.steps + 1 && HalvesOnly(s')
            && 1 <= 5 * (|s'.calls| - |s.calls|) + AttemptsCost(h, s'.failures) - AttemptsCost(h, s.failures)
                    + Spent(h)(s'.threads[t]) - Spent(h)(s.threads[t])
            && s'.successes - s.successes <= |s'.calls| - |s.calls| + Finished()(s'.threads[t]) - Finished()(s.threads[t])
  {
  }

  lemma StepAccounts(s: State, step: Step, bits: nat)
    requires Enabled(s, step, Pow2(bits)) && AllConsistent(s) && Accounted(s) && HalvesOnly(s)
    ensures Accounted(Do(s, step, bits)) && HalvesOnly(Do(s, step, bits))
  {
    assert Consistent(s.threads[step.t]);
    StepCosts(s, step, bits);
    AccountMoves(s, Do(s, step, bits), step.t);
  }

  lemma AccountMoves(s: State, s': State, t: nat)
    requires t < |s.threads| == |s'.threads| && s'.threads == s.threads[t := s'.threads[t]] && s'.halves == s.halves
    requires Accounted(s)
    requires s'.steps - s.steps <= 5 * (|s'.calls| - |s.calls|)
               + AttemptsCost(s.halves, s'.failures) - AttemptsCost(s.halves, s.failures)
               + Spent(s.halves)(s'.threads[t]) - Spent(s.halves)(s.threads[t])
    requires s'.successes - s.successes <=
               |s'.calls| - |s.calls| + Finished()(s'.threads[t]) - Finished()(s.threads[t])
    ensures Accounted(s')
  {
    SumByUpdate(s.threads, Spent(s.halves), t, s'.threads[t], |s.threads|);
    SumByUpdate(s.threads, Finished(), t, s'.threads[t], |s.threads|);
  }

  /** Only a cell that is loaded in halves is. */
  ghost predicate HalvesOnly(s: State) {
    !s.halves ==> forall t :: 0 <= t < |s.threads| ==> !s.threads[t].ToLoadRest?
  }

  lemma {:induction false} EveryRunProgresses(s: State, steps: seq<Step>, bits: nat)
    requires IsRun(s, steps, bits) && AllConsistent(s) && Amortised(s, bits) && Accounted(s) && HalvesOnly(s)
    ensures var s' := After(s, steps, bits);
            && Amortised(s', bits) && Accounted(s') && |s'.threads| == |s.threads| && s'.halves == s.halves
            && s'.steps == s.steps + |steps|
    decreases steps
  {
    if steps != [] {
      StepKeepsConsistent(s, steps[0], bits);
      StepAmortises(s, steps[0], bits);
      StepAccounts(s, steps[0], bits);
      EveryRunProgresses(Do(s, steps[0], bits), steps[1..], bits);
    }
  }

  lemma {:induction false} StartIsIdle(halves: bool, cell: nat, n: nat, f: Thread -> int, k: nat)
    requires k <= n && f(Idle) == 0
    ensures SumBy(Start(halves, cell, n).threads, f, k) == 0
  {
    if k > 0 { StartIsIdle(halves, cell, n, f, k - 1); }
  }

  /** Amortised progress: failed attempts of the loops and stale loads never exceed (N - 1) times the successes. */
  lemma FailuresAreAmortised(halves: bool, cell: nat, n: nat, steps: seq<Step>, bits: nat)
    requires IsRun(Start(halves, cell, n), steps, bits)
    ensures var s := After(Start(halves, cell, n), steps, bits);
            && s.failures + Stales(s, bits) <= (n - 1) * s.successes
            && Accounted(s) && |s.threads| == n && s.halves == halves && s.steps == |steps|
  {
    StartIsIdle(halves, cell, n, Stale(cell, HalfSize(bits)), n);
    StartIsIdle(halves, cell, n, Spent(halves), n);
    StartIsIdle(halves, cell, n, Finished(), n);
    EveryRunProgresses(Start(halves, cell, n), steps, bits);
  }

  /** Lock freedom, with a bound: N threads cannot take many steps without completing calls. */
  lemma CallsKeepCompleting(halves: bool, cell: nat, n: nat, steps: seq<Step>, bits: nat)
    requires IsRun(Start(halves, cell, n), steps, bits) && n > 0
    ensures var a := AttemptCost(halves);
            |steps| <= (a * (n - 1) + 5) * |After(Start(halves, cell, n), steps, bits).calls| + a * n * (n - 1) + 4 * n
  {
    FailuresAreAmortised(halves, cell, n, steps, bits);
    var s := After(Start(halves, cell, n), steps, bits);
    SumByBound(s.threads, Stale(s.cell, HalfSize(bits)), 1, 0, n);
    SumByBound(s.threads, Spent(halves), 4, 0, n);
    SumByBound(s.threads, Finished(), 1, 0, n);
    BoundArithmetic(AttemptCost(halves), n, |s.calls|, s.failures, s.successes, s.steps);
  }

  lemma BoundArithmetic(a: nat, n: nat, calls: nat, failures: nat, successes: nat, steps: nat)
    requires n > 0 && failures <= (n - 1) * successes && successes <= calls + n
    requires steps <= 5 * calls + a * failures + 4 * n
    ensures steps <= (a * (n - 1) + 5) * calls + a * n * (n - 1) + 4 * n
  {
    MultiplyBoth(n - 1, successes, calls + n);
    MultiplyBoth(a, failures, (n - 1) * (calls + n));
    assert a * ((n - 1) * (calls + n)) == a * (n - 1) * calls + a * n * (n - 1);
  }

  lemma MultiplyBoth(k: nat, a: nat, b: nat)
    requires a <= b
    ensures k * a <= k * b
  {
  }

  // ---------- Counting calls ----------

  /** The same sum over the calls that have returned. */
  ghost function CallsTotal(calls: seq<Call>, n: nat): int
    requires n <= |calls|
  {
    if n == 0 then 0 else CallsTotal(calls, n - 1) + Change(calls[n - 1].op)
  }

  lemma {:induction false} LogTotalGrows(log: seq<Entry>, e: Entry, n: nat)
    requires n <= |log|
    ensures SignedTotal(log + [e], n) == SignedTotal(log, n)
  {
    if n > 0 { LogTotalGrows(log, e, n - 1); }
  }

  lemma {:induction false} CallsTotalGrows(calls: seq<Call>, c: Call, n: nat)
    requires n <= |calls|
    ensures CallsTotal(calls + [c], n) == CallsTotal(calls, n)
  {
    if n > 0 { CallsTotalGrows(calls, c, n - 1); }
  }

  /** What a thread has added but not yet returned. */
  ghost function Unreturned(): Thread -> int {
    (th: Thread) => if th.Done? then Change(th.op) else 0
  }

  /** Log and calls tally, but for the calls about to return. */
  ghost predicate Tallied(s: State) {
    && |s.log| == |s.calls| + SumBy(s.threads, Finished(), |s.threads|)
    && SignedTotal(s.log, |s.log|) == CallsTotal(s.calls, |s.calls|) + SumBy(s.threads, Unreturned(), |s.threads|)
  }

  /** A step lets an operation take effect, or a call return, or neither. */
  lemma StepDoes(s: State, step: Step, bits: nat)
    requires Enabled(s, step, Pow2(bits))
    ensures var s', t := Do(s, step, bits), step.t;
            var th, th' := s.threads[t], s'.threads[t];
            && s'.threads == s.threads[t := th']
            && if th'.Done? then !th.Done? && s'.calls == s.calls && s'.log == s.log + [Entry(t, th'.op, th'.result)]
               else if th.Done? then s'.log == s.log && |s'.calls| == |s.calls| + 1
                                     && s'.calls == s.calls + [s'.calls[|s.calls|]] && s'.calls[|s.calls|].op == th.op
               else s'.log == s.log && s'.calls == s.calls
  {
  }

  lemma StepTallies(s: State, step: Step, bits: nat)
    requires Enabled(s, step, Pow2(bits)) && Tallied(s)
    ensures Tallied(Do(s, step, bits))
  {
    StepDoes(s, step, bits);
    var s', t := Do(s, step, bits), step.t;
    TallyMoves(s, s', t, s'.threads[t]);
  }

  lemma TallyMoves(s: State, s': State, t: nat, th': Thread)
    requires t < |s.threads| && s'.threads == s.threads[t := th'] && Tallied(s)
    requires var th := s.threads[t];
             if th'.Done? then !th.Done? && s'.calls == s.calls && s'.log == s.log + [Entry(t, th'.op, th'.result)]
             else if th.Done? then s'.log == s.log && |s'.calls| == |s.calls| + 1
                                   && s'.calls == s.calls + [s'.calls[|s.calls|]] && s'.calls[|s.calls|].op == th.op
             else s'.log == s.log && s'.calls == s.calls
    ensures Tallied(s')
  {
    SumByUpdate(s.threads, Finished(), t, th', |s.threads|);
    SumByUpdate(s.threads, Unreturned(), t, th', |s.threads|);
    if th'.Done? {
      LogTotalGrows(s.log, Entry(t, th'.op, th'.result), |s.log|);
    } else if s.threads[t].Done? {
      CallsTotalGrows(s.calls, s'.calls[|s.calls|], |s.calls|);
    }
  }

  /** Only adds, subtracts and torn reads are called. */
  ghost predicate CallsCount(steps: seq<Step>) {
    forall k :: 0 <= k < |steps| && steps[k].Invoke? ==> Counts(steps[k].op)
  }

  ghost predicate OnlyCounting(s: State) {
    CountsOnly(s.log) && forall t :: 0 <= t < |s.threads| && !s.threads[t].Idle? ==> Counts(s.threads[t].op)
  }

  lemma StepCounts(s: State, step: Step, bits: nat)
    requires Enabled(s, step, Pow2(bits)) && OnlyCounting(s) && (step.Invoke? ==> Counts(step.op))
    ensures OnlyCounting(Do(s, step, bits))
  {
  }

  lemma {:induction false} EveryRunTallies(s: State, steps: seq<Step>, bits: nat)
    requires IsRun(s, steps, bits) && Tallied(s) && OnlyCounting(s) && CallsCount(steps)
    ensures Tallied(After(s, steps, bits)) && OnlyCounting(After(s, steps, bits))
    decreases steps
  {
    if steps != [] {
      StepTallies(s, steps[0], bits);
      StepCounts(s, steps[0], bits);
      assert forall k :: 0 <= k < |steps[1..]| ==> steps[1..][k] == steps[k + 1];
      EveryRunTallies(Do(s, steps[0], bits), steps[1..], bits);
    }
  }

  /**
   In every run of adds, subtracts and torn reads, the cell holds its initial value plus the signed total of the calls
   that have returned and of those about to; once all threads are idle, of the calls made.
   */
  lemma CounterIsExact(halves: bool, init: nat, n: nat, steps: seq<Step>, bits: nat)
    requires IsRun(Start(halves, init, n), steps, bits) && init < Pow2(bits) && CallsCount(steps)
    ensures var s := After(Start(halves, init, n), steps, bits);
            && s.cell == (init + CallsTotal(s.calls, |s.calls|) + SumBy(s.threads, Unreturned(), |s.threads|)) % Pow2(bits)
            && |s.log| == |s.calls| + SumBy(s.threads, Finished(), |s.threads|)
            && ((forall t :: 0 <= t < |s.threads| ==> s.threads[t].Idle?) ==>
                  s.cell == (init + CallsTotal(s.calls, |s.calls|)) % Pow2(bits))
  {
    var start := Start(halves, init, n);
    StartIsIdle(halves, init, n, Finished(), n);
    StartIsIdle(halves, init, n, Unreturned(), n);
    EveryRunTallies(start, steps, bits);
    RunsFromStartLinearize(halves, init, n, steps, bits);
    var s := After(start, steps, bits);
    TotalsAddUp(init, s.log, |s.log|, Pow2(bits));
    if forall t :: 0 <= t < |s.threads| ==> s.threads[t].Idle? { IdleOweNothing(s.threads, |s.threads|); }
  }

  lemma {:induction false} IdleOweNothing(threads: seq<Thread>, n: nat)
    requires n <= |threads| && forall t :: 0 <= t < |threads| ==> threads[t].Idle?
    ensures SumBy(threads, Unreturned(), n) == 0
  {
    if n > 0 { IdleOweNothing(threads, n - 1); }
  }
}
