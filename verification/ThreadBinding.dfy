/**
 Nested binding of one thread (glue/LanguageVMGlue.c, omr/OMR_VMThread.cpp and the FirstInit and LastFree between
 them in omr/startup/omrvmstartup.cpp): how often the thread is attached natively, and to the VM.
 */
module ThreadBinding {
  import opened Options

  datatype Error = NoError | FailedToAttachNativeThread | StepFailed | ThreadNotAttached

  /** The native attach count and, while a thread record exists, its `_attachCount`. */
  datatype Binding = Binding(native: int, record: Option<nat>) {
    ghost predicate Valid() {
      record.Some? ==> record.value >= 1
    }
  }

  /** Which of the steps inside a bind succeed. */
  datatype BindSteps = BindSteps(
    attachesNatively: bool, allocatesLanguageThread: bool, allocatesRecord: bool, initialisesRecord: bool,
    startsTrace: bool, startsMutator: bool, links: bool, stopsTrace: bool)

  datatype UnbindSteps = UnbindSteps(stopsTrace: bool, freesLanguageThread: bool)

  function Bind(b: Binding, env: BindSteps): (Binding, Error) {
    match b.record
    case Some(n) => (b.(record := Some(n + 1)), NoError)
    case None =>
      if !env.attachesNatively then (b, FailedToAttachNativeThread)
      else if !(env.allocatesLanguageThread && env.allocatesRecord && env.initialisesRecord && env.startsTrace && env.startsMutator)
      then (b, StepFailed)
      else if env.links then (Binding(b.native + 1, Some(1)), NoError)
      else if env.stopsTrace then (b, StepFailed)
      else (b.(record := Some(1)), StepFailed)
  }

  function Unbind(b: Binding, env: UnbindSteps): (Binding, Error) {
    match b.record
    case None => (b, ThreadNotAttached)
    case Some(n) =>
      if n != 1 then (b.(record := Some(if n > 0 then n - 1 else 0)), NoError)
      else if !env.stopsTrace then (b, StepFailed)
      else if !env.freesLanguageThread then (b.(record := None), StepFailed)
      else (Binding(b.native - 1, None), NoError)
  }

  class Thread {
    var native: int
    /** omr_vmthread_getCurrent finds a record in thread-local storage, or none. */
    var attached: bool
    var attachCount: nat

    ghost function State(): Binding
      reads this
    {
      Binding(native, if attached then Some(attachCount) else None)
    }

    constructor (native: int)
      ensures State() == Binding(native, None)
    {
      this.native, attached, attachCount := native, false, 0;
    }

    /** omr_vmthread_firstAttach: the record is internal, so the list never refuses it. */
    method FirstAttach(env: BindSteps) returns (rc: Error)
      requires !attached
      modifies `attached, `attachCount
      ensures rc == (if env.allocatesRecord && env.initialisesRecord then NoError else StepFailed)
      ensures State().record == if rc == NoError then Some(1) else None
    {
      if !env.allocatesRecord { return StepFailed; }
      if !env.initialisesRecord { return StepFailed; }
      attached, attachCount := true, 1;
      rc := NoError;
    }

    /** omr_vmthread_lastDetach. */
    method LastDetach()
      modifies `attached
      ensures !attached
    {
      attached := false;
    }

    /** OMR_Thread_FirstInit. */
    method FirstInit(env: BindSteps) returns (rc: Error)
      requires !attached
      modifies `attached, `attachCount
      ensures rc == (if env.allocatesRecord && env.initialisesRecord && env.startsTrace && env.startsMutator then NoError else StepFailed)
      ensures State().record == if rc == NoError then Some(1) else None
    {
      rc := FirstAttach(env);
      if rc == NoError {
        if !env.startsTrace {
          rc := StepFailed;
        } else if !env.startsMutator {
          rc := StepFailed;
        }
        if rc != NoError {
          LastDetach();
        }
      }
    }

    /** OMR_Thread_LastFree: nothing happens unless the trace engine lets the thread go. */
    method LastFree(stopsTrace: bool) returns (rc: Error)
      modifies `attached
      ensures rc == (if stopsTrace then NoError else StepFailed)
      ensures attached == (old(attached) && !stopsTrace)
    {
      if !stopsTrace { return StepFailed; }
      LastDetach();
      rc := NoError;
    }

    /** OMR_Glue_BindCurrentThread. */
    method BindCurrentThread(env: BindSteps) returns (rc: Error)
      requires State().Valid()
      modifies this
      ensures State().Valid() && (State(), rc) == Bind(old(State()), env)
    {
      rc := NoError;
      if attached {
        // Already attached: omr_vmthread_reattach.
        attachCount := attachCount + 1;
        return;
      }
      if !env.attachesNatively { return FailedToAttachNativeThread; }
      native := native + 1;
      if !env.allocatesLanguageThread {
        rc := StepFailed;
      } else {
        rc := FirstInit(env);
        if rc == NoError && !env.links {
          var _ := LastFree(env.stopsTrace);
          rc := StepFailed;
        }
      }
      if rc != NoError {
        native := native - 1;
      }
    }

    /** OMR_Glue_UnbindCurrentThread. */
    method UnbindCurrentThread(env: UnbindSteps) returns (rc: Error)
      requires State().Valid()
      modifies this
      ensures State().Valid() && (State(), rc) == Unbind(old(State()), env)
    {
      rc := NoError;
      if !attached { return ThreadNotAttached; }
      if attachCount == 1 {
        rc := LastFree(env.stopsTrace);
        if rc != NoError { return; }
        if !env.freesLanguageThread { return StepFailed; }
        native := native - 1;
      } else {
        // omr_vmthread_redetach.
        attachCount := attachCount - 1;
      }
    }
  }

  // ---------- Every run ----------

  datatype Op = BindOp(bind: BindSteps) | UnbindOp(unbind: UnbindSteps)

  function Apply(b: Binding, op: Op): (Binding, Error) {
    match op
    case BindOp(env) => Bind(b, env)
    case UnbindOp(env) => Unbind(b, env)
  }

  function Run(start: int, ops: seq<Op>, n: nat): Binding
    requires n <= |ops|
  {
    if n == 0 then Binding(start, None) else Apply(Run(start, ops, n - 1), ops[n - 1]).0
  }

  ghost predicate Succeeds(start: int, ops: seq<Op>, i: nat)
    requires i < |ops|
  {
    Apply(Run(start, ops, i), ops[i]).1 == NoError
  }

  /** Successful binds minus successful unbinds. */
  ghost function Balance(start: int, ops: seq<Op>, n: nat): int
    requires n <= |ops|
  {
    if n == 0 then 0
    else Balance(start, ops, n - 1) +
         if !Succeeds(start, ops, n - 1) then 0 else if ops[n - 1].BindOp? then 1 else -1
  }

  /** A bind whose link step failed and whose cleanup failed too: the record stays, the native attach does not. */
  ghost predicate Orphans(start: int, ops: seq<Op>, i: nat)
    requires i < |ops|
  {
    var b := Run(start, ops, i);
    && ops[i].BindOp? && b.record == None
    && var e := ops[i].bind;
       && e.attachesNatively && e.allocatesLanguageThread && e.allocatesRecord && e.initialisesRecord
       && e.startsTrace && e.startsMutator && !e.links && !e.stopsTrace
  }

  /** A last unbind that could not free the language thread: the record goes, the native attach stays. */
  ghost predicate Leaks(start: int, ops: seq<Op>, i: nat)
    requires i < |ops|
  {
    && ops[i].UnbindOp? && Run(start, ops, i).record == Some(1)
    && ops[i].unbind.stopsTrace && !ops[i].unbind.freesLanguageThread
  }

  ghost predicate AllSteps(env: BindSteps) {
    && env.attachesNatively && env.allocatesLanguageThread && env.allocatesRecord && env.initialisesRecord
    && env.startsTrace && env.startsMutator && env.links
  }

  /**
   What a bind answers: success if the thread is bound already or every step works, and one more attachment counted; an
   error of its own where the thread cannot be attached natively. A bind that fails leaves everything as it was, unless
   its cleanup fails.
   */
  lemma BindAnswers(b: Binding, env: BindSteps)
    ensures var (b', rc) := Bind(b, env);
            && (rc == NoError <==> b.record.Some? || AllSteps(env))
            && (rc == FailedToAttachNativeThread <==> b.record == None && !env.attachesNatively)
            && rc != ThreadNotAttached
            && (rc == NoError ==> AttachCount(b') == AttachCount(b) + 1 && b'.native == b.native + if b.record == None then 1 else 0)
            && (rc != NoError && (!AllSteps(env.(links := true)) || env.stopsTrace) ==> b' == b)
  {
  }

  /** What an unbind answers; one that fails on the trace engine leaves everything as it was. */
  lemma UnbindAnswers(b: Binding, env: UnbindSteps)
    requires b.Valid()
    ensures var (b', rc) := Unbind(b, env);
            && (rc == ThreadNotAttached <==> b.record == None)
            && (rc == NoError <==> b.record.Some? && (b.record.value > 1 || (env.stopsTrace && env.freesLanguageThread)))
            && (rc == NoError ==> AttachCount(b') == AttachCount(b) - 1
                                  && b'.native == b.native - if b.record == Some(1) then 1 else 0)
            && (rc == ThreadNotAttached || (!env.stopsTrace && rc != NoError) ==> b' == b)
  {
  }

  /** An unbind whose steps work undoes the bind before it, nested or not. */
  lemma UnbindUndoesBind(b: Binding, env: BindSteps, env': UnbindSteps)
    requires b.Valid() && Bind(b, env).1 == NoError && (b.record == None ==> env'.stopsTrace && env'.freesLanguageThread)
    ensures Unbind(Bind(b, env).0, env') == (b, NoError)
  {
  }

  /** Records left behind minus records lost, among the first `n` operations. */
  ghost function Surplus(start: int, ops: seq<Op>, n: nat): int
    requires n <= |ops|
  {
    if n == 0 then 0
    else Surplus(start, ops, n - 1)
         + (if Orphans(start, ops, n - 1) then 1 else 0) - (if Leaks(start, ops, n - 1) then 1 else 0)
  }

  ghost function AttachCount(b: Binding): nat {
    match b.record case Some(n) => n case None => 0
  }

  /** The exact accounts of every run of binds and unbinds, whichever steps fail. */
  lemma {:induction false} EveryRunIsAccounted(start: int, ops: seq<Op>, n: nat)
    requires n <= |ops|
    ensures var b := Run(start, ops, n);
            && b.Valid()
            && b.native == start + (if b.record.Some? then 1 else 0) - Surplus(start, ops, n)
            && AttachCount(b) == Balance(start, ops, n) + Surplus(start, ops, n)
  {
    if n > 0 { EveryRunIsAccounted(start, ops, n - 1); }
  }

  /** The native attach count is its starting value plus one exactly while bound. */
  ghost predicate Tracks(start: int, ops: seq<Op>, k: nat)
    requires k <= |ops|
  {
    Run(start, ops, k).native == start + if Run(start, ops, k).record.Some? then 1 else 0
  }

  ghost predicate CleansUp(start: int, ops: seq<Op>, i: nat)
    requires i < |ops|
  {
    !Orphans(start, ops, i) && !Leaks(start, ops, i)
  }

  lemma {:induction false} CleanRunsHaveNoSurplus(start: int, ops: seq<Op>, n: nat)
    requires n <= |ops| && forall i :: 0 <= i < n ==> CleansUp(start, ops, i)
    ensures Surplus(start, ops, n) == 0
  {
    if n > 0 {
      CleanRunsHaveNoSurplus(start, ops, n - 1);
      assert CleansUp(start, ops, n - 1);
    }
  }

  lemma CleanRunsTrack(start: int, ops: seq<Op>, n: nat)
    requires n <= |ops| && forall i :: 0 <= i < n ==> CleansUp(start, ops, i)
    ensures Tracks(start, ops, n) && AttachCount(Run(start, ops, n)) == Balance(start, ops, n)
  {
    EveryRunIsAccounted(start, ops, n);
    CleanRunsHaveNoSurplus(start, ops, n);
  }

  lemma FailedCleanupShows(start: int, ops: seq<Op>, i: nat)
    requires i < |ops| && !CleansUp(start, ops, i)
    ensures !(Tracks(start, ops, i) && Tracks(start, ops, i + 1))
  {
    EveryRunIsAccounted(start, ops, i);
    EveryRunIsAccounted(start, ops, i + 1);
  }

  /**
   At every point of a run the thread is natively attached once more exactly while bound, if and only if no
   cleanup step has failed so far; then `_attachCount` is the balance of successful binds and unbinds.
   */
  lemma BoundExactlyWhileAttached(start: int, ops: seq<Op>, n: nat)
    requires n <= |ops|
    ensures (forall k :: 0 <= k <= n ==> Tracks(start, ops, k)) <==> (forall i :: 0 <= i < n ==> CleansUp(start, ops, i))
    ensures (forall i :: 0 <= i < n ==> CleansUp(start, ops, i)) ==> AttachCount(Run(start, ops, n)) == Balance(start, ops, n)
  {
    if forall i :: 0 <= i < n ==> CleansUp(start, ops, i) {
      forall k | 0 <= k <= n ensures Tracks(start, ops, k) { CleanRunsTrack(start, ops, k); }
      CleanRunsTrack(start, ops, n);
    } else {
      var i :| 0 <= i < n && !CleansUp(start, ops, i);
      FailedCleanupShows(start, ops, i);
    }
  }
}
