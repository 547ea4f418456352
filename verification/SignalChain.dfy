/**
 Signal chaining (omrsigcompat/omrsig.cpp) on a POSIX build other than AIX, z/OS and z/TPF: a primary and a
 secondary slot per signal above the one disposition the operating system keeps.
 */
module SignalChain {
  import opened Options

  /** SIG_DFL, which is also the null pointer, SIG_IGN, or a function. Both handler fields share their storage. */
  datatype Handler = Default | Ignore | Function(id: nat)

  datatype Flag = NoCldStop | NoCldWait | SigInfo | OnStack | Restart | NoDefer | ResetHand

  datatype Action = Action(handler: Handler, flags: set<Flag>, mask: set<int>)

  const ZERO_ACTION := Action(Default, {}, {})
  const SECONDARY_FLAGS_WHITELIST: set<Flag> := {OnStack, NoCldStop, NoCldWait}

  const NSIG: int := 65
  const SIGKILL: int := 9
  const SIGSTOP: int := 19

  predicate HandlerIsFunction(act: Action) {
    || (act.handler != Default && act.handler != Ignore && SigInfo in act.flags)
    || (act.handler != Default && act.handler != Ignore)
  }

  predicate ValidSignalNum(signum: int, nullAction: bool) {
    0 <= signum < NSIG && ((signum != SIGKILL && signum != SIGSTOP) || nullAction)
  }

  /** A function is whatever is neither SIG_DFL nor SIG_IGN, however its flags read. */
  lemma FunctionsAreHandlers(act: Action)
    ensures HandlerIsFunction(act) <==> act.handler.Function?
  {
  }

  /** Handlers may be installed for all signals but two, which may be asked about or set to the default or ignored. */
  lemma SignalsThatCount(signum: int, nullAction: bool)
    ensures ValidSignalNum(signum, nullAction) <==> 0 <= signum <= 64 && (nullAction || (signum != 9 && signum != 19))
  {
  }

  // ---------- One signal ----------

  datatype Slot = Slot(primary: Action, secondary: Action, os: Action)

  const DEFAULT_SLOT := Slot(ZERO_ACTION, ZERO_ACTION, ZERO_ACTION)

  /** The action handed to the operating system. */
  function Registering(s: Slot): Action {
    if HandlerIsFunction(s.primary)
    then s.primary.(flags := s.primary.flags + s.secondary.flags * SECONDARY_FLAGS_WHITELIST)
    else s.secondary
  }

  /** A disposition the system answers for itself: neither user can have installed a function. */
  predicate Quiet(act: Action) {
    SigInfo !in act.flags && (act.handler == Default || act.handler == Ignore)
  }

  /** What a user is told is installed. */
  function Previous(s: Slot, primary: bool, queryWorks: bool): Action {
    if queryWorks && Quiet(s.os) then s.os
    else if primary then s.primary
    else s.secondary
  }

  /** The slot after `act` has been stored and offered to the operating system. */
  function Register(s: Slot, primary: bool, act: Action, accepted: bool): Slot {
    var stored := if primary then s.(primary := act.(flags := act.flags - {ResetHand})) else s.(secondary := act);
    if accepted then stored.(os := Registering(stored)) else stored
  }

  /** The operating system's disposition is the primary's, if that is a function, else the secondary's. */
  ghost predicate Coherent(s: Slot) {
    s.os == Registering(s) && ResetHand !in s.primary.flags
  }

  /**
   After every accepted registration the disposition is the primary function plus the secondary's whitelisted
   flags, or the secondary action; a primary function is never registered one-shot.
   */
  lemma RegistrationIsCoherent(s: Slot, primary: bool, act: Action)
    requires ResetHand !in s.primary.flags
    ensures var s' := Register(s, primary, act, true);
            && Coherent(s')
            && (HandlerIsFunction(s'.primary) ==>
                  && s'.os.handler == s'.primary.handler && s'.os.mask == s'.primary.mask
                  && ResetHand !in s'.os.flags
                  && forall f :: f in s'.os.flags <==>
                       f in s'.primary.flags || (f in s'.secondary.flags && f in {OnStack, NoCldStop, NoCldWait}))
            && (!HandlerIsFunction(s'.primary) ==> s'.os == s'.secondary)
  {
  }

  /** SA_RESETHAND: the handler reverts to the default and SA_SIGINFO is cleared. */
  function Reset(act: Action): Action {
    act.(handler := Default, flags := act.flags - {SigInfo})
  }

  // ---------- The table, imperatively ----------

  datatype SigData = SigData(primaryAction: Action, secondaryAction: Action)

  const ALL_SIGNALS: set<int> := set i: int | 1 <= i < NSIG

  datatype HandlerCode = Error | SignalHandled | DefaultActionRequired

  /** The mask a secondary handler runs under. */
  function HandlerMask(mask: set<int>, act: Action, sig: int): set<int> {
    var used := mask + (act.mask + {sig});
    if NoDefer in act.flags then used - {sig} else used
  }

  /** The mask section 2.4 of POSIX.1-2008 asks for: `sig` is added unless SA_NODEFER is set. */
  function PosixMask(mask: set<int>, act: Action, sig: int): set<int> {
    mask + act.mask + if NoDefer in act.flags then {} else {sig}
  }

  /** The two agree unless SA_NODEFER meets a signal that sa_mask or the thread's own mask already blocks. */
  lemma HandlerMaskIsPosix(mask: set<int>, act: Action, sig: int)
    ensures HandlerMask(mask, act, sig) == PosixMask(mask, act, sig) <==>
            !(NoDefer in act.flags && sig in mask + act.mask)
  {
    assert sig in PosixMask(mask, act, sig) <==> NoDefer !in act.flags || sig in mask + act.mask;
    assert sig in HandlerMask(mask, act, sig) <==> NoDefer !in act.flags;
    assert HandlerMask(mask, act, sig) - {sig} == PosixMask(mask, act, sig) - {sig};
    if NoDefer !in act.flags || sig !in mask + act.mask {
      assert HandlerMask(mask, act, sig) == PosixMask(mask, act, sig);
    }
  }

  /** One registration, and the system's answer to it. */
  datatype Registration = Registration(primary: bool, act: Action, accepted: bool)

  /** Registrations made one after another. */
  function RegisterAll(s: Slot, rs: seq<Registration>): Slot
    decreases rs
  {
    if rs == [] then s else RegisterAll(Register(s, rs[0].primary, rs[0].act, rs[0].accepted), rs[1..])
  }

  /** The slot as a handler finds it: a one-shot action has been reset, `resets` being the system's answer. */
  function Entered(s: Slot, resets: bool): Slot {
    if ResetHand in s.secondary.flags then Register(s, false, Reset(s.secondary), resets) else s
  }

  /** omrsig_handler on its signal's slot: what it leaves behind when its handler registers `during` on the way. */
  function Chain(s: Slot, resets: bool, during: seq<Registration>): Slot {
    if HandlerIsFunction(s.secondary) then RegisterAll(Entered(s, resets), during) else s
  }

  /** The last action the secondary user has registered, accepted or not. */
  function LastSecondary(act: Action, rs: seq<Registration>): Action {
    if rs == [] then act
    else if !rs[|rs| - 1].primary then rs[|rs| - 1].act
    else LastSecondary(act, rs[..|rs| - 1])
  }

  lemma {:induction false} RegisterAllAppends(s: Slot, rs: seq<Registration>, r: Registration)
    ensures RegisterAll(s, rs + [r]) == Register(RegisterAll(s, rs), r.primary, r.act, r.accepted)
    decreases rs
  {
    if rs != [] {
      RegisterAllAppends(Register(s, rs[0].primary, rs[0].act, rs[0].accepted), rs[1..], r);
      assert (rs + [r])[1..] == rs[1..] + [r];
    }
  }

  lemma {:induction false} RegisterAllEndsWithLast(s: Slot, rs: seq<Registration>)
    requires ResetHand !in s.primary.flags
    ensures var s' := RegisterAll(s, rs);
            && ResetHand !in s'.primary.flags && s'.secondary == LastSecondary(s.secondary, rs)
            && (rs != [] && rs[|rs| - 1].accepted ==> Coherent(s'))
  {
    if rs != [] {
      var early, last := rs[..|rs| - 1], rs[|rs| - 1];
      RegisterAllEndsWithLast(s, early);
      assert rs == early + [last];
      RegisterAllAppends(s, early, last);
    }
  }

  /**
   What a handler registers while it runs stays: its last registration for the secondary user is in the slot, and if
   its last registration was accepted the disposition is what the slot says. Only if it registers nothing is a one-shot
   action left as the reset left it.
   */
  lemma ReRegistrationStays(s: Slot, resets: bool, during: seq<Registration>)
    requires ResetHand !in s.primary.flags && HandlerIsFunction(s.secondary)
    ensures var s' := Chain(s, resets, during);
            && s'.secondary == LastSecondary(Entered(s, resets).secondary, during)
            && (during != [] && during[|during| - 1].accepted ==> Coherent(s'))
            && (during == [] && resets && ResetHand in s.secondary.flags ==> Coherent(s') && s'.secondary == Reset(s.secondary))
  {
    RegisterAllEndsWithLast(Entered(s, resets), during);
  }

  /** What is left of a one-shot action that has run. */
  ghost predicate IsSpent(was: Action, act: Action) {
    && act.handler == Default && act.mask == was.mask
    && forall f :: f in act.flags <==> f in was.flags && f != SigInfo
  }

  /**
   A one-shot action whose handler has run, registering nothing, leaves the default action, without SA_SIGINFO, the other
   flags and the mask as they were; another delivery finds no handler to run.
   */
  lemma OneShotLeavesTheDefault(s: Slot)
    requires HandlerIsFunction(s.secondary) && ResetHand in s.secondary.flags
    ensures IsSpent(s.secondary, Chain(s, true, []).secondary)
    ensures !HandlerIsFunction(Chain(s, true, []).secondary) && Chain(s, true, []).primary == s.primary
  {
  }

  class SignalTable {
    var sigData: seq<SigData>
    /** The operating system's table and the calling thread's signal mask. */
    var os: seq<Action>
    var mask: set<int>
    /** The handlers run so far, and the masks they ran under. */
    ghost var ran: seq<(Action, set<int>)>

    ghost predicate Valid()
      reads this
    {
      |sigData| == NSIG == |os|
    }

    constructor (mask: set<int>)
      ensures Valid() && this.mask == mask && ran == []
      ensures forall i :: 0 <= i < NSIG ==> At(i) == DEFAULT_SLOT
    {
      sigData := seq(NSIG, _ => SigData(ZERO_ACTION, ZERO_ACTION));
      os := seq(NSIG, _ => ZERO_ACTION);
      this.mask := mask;
      ran := [];
    }

    ghost function At(signum: int): Slot
      requires Valid() && 0 <= signum < NSIG
      reads this
    {
      Slot(sigData[signum].primaryAction, sigData[signum].secondaryAction, os[signum])
    }

    /** Only the slot of `signum` differs from what it was. */
    twostate predicate OnlyAt(signum: int)
      reads this
    {
      && Valid() && old(Valid())
      && (forall i :: 0 <= i < NSIG && i != signum ==> sigData[i] == old(sigData)[i])
      && (forall i :: 0 <= i < NSIG && i != signum ==> os[i] == old(os)[i])
    }

    /** SIGLOCK: a signal taken while the lock is held would deadlock. */
    method Lock() returns (previousMask: set<int>)
      modifies `mask
      ensures previousMask == old(mask) && mask == ALL_SIGNALS
    {
      previousMask := mask;
      mask := ALL_SIGNALS;
    }

    /** SIGUNLOCK. */
    method Unlock(previousMask: set<int>)
      modifies `mask
      ensures mask == previousMask
    {
      mask := previousMask;
    }

    /** The operating system's sigaction, which may refuse. */
    method SigactionOS(signum: int, act: Option<Action>, accepts: bool) returns (rc: int, oldact: Action)
      requires Valid() && 0 <= signum < NSIG
      modifies `os
      ensures Valid() && rc == (if accepts then 0 else -1)
      ensures oldact == (if accepts then old(os)[signum] else ZERO_ACTION)
      ensures os == (if accepts && act.Some? then old(os)[signum := act.value] else old(os))
    {
      rc, oldact := -1, ZERO_ACTION;
      if accepts {
        rc, oldact := 0, os[signum];
        if act.Some? { os := os[signum := act.value]; }
      }
    }

    /** omrsig_sigaction_internal; `queryWorks` and `accepts` are the operating system's answers. */
    method SigactionInternal(signum: int, act: Option<Action>, wantsOld: bool, primary: bool,
                             queryWorks: bool, accepts: bool)
      returns (rc: int, oldact: Option<Action>)
      requires Valid()
      modifies `sigData, `os, `mask
      ensures OnlyAt(signum) && mask == old(mask)
      ensures var valid := ValidSignalNum(signum, act == None || !HandlerIsFunction(act.value));
              if !valid then rc == -1 && oldact == None && sigData == old(sigData) && os == old(os)
              else
                && oldact == (if wantsOld then Some(Previous(old(At(signum)), primary, queryWorks)) else None)
                && rc == (if (if act.Some? then accepts else !wantsOld || queryWorks) then 0 else -1)
                && At(signum) == if act.Some? then Register(old(At(signum)), primary, act.value, accepts) else old(At(signum))
    {
      rc, oldact := 0, None;
      if !ValidSignalNum(signum, act == None || !HandlerIsFunction(act.value)) {
        rc := -1;
        return;
      }
      var previousMask := Lock();
      if wantsOld {
        var oact;
        rc, oact := SigactionOS(signum, None, queryWorks);
        if rc != -1 && SigInfo !in oact.flags && (oact.handler == Default || oact.handler == Ignore) {
          oldact := Some(oact);
        } else {
          oldact := Some(if primary then sigData[signum].primaryAction else sigData[signum].secondaryAction);
        }
      }
      if act.Some? {
        rc := Store(signum, act.value, primary, accepts);
      }
      Unlock(previousMask);
    }

    /** Copy the action into its slot and register primary or secondary with the operating system. */
    method Store(signum: int, act: Action, primary: bool, accepts: bool) returns (rc: int)
      requires Valid() && 0 <= signum < NSIG
      modifies `sigData, `os
      ensures OnlyAt(signum) && rc == (if accepts then 0 else -1)
      ensures At(signum) == Register(old(At(signum)), primary, act, accepts)
    {
      var slot := sigData[signum];
      if primary {
        slot := slot.(primaryAction := act.(flags := act.flags - {ResetHand}));
      } else {
        slot := slot.(secondaryAction := act);
      }
      sigData := sigData[signum := slot];
      var newRegisteringHandler := slot.secondaryAction;
      if HandlerIsFunction(slot.primaryAction) {
        newRegisteringHandler := slot.primaryAction.(
          flags := slot.primaryAction.flags + slot.secondaryAction.flags * SECONDARY_FLAGS_WHITELIST);
      }
      var oldact;
      rc, oldact := SigactionOS(signum, Some(newRegisteringHandler), accepts);
    }

    /**
     omrsig_handler. The secondary handler registers `during` for its signal and leaves `maskAfter` behind; `resets` is
     the system's answer to the one-shot reset, the other flags are those of pthread_sigmask.
     */
    method OmrsigHandler(sig: int, resets: bool, during: seq<Registration>, maskAfter: set<int>,
                         blocks: bool, unblocks: bool, restores: bool)
      returns (rc: HandlerCode)
      requires Valid()
      requires forall i :: 0 <= i < |during| ==> ValidSignalNum(sig, !HandlerIsFunction(during[i].act))
      modifies this
      ensures rc != Error ==> mask == old(mask)
      ensures OnlyAt(sig)
      ensures !ValidSignalNum(sig, false) ==> rc == Error && ran == old(ran)
      ensures ValidSignalNum(sig, false) ==>
                var s := old(At(sig));
                var runs := HandlerIsFunction(s.secondary) && blocks && (NoDefer in s.secondary.flags ==> unblocks);
                && rc == (if HandlerIsFunction(s.secondary) then if runs && restores then SignalHandled else Error
                          else if s.secondary.handler == Default then DefaultActionRequired else Error)
                && At(sig) == (if runs then Chain(s, resets, during) else s)
                && ran == old(ran) + if runs then [(s.secondary, HandlerMask(old(mask), s.secondary, sig))] else []
    {
      rc := Error;
      if !ValidSignalNum(sig, false) { return; }
      var previousMask := Lock();
      var secondary := sigData[sig].secondaryAction;
      Unlock(previousMask);
      if HandlerIsFunction(secondary) {
        var oldMask := mask;
        var ok := blocks;
        if ok { mask := mask + (secondary.mask + {sig}); }
        if ok && NoDefer in secondary.flags {
          ok := unblocks;
          if ok { mask := mask - {sig}; }
        }
        if ok {
          RunSecondary(sig, secondary, resets, during, maskAfter);
          ok := restores;
          if ok { mask := oldMask; }
        }
        if ok { rc := SignalHandled; }
      } else if secondary.handler == Default {
        rc := DefaultActionRequired;
      }
    }

    /** Reverts a one-shot action, then calls the handler. */
    method RunSecondary(sig: int, secondary: Action, resets: bool, during: seq<Registration>, maskAfter: set<int>)
      requires Valid() && ValidSignalNum(sig, false) && HandlerIsFunction(secondary) && secondary == At(sig).secondary
      requires forall i :: 0 <= i < |during| ==> ValidSignalNum(sig, !HandlerIsFunction(during[i].act))
      modifies this
      ensures OnlyAt(sig) && At(sig) == Chain(old(At(sig)), resets, during)
      ensures mask == maskAfter && ran == old(ran) + [(secondary, old(mask))]
    {
      if ResetHand in secondary.flags {
        var _, _ := SigactionInternal(sig, Some(Reset(secondary)), false, false, true, resets);
      }
      ran := ran + [(secondary, mask)];
      ghost var entered := At(sig);
      for i := 0 to |during|
        invariant OnlyAt(sig)
        invariant RegisterAll(entered, during) == RegisterAll(At(sig), during[i..])
        invariant ran == old(ran) + [(secondary, old(mask))]
      {
        assert during[i..][1..] == during[i + 1..];
        var _, _ := SigactionInternal(sig, Some(during[i].act), false, during[i].primary, true, during[i].accepted);
      }
      mask := maskAfter;
    }

    /** Two deliveries in a row: after a one-shot handler has run, the default action is required. */
    method DeliverTwice(sig: int, maskAfter: set<int>, unblocks: bool) returns (first: HandlerCode, second: HandlerCode)
      requires Valid() && ValidSignalNum(sig, false)
      requires var act := At(sig).secondary; act.handler.Function? && ResetHand in act.flags && (NoDefer in act.flags ==> unblocks)
      modifies this
      ensures first == SignalHandled && second == DefaultActionRequired && mask == old(mask)
      ensures OnlyAt(sig) && IsSpent(old(At(sig)).secondary, At(sig).secondary)
      ensures |ran| == |old(ran)| + 1
    {
      OneShotLeavesTheDefault(At(sig));
      first := OmrsigHandler(sig, true, [], maskAfter, true, unblocks, true);
      second := OmrsigHandler(sig, true, [], maskAfter, true, unblocks, true);
    }

    /** omrsig_primary_signal; None is SIG_ERR. */
    method PrimarySignal(signum: int, handler: Handler, queryWorks: bool, accepts: bool) returns (ret: Option<Handler>)
      requires Valid()
      modifies `sigData, `os, `mask
      ensures OnlyAt(signum) && mask == old(mask)
      ensures var act := Action(handler, {NoDefer, Restart}, {});
              if ValidSignalNum(signum, !HandlerIsFunction(act))
              then At(signum) == Register(old(At(signum)), true, act, accepts)
                   && ret == if accepts then Some(Previous(old(At(signum)), true, queryWorks).handler) else None
              else ret == None && sigData == old(sigData) && os == old(os)
    {
      var rc, oldact := SigactionInternal(signum, Some(Action(handler, {NoDefer, Restart}, {})), true, true, queryWorks, accepts);
      ret := if rc == 0 then Some(oldact.value.handler) else None;
    }

    /** omrsig_signal_internal, behind signal() and its relatives. */
    method SignalInternal(signum: int, handler: Handler, queryWorks: bool, accepts: bool) returns (ret: Option<Handler>)
      requires Valid()
      modifies `sigData, `os, `mask
      ensures OnlyAt(signum) && mask == old(mask)
      ensures var act := Action(handler, {NoDefer, ResetHand}, {});
              if ValidSignalNum(signum, !HandlerIsFunction(act))
              then At(signum) == Register(old(At(signum)), false, act, accepts)
                   && ret == if accepts then Some(Previous(old(At(signum)), false, queryWorks).handler) else None
              else ret == None && sigData == old(sigData) && os == old(os)
    {
      var rc, oldact := SigactionInternal(signum, Some(Action(handler, {NoDefer, ResetHand}, {})), true, false, queryWorks, accepts);
      ret := if rc == 0 then Some(oldact.value.handler) else None;
    }
  }

  // ---------- What the secondary user sees, run by run ----------

  /**
   One user registers (and asks for the old action), or only asks; or the signal arrives. What a handler registers
   while it runs comes after its one-shot reset, and so follows its delivery in a run.
   */
  datatype Event = Registers(r: Registration) | Queries(primary: bool) | Delivers

  /**
   The slot, whether the disposition in force is the primary's function, the actions the secondary user has been told
   of by calls that worked, and the secondary handlers that have run.
   */
  datatype Sys = Sys(slot: Slot, chained: bool, told: seq<Action>, handled: seq<Action>)

  /** The same for a user alone with a table of last registered actions. */
  datatype Plain = Plain(act: Action, told: seq<Action>, handled: seq<Action>)

  /** The action an arriving signal puts to work for the secondary user. */
  function Acting(s: Sys): Action {
    if s.chained then s.slot.secondary else s.slot.os
  }

  function Handled(act: Action): seq<Action> {
    if HandlerIsFunction(act) then [act] else []
  }

  /** The signal arrives: the system runs the primary, which chains, or the secondary itself. */
  function Deliver(s: Sys): Sys {
    var after := s.(handled := s.handled + Handled(Acting(s)));
    if !OneShot(Acting(s)) then after
    else if s.chained then after.(slot := Chain(s.slot, true, []), chained := HandlerIsFunction(s.slot.primary))
    else after.(slot := s.slot.(os := Reset(s.slot.os)))
  }

  function SysStep(s: Sys, e: Event): Sys {
    match e
    case Registers(r) =>
      var slot := Register(s.slot, r.primary, r.act, r.accepted);
      Sys(slot, if r.accepted then HandlerIsFunction(slot.primary) else s.chained,
          if r.primary || !r.accepted then s.told else s.told + [Previous(s.slot, false, true)], s.handled)
    case Queries(primary) => if primary then s else s.(told := s.told + [Previous(s.slot, false, true)])
    case Delivers => Deliver(s)
  }

  function PlainStep(p: Plain, e: Event): Plain {
    match e
    case Registers(r) => if r.primary || !r.accepted then p else Plain(r.act, p.told + [p.act], p.handled)
    case Queries(primary) => if primary then p else p.(told := p.told + [p.act])
    case Delivers => p.(act := Spend(p.act), handled := p.handled + Handled(p.act))
  }

  predicate OneShot(act: Action) {
    HandlerIsFunction(act) && ResetHand in act.flags
  }

  function Spend(act: Action): Action {
    if OneShot(act) then Reset(act) else act
  }

  function SysRun(es: seq<Event>, n: nat): Sys
    requires n <= |es|
  {
    if n == 0 then Sys(DEFAULT_SLOT, false, [], []) else SysStep(SysRun(es, n - 1), es[n - 1])
  }

  function PlainRun(es: seq<Event>, n: nat): Plain
    requires n <= |es|
  {
    if n == 0 then Plain(ZERO_ACTION, [], []) else PlainStep(PlainRun(es, n - 1), es[n - 1])
  }

  /** After the first `n` events, the secondary user would be told the plain table's action. */
  ghost predicate ToldTruly(es: seq<Event>, n: nat)
    requires n <= |es|
  {
    Previous(SysRun(es, n).slot, false, true) == PlainRun(es, n).act
  }

  /** A signal would run the secondary handler the plain table would run. */
  ghost predicate HandledTruly(es: seq<Event>, n: nat)
    requires n <= |es|
  {
    var s, p := SysRun(es, n), PlainRun(es, n);
    Deliver(s).handled[|s.handled|..] == PlainStep(p, Delivers).handled[|p.handled|..]
  }

  lemma HandledTrulyMeans(es: seq<Event>, n: nat)
    requires n <= |es|
    ensures HandledTruly(es, n) <==> Handled(Acting(SysRun(es, n))) == Handled(PlainRun(es, n).act)
  {
    var s, p := SysRun(es, n), PlainRun(es, n);
    assert Deliver(s).handled[|s.handled|..] == Handled(Acting(s));
    assert PlainStep(p, Delivers).handled[|p.handled|..] == Handled(p.act);
  }

  /** The plain table's one-shot action becomes the default too, and nothing else of it changes. */
  lemma PlainOneShotLeavesTheDefault(p: Plain)
    requires p.act.handler.Function?
    ensures if ResetHand in p.act.flags then IsSpent(p.act, PlainStep(p, Delivers).act) else PlainStep(p, Delivers).act == p.act
    ensures PlainStep(p, Delivers).handled == p.handled + [p.act]
  {
  }

  /** Through the primary, the reset is a registration like any other: it puts into force what the slots then hold. */
  lemma ChainedOneShotLeavesTheDefault(s: Sys)
    requires s.chained && s.slot.secondary.handler.Function? && ResetHand !in s.slot.primary.flags
    ensures Deliver(s).handled == s.handled + [s.slot.secondary] && Deliver(s).slot.primary == s.slot.primary
    ensures if ResetHand in s.slot.secondary.flags
            then && IsSpent(s.slot.secondary, Deliver(s).slot.secondary) && Coherent(Deliver(s).slot)
                 && (Deliver(s).chained <==> s.slot.primary.handler.Function?)
            else Deliver(s) == s.(handled := s.handled + [s.slot.secondary])
  {
  }

  /** And so does the disposition, when the system itself runs the handler. */
  lemma SystemOneShotLeavesTheDefault(s: Sys)
    requires !s.chained && s.slot.os.handler.Function?
    ensures if ResetHand in s.slot.os.flags then IsSpent(s.slot.os, Deliver(s).slot.os) else Deliver(s) == s.(handled := s.handled + [s.slot.os])
    ensures Deliver(s).handled == s.handled + [s.slot.os]
  {
  }

  // ---------- Refused registrations ----------

  /**
   A registration the system refuses stays in the slot. From a coherent slot the secondary user goes on being told the
   truth exactly when it was the stored action over again, or the system answers for itself.
   */
  lemma RefusedRegistrationsStick(s: Slot, act: Action)
    requires Coherent(s)
    ensures Previous(Register(s, false, act, false), false, true) == Previous(s, false, true) <==>
            act == s.secondary || (SigInfo !in s.os.flags && (s.os.handler == Default || s.os.handler == Ignore))
  {
  }

  /** The last action a user has registered, whatever the system's answer; none is one-shot for the primary user. */
  function LastRegistered(primary: bool, es: seq<Event>, n: nat): Action
    requires n <= |es|
  {
    if n == 0 then ZERO_ACTION
    else if es[n - 1].Registers? && es[n - 1].r.primary == primary
    then if primary then es[n - 1].r.act.(flags := es[n - 1].r.act.flags - {ResetHand}) else es[n - 1].r.act
    else LastRegistered(primary, es, n - 1)
  }

  /** The last action the secondary user has registered with success. */
  function LastAccepted(es: seq<Event>, n: nat): Action
    requires n <= |es|
  {
    if n == 0 then ZERO_ACTION
    else if es[n - 1].Registers? && !es[n - 1].r.primary && es[n - 1].r.accepted then es[n - 1].r.act
    else LastAccepted(es, n - 1)
  }

  /** How many events there were up to the last accepted registration, by either user. */
  function LastAnswer(es: seq<Event>, n: nat): (m: nat)
    requires n <= |es|
    ensures m <= n
  {
    if n == 0 then 0
    else if es[n - 1].Registers? && es[n - 1].r.accepted then n
    else LastAnswer(es, n - 1)
  }

  /** What was put into force then: the action last registered by the primary user, if a function, else by the secondary. */
  function InForce(es: seq<Event>, n: nat): Action
    requires n <= |es|
  {
    var m := LastAnswer(es, n);
    if HandlerIsFunction(LastRegistered(true, es, m)) then LastRegistered(true, es, m) else LastRegistered(false, es, m)
  }

  /** The action that answers for the secondary user: its last registered one, if it is reached through the primary's. */
  function Answering(es: seq<Event>, n: nat): Action
    requires n <= |es|
  {
    if HandlerIsFunction(LastRegistered(true, es, LastAnswer(es, n))) then LastRegistered(false, es, n) else InForce(es, n)
  }

  /** No one-shot action is ever used up: none is registered by the secondary user, or no signal arrives. */
  ghost predicate NothingIsSpent(es: seq<Event>) {
    || (forall k :: 0 <= k < |es| && es[k].Registers? && !es[k].r.primary ==> !OneShot(es[k].r.act))
    || (forall k :: 0 <= k < |es| ==> !es[k].Delivers?)
  }

  /** How slot, disposition and plain table follow from the registrations alone. */
  ghost predicate Follows(s: Sys, plain: Action, es: seq<Event>, n: nat)
    requires n <= |es|
  {
    && s.slot.primary == LastRegistered(true, es, n) && s.slot.secondary == LastRegistered(false, es, n)
    && plain == LastAccepted(es, n)
    && s.chained == HandlerIsFunction(LastRegistered(true, es, LastAnswer(es, n)))
    && (if s.chained then HandlerIsFunction(s.slot.os) else s.slot.os == InForce(es, n))
  }

  ghost predicate NoOneShots(s: Sys, plain: Action) {
    !OneShot(s.slot.secondary) && !OneShot(plain) && (!s.chained ==> !OneShot(s.slot.os))
  }

  lemma {:induction false} RunsFollowRegistrations(es: seq<Event>, n: nat)
    requires n <= |es| && NothingIsSpent(es)
    ensures Follows(SysRun(es, n), PlainRun(es, n).act, es, n)
    ensures (exists k :: 0 <= k < |es| && es[k].Delivers?) ==> NoOneShots(SysRun(es, n), PlainRun(es, n).act)
  {
    if n > 0 {
      RunsFollowRegistrations(es, n - 1);
      var e := es[n - 1];
    }
  }

  /**
   Secondary transparency, refusals included, in every run in which nothing is used up. At any point the secondary user is
   told the truth if and only if the action it last registered with success is the one in force, where the system answers
   for itself, or else the last it has registered at all; and signals run the right handler if and only if that is the
   action that answers, or neither is a function.
   */
  lemma SecondaryTransparency(es: seq<Event>, n: nat)
    requires n <= |es| && NothingIsSpent(es)
    ensures ToldTruly(es, n) <==>
            LastAccepted(es, n) == if Quiet(InForce(es, n)) then InForce(es, n) else LastRegistered(false, es, n)
    ensures HandledTruly(es, n) <==> Handled(LastAccepted(es, n)) == Handled(Answering(es, n))
  {
    RunsFollowRegistrations(es, n);
    HandledTrulyMeans(es, n);
  }

  /**
   The primary user is told its own last registration, with two exceptions: where the system answers for itself, it is told
   the action in force, which is the secondary's; and one-shot is never told.
   */
  lemma WhatThePrimaryIsTold(es: seq<Event>, n: nat)
    requires n <= |es| && NothingIsSpent(es)
    ensures var told, f := Previous(SysRun(es, n).slot, true, true), InForce(es, n);
            && told == (if SigInfo !in f.flags && (f.handler == Default || f.handler == Ignore) then f
                        else LastRegistered(true, es, n))
            && (HandlerIsFunction(LastRegistered(true, es, LastAnswer(es, n))) ==> told == LastRegistered(true, es, n))
            && ResetHand !in LastRegistered(true, es, n).flags
  {
    RunsFollowRegistrations(es, n);
    PrimaryIsNeverOneShot(es, n);
  }

  /** An accepted registration by the secondary user mends whatever has come apart, in any run at all. */
  lemma AcceptedRegistrationsMend(es: seq<Event>, n: nat, act: Action)
    requires n < |es| && es[n] == Registers(Registration(false, act, true))
    ensures ToldTruly(es, n + 1) && HandledTruly(es, n + 1) && PlainRun(es, n + 1).act == act
  {
    PrimaryIsNeverOneShot(es, n);
    HandledTrulyMeans(es, n + 1);
  }

  lemma {:induction false} PrimaryIsNeverOneShot(es: seq<Event>, n: nat)
    requires n <= |es|
    ensures ResetHand !in SysRun(es, n).slot.primary.flags
    ensures SysRun(es, n).chained ==> HandlerIsFunction(SysRun(es, n).slot.os) && !Quiet(SysRun(es, n).slot.os)
  {
    if n > 0 { PrimaryIsNeverOneShot(es, n - 1); }
  }

  // ---------- One-shot actions that come back ----------

  /** From event `k` up to `n` the system refuses nothing. */
  ghost predicate AllAccepted(es: seq<Event>, k: nat, n: nat)
    requires n <= |es|
  {
    forall j :: k <= j < n && es[j].Registers? ==> es[j].r.accepted
  }

  /** The run is in step after `k` events: it begins there, or the secondary user has just registered with success. */
  ghost predicate InStep(es: seq<Event>, k: nat)
    requires k <= |es|
  {
    k == 0 || (es[k - 1].Registers? && !es[k - 1].r.primary && es[k - 1].r.accepted)
  }

  /**
   Spent: the system itself has run a one-shot secondary and reset the disposition, which the slot does not know.
   Revived: the primary user has registered since, and the spent action is in force again.
   */
  datatype Revival = Fresh | Spent | Revived

  function NextRevival(v: Revival, s: Sys, e: Event): Revival {
    match e
    case Registers(r) => if !r.primary || v == Fresh then Fresh else Revived
    case Queries(_) => v
    case Delivers =>
      if !OneShot(Acting(s)) then v
      else if s.chained then Fresh
      else Spent
  }

  /** What has become of one-shot actions since event `k`. */
  function RevivalSince(es: seq<Event>, k: nat, n: nat): Revival
    requires k <= n <= |es|
    decreases n
  {
    if n == k then Fresh else NextRevival(RevivalSince(es, k, n - 1), SysRun(es, n - 1), es[n - 1])
  }

  ghost predicate Related(v: Revival, s: Sys, plain: Action) {
    && ResetHand !in s.slot.primary.flags && s.chained == HandlerIsFunction(s.slot.primary)
    && match v
       case Fresh => Coherent(s.slot) && s.slot.secondary == plain
       case Spent => OneShot(s.slot.secondary) && !s.chained && s.slot.os == Reset(s.slot.secondary) == plain
       case Revived => OneShot(s.slot.secondary) && Coherent(s.slot) && plain == Reset(s.slot.secondary)
  }

  lemma {:induction false} RevivalRelates(es: seq<Event>, k: nat, n: nat)
    requires k <= n <= |es| && InStep(es, k) && AllAccepted(es, k, n)
    ensures Related(RevivalSince(es, k, n), SysRun(es, n), PlainRun(es, n).act)
    decreases n
  {
    if n == k {
      if k > 0 { PrimaryIsNeverOneShot(es, k - 1); }
    } else {
      RevivalRelates(es, k, n - 1);
      assert es[n - 1].Registers? ==> es[n - 1].r.accepted;
    }
  }

  /**
   As long as the system has refused nothing since the run was last in step, deliveries and one-shot actions included:
   the secondary user is told the truth, and signals are handled as due, if and only if the primary user has not
   registered between the system's running a one-shot secondary and the secondary's next registration.
   */
  lemma TransparentUnlessRevived(es: seq<Event>, k: nat, n: nat)
    requires k <= n <= |es| && InStep(es, k) && AllAccepted(es, k, n)
    ensures ToldTruly(es, n) <==> RevivalSince(es, k, n) != Revived
    ensures HandledTruly(es, n) <==> RevivalSince(es, k, n) != Revived
  {
    RevivalRelates(es, k, n);
    HandledTrulyMeans(es, n);
    var s, p := SysRun(es, n), PlainRun(es, n);
    if RevivalSince(es, k, n) == Revived {
      assert |Handled(Acting(s))| == 1 && |Handled(p.act)| == 0;
    } else {
      assert Handled(Acting(s)) == Handled(p.act);
    }
  }

  /**
   What the user is told after one refusal in such a run: the truth, if it repeated the action due, or the system had
   reset a one-shot action, or the action due is one the system answers for and no primary function is in force.
   Otherwise not.
   */
  lemma RefusalInARun(es: seq<Event>, k: nat, n: nat, act: Action)
    requires k <= n < |es| && InStep(es, k) && AllAccepted(es, k, n)
    requires es[n] == Registers(Registration(false, act, false))
    ensures var s, due := SysRun(es, n), PlainRun(es, n).act;
            ToldTruly(es, n + 1) <==>
            || act == due
            || RevivalSince(es, k, n) == Spent
            || (RevivalSince(es, k, n) == Fresh && Quiet(due) && !s.chained)
  {
    RevivalRelates(es, k, n);
  }

  ghost predicate SameHistories(es: seq<Event>, n: nat)
    requires n <= |es|
  {
    SysRun(es, n).told == PlainRun(es, n).told && SysRun(es, n).handled == PlainRun(es, n).handled
  }

  lemma HistoriesGoOn(es: seq<Event>, n: nat)
    requires n < |es| && SameHistories(es, n) && ToldTruly(es, n) && HandledTruly(es, n)
    ensures SameHistories(es, n + 1)
  {
    HandledTrulyMeans(es, n);
    var s, p := SysRun(es, n), PlainRun(es, n);
    assert SysRun(es, n + 1) == SysStep(s, es[n]) && PlainRun(es, n + 1) == PlainStep(p, es[n]);
  }

  /** Until an action is revived, everything told and every secondary handler run is as in the plain table. */
  lemma {:induction false} HistoriesAgree(es: seq<Event>, n: nat)
    requires n <= |es| && AllAccepted(es, 0, n) && forall j :: 0 <= j < n ==> RevivalSince(es, 0, j) != Revived
    ensures SameHistories(es, n)
  {
    if n > 0 {
      HistoriesAgree(es, n - 1);
      assert RevivalSince(es, 0, n - 1) != Revived;
      TransparentUnlessRevived(es, 0, n - 1);
      HistoriesGoOn(es, n - 1);
    }
  }

  /** Without deliveries, every interleaving of the two users is transparent. */
  lemma RegistrationsAloneAreTransparent(es: seq<Event>, n: nat)
    requires n <= |es| && AllAccepted(es, 0, n) && forall k :: 0 <= k < n ==> !es[k].Delivers?
    ensures ToldTruly(es, n) && SysRun(es, n).told == PlainRun(es, n).told
  {
    forall j | 0 <= j <= n ensures RevivalSince(es, 0, j) == Fresh { RegistrationsReviveNothing(es, j); }
    TransparentUnlessRevived(es, 0, n);
    HistoriesAgree(es, n);
  }

  lemma {:induction false} RegistrationsReviveNothing(es: seq<Event>, n: nat)
    requires n <= |es| && forall k :: 0 <= k < n ==> !es[k].Delivers?
    ensures RevivalSince(es, 0, n) == Fresh
  {
    if n > 0 { RegistrationsReviveNothing(es, n - 1); }
  }

  /** The failing case: a one-shot secondary runs without a primary, which then registers. */
  lemma SpentActionsCanRevive()
    ensures var f, g := Action(Function(1), {ResetHand}, {}), Action(Function(2), {}, {});
            var es := [Registers(Registration(false, f, true)), Delivers, Registers(Registration(true, g, true)),
                       Queries(false), Delivers];
            && SysRun(es, 5).told == [ZERO_ACTION, f] && PlainRun(es, 5).told == [ZERO_ACTION, Reset(f)]
            && SysRun(es, 5).handled == [f, f] && PlainRun(es, 5).handled == [f]
  {
    var f, g := Action(Function(1), {ResetHand}, {}), Action(Function(2), {}, {});
    var es := [Registers(Registration(false, f, true)), Delivers, Registers(Registration(true, g, true)),
               Queries(false), Delivers];
    var s1 := Sys(Slot(ZERO_ACTION, f, f), false, [ZERO_ACTION], []);
    var s2 := Sys(Slot(ZERO_ACTION, f, Reset(f)), false, [ZERO_ACTION], [f]);
    assert SysStep(SysRun(es, 0), es[0]) == s1;
    assert SysStep(s1, es[1]) == s2;
    RevivedRun(s2, f, g);
    assert SysRun(es, 1) == s1 && SysRun(es, 2) == s2;
    assert SysRun(es, 3) == SysStep(s2, es[2]);
    assert SysRun(es, 4) == SysStep(SysStep(s2, es[2]), es[3]);
    var p1 := Plain(f, [ZERO_ACTION], []);
    var p2 := Plain(Reset(f), [ZERO_ACTION], [f]);
    assert PlainRun(es, 1) == p1;
    assert PlainRun(es, 2) == p2 == PlainRun(es, 3);
    assert PlainRun(es, 4) == p2.(told := [ZERO_ACTION, Reset(f)]) == PlainRun(es, 5);
  }

  lemma RevivedRun(s2: Sys, f: Action, g: Action)
    requires s2 == Sys(Slot(ZERO_ACTION, f, Reset(f)), false, [ZERO_ACTION], [f])
    requires f == Action(Function(1), {ResetHand}, {}) && g == Action(Function(2), {}, {})
    ensures var s5 := SysStep(SysStep(SysStep(s2, Registers(Registration(true, g, true))), Queries(false)), Delivers);
            s5.told == [ZERO_ACTION, f] && s5.handled == [f, f]
  {
    var s3 := SysStep(s2, Registers(Registration(true, g, true)));
    assert s3.slot.primary == g && s3.slot.secondary == f && s3.slot.os.handler == Function(2);
    assert SysStep(s3, Queries(false)).told == [ZERO_ACTION] + [f];
  }

  // ---------- One-shot handlers ----------

  /** How often `a` is among the first `n` handlers run. */
  function RunsOf(a: Action, acts: seq<Action>, n: nat): nat
    requires n <= |acts|
  {
    if n == 0 then 0 else RunsOf(a, acts, n - 1) + if acts[n - 1] == a then 1 else 0
  }

  /** How often the secondary user has registered `a` in the first `n` events; refusals count on request. */
  ghost function RegistrationsOf(a: Action, es: seq<Event>, n: nat, refusedToo: bool): nat
    requires n <= |es|
  {
    if n == 0 then 0
    else RegistrationsOf(a, es, n - 1, refusedToo) +
         match es[n - 1]
         case Registers(r) => if !r.primary && r.act == a && (r.accepted || refusedToo) then 1 else 0
         case Queries(_) => 0
         case Delivers => 0
  }

  lemma {:induction false} RunsGrow(a: Action, acts: seq<Action>, act: Action, n: nat)
    requires n <= |acts|
    ensures RunsOf(a, acts + Handled(act), n) == RunsOf(a, acts, n)
    ensures n == |acts| ==> RunsOf(a, acts + Handled(act), |acts + Handled(act)|)
                            == RunsOf(a, acts, n) + if HandlerIsFunction(act) && act == a then 1 else 0
  {
    if n > 0 { RunsGrow(a, acts, act, n - 1); }
  }

  /** In the plain table each one-shot action runs at most as often as it was registered, and once less while it waits. */
  lemma {:induction false} PlainOneShots(a: Action, es: seq<Event>, n: nat)
    requires n <= |es| && OneShot(a)
    ensures var p := PlainRun(es, n);
            RunsOf(a, p.handled, |p.handled|) + (if p.act == a then 1 else 0) <= RegistrationsOf(a, es, n, false)
  {
    if n > 0 {
      PlainOneShots(a, es, n - 1);
      var p := PlainRun(es, n - 1);
      RunsGrow(a, p.handled, p.act, |p.handled|);
    }
  }

  /** So it does under chaining, action by action, in every run in which no spent action has been revived. */
  lemma OneShotsRunOnce(a: Action, es: seq<Event>, n: nat)
    requires n <= |es| && OneShot(a)
    requires AllAccepted(es, 0, n) && forall j :: 0 <= j < n ==> RevivalSince(es, 0, j) != Revived
    ensures RunsOf(a, SysRun(es, n).handled, |SysRun(es, n).handled|) <= RegistrationsOf(a, es, n, false)
  {
    HistoriesAgree(es, n);
    PlainOneShots(a, es, n);
  }

  /** A run whose signals all arrive while the primary's function is in force goes through omrsig_handler alone. */
  ghost predicate Chained(es: seq<Event>) {
    forall k :: 0 <= k < |es| && es[k].Delivers? ==> SysRun(es, k).chained
  }

  /**
   Through omrsig_handler, each one-shot action runs at most once per registration, whatever else happens, as long as
   one delivery ends before the next begins; a refused registration counts, since it is in the slot.
   */
  lemma {:induction false} ChainedOneShotsRunOnce(a: Action, es: seq<Event>, n: nat)
    requires n <= |es| && Chained(es) && OneShot(a)
    ensures var s := SysRun(es, n);
            RunsOf(a, s.handled, |s.handled|) + (if s.slot.secondary == a then 1 else 0) <= RegistrationsOf(a, es, n, true)
  {
    if n > 0 {
      ChainedOneShotsRunOnce(a, es, n - 1);
      var s := SysRun(es, n - 1);
      RunsGrow(a, s.handled, Acting(s), |s.handled|);
    }
  }
}
