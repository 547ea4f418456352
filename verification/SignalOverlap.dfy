/**
 Deliveries that overlap (omrsigcompat/omrsig.cpp:111-195). omrsig_handler copies the secondary action under the lock,
 and only later, having blocked the signal, resets a one-shot action and calls the copy. In between, other threads may
 do the same, or register; so may the same thread, if the primary's handler was entered with the signal unblocked.
 */
module SignalOverlap {
  import opened SignalChain

  /** An action and the number of the registration that stored it, or UNREGISTERED if a reset did. */
  datatype Copy = Copy(act: Action, tag: int)

  const UNREGISTERED: int := -1

  /** A delivery copies the slot; later it enters its copy. In between and around it, the secondary user registers. */
  datatype Step = Stores(act: Action) | Copies | Enters(c: Copy)

  /** The slot, how many registrations it has seen, the copies of deliveries on their way, and the copies entered. */
  datatype State = State(current: Copy, registrations: nat, pending: multiset<Copy>, ran: multiset<Copy>)

  function After(s: State, e: Step): State {
    match e
    case Stores(act) => s.(current := Copy(act, s.registrations), registrations := s.registrations + 1)
    case Copies =>
      if HandlerIsFunction(s.current.act) then s.(pending := s.pending + multiset{s.current}) else s
    case Enters(c) =>
      if c !in s.pending then s
      else State(if OneShot(c.act) then Copy(Reset(c.act), UNREGISTERED) else s.current, s.registrations,
                 s.pending - multiset{c}, s.ran + multiset{c})
  }

  function Run(es: seq<Step>, n: nat): State
    requires n <= |es|
  {
    if n == 0 then State(Copy(ZERO_ACTION, UNREGISTERED), 0, multiset{}, multiset{}) else After(Run(es, n - 1), es[n - 1])
  }

  predicate IsCopied(s: State, e: Step, c: Copy) {
    e.Copies? && s.current == c && HandlerIsFunction(c.act)
  }

  /** How many of the first `n` steps copy `c`. */
  ghost function CopiesOf(c: Copy, es: seq<Step>, n: nat): nat
    requires n <= |es|
  {
    if n == 0 then 0
    else CopiesOf(c, es, n - 1) + if IsCopied(Run(es, n - 1), es[n - 1], c) then 1 else 0
  }

  /** Step `k` copies an action that another delivery has copied and not yet entered. */
  ghost predicate Overlaps(c: Copy, es: seq<Step>, k: nat)
    requires k < |es|
  {
    IsCopied(Run(es, k), es[k], c) && c in Run(es, k).pending
  }

  /** What the proofs keep of a state about one copy: how often it is pending and entered, and that it has a number. */
  ghost predicate Tallies(s: State, c: Copy, copies: nat) {
    && s.ran[c] + s.pending[c] == copies
    && s.current.tag < s.registrations && (copies > 0 ==> c.tag < s.registrations)
    && (OneShot(c.act) && s.ran[c] > 0 ==> s.current != c)
  }

  lemma StepTallies(s: State, e: Step, c: Copy, copies: nat)
    requires Tallies(s, c, copies)
    ensures Tallies(After(s, e), c, copies + if IsCopied(s, e, c) then 1 else 0)
  {
  }

  /**
   Every delivery that has copied has either entered its copy or is on its way; registrations have numbers of their
   own; and a one-shot action that has been entered has left the slot for good.
   */
  lemma {:induction false} NoDeliveryIsLost(c: Copy, es: seq<Step>, n: nat)
    requires n <= |es|
    ensures Tallies(Run(es, n), c, CopiesOf(c, es, n))
  {
    if n > 0 {
      NoDeliveryIsLost(c, es, n - 1);
      StepTallies(Run(es, n - 1), es[n - 1], c, CopiesOf(c, es, n - 1));
    }
  }

  /** A copy of a one-shot action overlaps exactly when it is not the first. */
  lemma OverlapsUnlessFirst(c: Copy, es: seq<Step>, k: nat)
    requires k < |es| && OneShot(c.act)
    ensures Overlaps(c, es, k) <==> IsCopied(Run(es, k), es[k], c) && CopiesOf(c, es, k) > 0
  {
    NoDeliveryIsLost(c, es, k);
  }

  lemma {:induction false} CopiesGrow(c: Copy, es: seq<Step>, k: nat, n: nat)
    requires k <= n <= |es|
    ensures CopiesOf(c, es, k) <= CopiesOf(c, es, n)
  {
    if k < n { CopiesGrow(c, es, k, n - 1); }
  }

  lemma {:induction false} LastCopy(c: Copy, es: seq<Step>, n: nat) returns (k: nat)
    requires n <= |es| && CopiesOf(c, es, n) > 1
    ensures k < n && IsCopied(Run(es, k), es[k], c) && CopiesOf(c, es, k) > 0
  {
    if IsCopied(Run(es, n - 1), es[n - 1], c) {
      k := n - 1;
    } else {
      k := LastCopy(c, es, n - 1);
    }
  }

  lemma OverlapIsSecond(c: Copy, es: seq<Step>, k: nat, n: nat)
    requires k < n <= |es| && OneShot(c.act) && Overlaps(c, es, k)
    ensures CopiesOf(c, es, n) > 1
  {
    OverlapsUnlessFirst(c, es, k);
    CopiesGrow(c, es, k + 1, n);
  }

  /** A one-shot action is copied twice exactly when one of the copies overlaps another. */
  lemma TwoCopiesOverlap(c: Copy, es: seq<Step>, n: nat)
    requires n <= |es| && OneShot(c.act)
    ensures CopiesOf(c, es, n) > 1 <==> exists k :: 0 <= k < n && Overlaps(c, es, k)
  {
    if CopiesOf(c, es, n) > 1 {
      var k := LastCopy(c, es, n);
      OverlapsUnlessFirst(c, es, k);
    } else {
      forall k | 0 <= k < n ensures !Overlaps(c, es, k) {
        if Overlaps(c, es, k) { OverlapIsSecond(c, es, k, n); }
      }
    }
  }

  /**
   In every interleaving, once all deliveries that copied it have entered: a one-shot registration has run at most once
   if and only if no delivery copied it between another's copy and that other's reset.
   */
  lemma OnceUnlessOverlapping(c: Copy, es: seq<Step>, n: nat)
    requires n <= |es| && OneShot(c.act) && c !in Run(es, n).pending
    ensures Run(es, n).ran[c] <= 1 <==> !exists k :: 0 <= k < n && Overlaps(c, es, k)
  {
    NoDeliveryIsLost(c, es, n);
    assert Run(es, n).ran[c] == CopiesOf(c, es, n);
    TwoCopiesOverlap(c, es, n);
  }

  /** A delivery that enters a one-shot copy throws out a registration made since the copy. */
  ghost predicate Overwrites(es: seq<Step>, k: nat)
    requires k < |es|
  {
    var s := Run(es, k);
    es[k].Enters? && es[k].c in s.pending && OneShot(es[k].c.act) && s.current != es[k].c && s.current.tag != UNREGISTERED
  }

  /** Step `j` enters a one-shot copy, whichever, and resets the slot. */
  ghost predicate Resets(es: seq<Step>, j: nat)
    requires j < |es|
  {
    es[j].Enters? && es[j].c in Run(es, j).pending && OneShot(es[j].c.act)
  }

  /** How many of the first `n` steps register. */
  function Registrations(es: seq<Step>, n: nat): nat
    requires n <= |es|
  {
    if n == 0 then 0 else Registrations(es, n - 1) + if es[n - 1].Stores? then 1 else 0
  }

  lemma RunAdvances(es: seq<Step>, n: nat, m: nat)
    requires n < |es| && m == n + 1
    ensures Run(es, m) == After(Run(es, n), es[n])
  {
  }

  ghost predicate Numbered(s: State, registrations: nat) {
    s.registrations == registrations
  }

  lemma StepNumbers(s: State, e: Step, registrations: nat)
    requires Numbered(s, registrations)
    ensures Numbered(After(s, e), registrations + if e.Stores? then 1 else 0)
  {
  }

  lemma {:induction false} RegistrationsAreNumbered(es: seq<Step>, n: nat)
    requires n <= |es|
    ensures Numbered(Run(es, n), Registrations(es, n))
  {
    if n > 0 {
      RegistrationsAreNumbered(es, n - 1);
      StepNumbers(Run(es, n - 1), es[n - 1], Registrations(es, n - 1));
    }
  }

  lemma {:induction false} NumbersGrow(es: seq<Step>, k: nat, n: nat)
    requires k < n <= |es| && es[k].Stores?
    ensures Registrations(es, k) < Registrations(es, n)
  {
    if k < n - 1 { NumbersGrow(es, k, n - 1); }
  }

  /** The registration made by step `k` is in the slot after `n` steps. */
  ghost predicate InTheSlot(es: seq<Step>, k: nat, n: nat)
    requires k < n <= |es| && es[k].Stores?
  {
    Run(es, n).current == Copy(es[k].act, Registrations(es, k))
  }

  lemma StepReplaces(s: State, e: Step, c: Copy)
    requires 0 <= c.tag < s.registrations
    ensures After(s, e).current == c <==>
            s.current == c && !e.Stores? && !(e.Enters? && e.c in s.pending && OneShot(e.c.act))
  {
  }

  /** One step replaces what is in the slot exactly by storing or resetting, and brings no earlier registration back. */
  lemma ReplacedWhen(es: seq<Step>, k: nat, n: nat, m: nat)
    requires k < n < |es| && es[k].Stores? && m == n + 1
    ensures InTheSlot(es, k, m) <==> InTheSlot(es, k, n) && !es[n].Stores? && !Resets(es, n)
  {
    RegistrationsAreNumbered(es, n);
    NumbersGrow(es, k, n);
    StepReplaces(Run(es, n), es[n], Copy(es[k].act, Registrations(es, k)));
    RunAdvances(es, n, m);
  }

  lemma JustRegistered(es: seq<Step>, k: nat, n: nat)
    requires k < |es| && es[k].Stores? && n == k + 1
    ensures InTheSlot(es, k, n)
  {
    RegistrationsAreNumbered(es, k);
    RunAdvances(es, k, n);
  }

  /**
   In every interleaving, the registration made by step `k` is still in the slot after `n` steps if and only if there has
   been no other since, and no delivery has entered a one-shot copy: neither its own nor, overwriting it, a stale one.
   */
  lemma {:induction false} StaysInTheSlot(es: seq<Step>, k: nat, n: nat)
    requires k < n <= |es| && es[k].Stores?
    ensures InTheSlot(es, k, n) <==> forall j :: k < j < n ==> !es[j].Stores? && !Resets(es, j)
  {
    var m := n - 1;
    if k < m {
      StaysInTheSlot(es, k, m);
      ReplacedWhen(es, k, m, n);
    } else {
      JustRegistered(es, k, n);
    }
  }

  /** Two overlapping deliveries: the one-shot handler runs twice, and its own re-registration is thrown out. */
  lemma OverlapsRunTwice(es: seq<Step>, f: Action, g: Action)
    requires OneShot(f)
    requires es == [Stores(f), Copies, Copies, Enters(Copy(f, 0)), Stores(g), Enters(Copy(f, 0))]
    ensures Run(es, 6).ran[Copy(f, 0)] == 2 && Run(es, 6).current.act == Reset(f)
    ensures Overlaps(Copy(f, 0), es, 2) && Overwrites(es, 5)
  {
    var c := Copy(f, 0);
    var s1, s2, s3 := Run(es, 1), Run(es, 2), Run(es, 3);
    assert s1 == After(Run(es, 0), es[0]) && s1.current == c;
    assert s2 == After(s1, es[1]) && s2.current == c && s2.pending[c] == 1 && s2.ran[c] == 0;
    assert s3 == After(s2, es[2]) && s3.current == c && s3.pending[c] == 2 && s3.ran[c] == 0;
    var s4, s5 := Run(es, 4), Run(es, 5);
    assert s4 == After(s3, es[3]) && s4.registrations == 1 && s4.pending[c] == 1 == s4.ran[c];
    assert s5 == After(s4, es[4]) && s5.current == Copy(g, 1) && s5.pending[c] == 1 == s5.ran[c];
    assert Run(es, 6) == After(s5, es[5]);
  }
}
