/**
 The circular thread list of a VM (include_core/omrlinkedlist.h, omr/OMR_VM.cpp): attaching and detaching threads,
 and freeing all but the current one in the child of a fork.
 */
module ThreadList {
  import opened Options

  datatype Error = NoError | MaximumThreadCountExceeded

  class VMThread {
    var linkNext: VMThread?
    var linkPrevious: VMThread?
    var osThread: int
    const internal: bool

    constructor (osThread: int, internal: bool)
      ensures this.osThread == osThread && this.internal == internal
    {
      this.osThread, this.internal := osThread, internal;
      linkNext, linkPrevious := null, null;
    }
  }

  /** How many of `ts` are internal, or how many are not. */
  function CountKind(ts: seq<VMThread>, internal: bool): nat {
    if ts == [] then 0
    else CountKind(ts[..|ts| - 1], internal) + if ts[|ts| - 1].internal == internal then 1 else 0
  }

  function Without(ts: seq<VMThread>, k: nat): seq<VMThread>
    requires k < |ts|
  {
    ts[..k] + ts[k + 1..]
  }

  lemma {:induction false} CountWithout(ts: seq<VMThread>, k: nat, internal: bool)
    requires k < |ts|
    ensures CountKind(Without(ts, k), internal) + (if ts[k].internal == internal then 1 else 0) == CountKind(ts, internal)
  {
    var last := |ts| - 1;
    if k < last {
      CountWithout(ts[..last], k, internal);
      assert Without(ts, k)[..last - 1] == Without(ts[..last], k);
    } else {
      assert Without(ts, k) == ts[..last];
    }
  }

  lemma {:induction false} KindsAddUp(ts: seq<VMThread>)
    ensures CountKind(ts, true) + CountKind(ts, false) == |ts|
  {
    if ts != [] { KindsAddUp(ts[..|ts| - 1]); }
  }

  lemma CountWith(ts: seq<VMThread>, t: VMThread, internal: bool)
    ensures CountKind(ts + [t], internal) == CountKind(ts, internal) + if t.internal == internal then 1 else 0
  {
    assert (ts + [t])[..|ts|] == ts;
  }

  /** `root` heads a circle of exactly the threads `ts`, in order, linked both ways. */
  ghost predicate Circle(root: VMThread?, ts: seq<VMThread>)
    reads ts
  {
    && (root == null <==> ts == [])
    && (forall i, j :: 0 <= i < j < |ts| ==> ts[i] != ts[j])
    && (ts != [] ==>
          && root == ts[0]
          && ts[|ts| - 1].linkNext == ts[0] && ts[0].linkPrevious == ts[|ts| - 1]
          && (forall i {:trigger ts[i].linkNext} :: 0 <= i < |ts| - 1 ==> ts[i].linkNext == ts[i + 1])
          && (forall i {:trigger ts[i].linkPrevious} :: 0 < i < |ts| ==> ts[i].linkPrevious == ts[i - 1]))
  }

  /** Next and previous are inverse to each other on every member, and stay inside the list. */
  lemma LinksAreInverse(root: VMThread?, ts: seq<VMThread>, t: VMThread)
    requires Circle(root, ts) && t in ts
    ensures t.linkNext in ts && t.linkPrevious in ts
    ensures t.linkNext.linkPrevious == t && t.linkPrevious.linkNext == t
  {
    var i :| 0 <= i < |ts| && ts[i] == t;
    if i + 1 < |ts| { assert ts[i + 1].linkPrevious == t; }
    if i > 0 { assert ts[i - 1].linkNext == t; }
  }

  /** J9_LINKED_LIST_ADD_LAST. */
  method AddLast(root: VMThread?, element: VMThread, ghost ts: seq<VMThread>) returns (newRoot: VMThread)
    requires Circle(root, ts) && element !in ts
    modifies ts, element
    ensures Circle(newRoot, ts + [element])
    ensures forall t :: t in ts + [element] ==> t.osThread == old(t.osThread)
  {
    if root == null {
      newRoot := element;
      element.linkNext, element.linkPrevious := element, element;
    } else {
      newRoot := root;
      element.linkNext := root;
      element.linkPrevious := root.linkPrevious;
      element.linkPrevious.linkNext := element;
      root.linkPrevious := element;
    }
  }

  /** J9_LINKED_LIST_REMOVE of the k-th thread. */
  method Remove(root: VMThread, element: VMThread, ghost ts: seq<VMThread>, ghost k: nat) returns (newRoot: VMThread?)
    requires Circle(root, ts) && k < |ts| && ts[k] == element
    modifies ts
    ensures Circle(newRoot, Without(ts, k))
    ensures forall t :: t in ts ==> t.osThread == old(t.osThread)
  {
    newRoot := root;
    LinksAreInverse(root, ts, element);
    if element == root {
      if element.linkNext == element {
        newRoot := null;
      } else {
        newRoot := element.linkNext;
      }
    }
    element.linkPrevious.linkNext := element.linkNext;
    element.linkNext.linkPrevious := element.linkPrevious;
  }

  /** The threads among the first `n` other than the one at `keep`. */
  ghost function Others(ts: seq<VMThread>, n: nat, keep: nat): set<VMThread>
    requires n <= |ts|
  {
    if n == 0 then {} else Others(ts, n - 1, keep) + if n - 1 == keep then {} else {ts[n - 1]}
  }

  lemma {:induction false} OthersAreTheOthers(ts: seq<VMThread>, n: nat, keep: nat)
    requires n <= |ts|
    ensures forall t :: t in Others(ts, n, keep) <==> exists j :: 0 <= j < n && j != keep && ts[j] == t
  {
    if n > 0 { OthersAreTheOthers(ts, n - 1, keep); }
  }

  class VM {
    const maximumThreadCount: nat
    var vmThreadList: VMThread?
    var languageThreadCount: nat
    var internalThreadCount: nat
    /** Thread-local storage under this VM's key. */
    var tls: map<int, VMThread?>
    /** The attached threads in attach order, and the threads whose memory has been freed. */
    ghost var threads: seq<VMThread>
    ghost var freed: set<VMThread>

    ghost predicate Valid()
      reads this, threads
    {
      && Circle(vmThreadList, threads)
      && languageThreadCount == CountKind(threads, false)
      && internalThreadCount == CountKind(threads, true)
      && (maximumThreadCount != 0 ==> languageThreadCount <= maximumThreadCount)
      && forall t :: t in threads ==> t !in freed
    }

    /** The two counters together count the list. */
    lemma CountersCoverTheList()
      requires Valid()
      ensures languageThreadCount + internalThreadCount == |threads|
    {
      KindsAddUp(threads);
    }

    constructor (maximumThreadCount: nat)
      ensures Valid() && threads == [] && freed == {} && this.maximumThreadCount == maximumThreadCount
    {
      this.maximumThreadCount := maximumThreadCount;
      vmThreadList, languageThreadCount, internalThreadCount, tls := null, 0, 0, map[];
      threads, freed := [], {};
    }

    /** attachThread. The thread-local slot is that of `vmthread`, whoever calls, and is set even when it is refused. */
    method AttachThread(vmthread: VMThread) returns (rc: Error)
      requires Valid() && vmthread !in threads && vmthread !in freed
      modifies this, threads, vmthread
      ensures Valid() && freed == old(freed)
      ensures rc == NoError <==>
              vmthread.internal || maximumThreadCount == 0 || old(languageThreadCount) < maximumThreadCount
      ensures threads == if rc == NoError then old(threads) + [vmthread] else old(threads)
      ensures tls == old(tls)[old(vmthread.osThread) := vmthread]
      ensures forall t :: t in threads ==> t.osThread == old(t.osThread)
    {
      rc := NoError;
      if vmthread.internal || maximumThreadCount == 0 || languageThreadCount < maximumThreadCount {
        AddThread(vmthread);
      } else {
        rc := MaximumThreadCountExceeded;
      }
      tls := tls[vmthread.osThread := vmthread];
    }

    /** The list and the counters, once a thread has been admitted. */
    method AddThread(vmthread: VMThread)
      requires Valid() && vmthread !in threads && vmthread !in freed
      requires vmthread.internal || maximumThreadCount == 0 || languageThreadCount < maximumThreadCount
      modifies `vmThreadList, `threads, `internalThreadCount, `languageThreadCount, threads, vmthread
      ensures Valid() && threads == old(threads) + [vmthread]
      ensures forall t :: t in threads ==> t.osThread == old(t.osThread)
    {
      CountWith(threads, vmthread, true);
      CountWith(threads, vmthread, false);
      vmThreadList := AddLast(vmThreadList, vmthread, threads);
      threads := threads + [vmthread];
      if vmthread.internal {
        internalThreadCount := internalThreadCount + 1;
      } else {
        languageThreadCount := languageThreadCount + 1;
      }
    }

    /** detachThread of the k-th thread. */
    method DetachThread(vmthread: VMThread, ghost k: nat)
      requires Valid() && k < |threads| && threads[k] == vmthread
      modifies this, threads
      ensures Valid() && freed == old(freed)
      ensures threads == Without(old(threads), k)
      ensures tls == old(tls)[old(vmthread.osThread) := null]
      ensures forall t :: t in old(threads) ==> t.osThread == old(t.osThread)
    {
      RemoveThread(vmthread, k);
      tls := tls[vmthread.osThread := null];
    }

    /** The counters and the list, without the k-th thread. */
    method RemoveThread(vmthread: VMThread, ghost k: nat)
      requires Valid() && k < |threads| && threads[k] == vmthread
      modifies `vmThreadList, `threads, `internalThreadCount, `languageThreadCount, threads
      ensures Valid() && threads == Without(old(threads), k)
      ensures forall t :: t in old(threads) ==> t.osThread == old(t.osThread)
    {
      CountWithout(threads, k, true);
      CountWithout(threads, k, false);
      if vmthread.internal {
        internalThreadCount := internalThreadCount - 1;
      } else {
        languageThreadCount := languageThreadCount - 1;
      }
      vmThreadList := Remove(vmThreadList, vmthread, threads, k);
      threads := Without(threads, k);
    }

    // ---------- Fork ----------

    /** Reading a thread record is legal until it has been freed. */
    function NextOf(t: VMThread): VMThread?
      requires t !in freed
      reads this, t
    {
      t.linkNext
    }

    function OsThreadOf(t: VMThread): int
      requires t !in freed
      reads this, t
    {
      t.osThread
    }

    /** Freed memory may hold anything afterwards. */
    method Free(t: VMThread)
      requires t !in freed
      modifies `freed, t
      ensures freed == old(freed) + {t}
    {
      freed := freed + {t};
      t.linkNext, t.linkPrevious, t.osThread := null, null, 0;
    }

    /**
     omr_vm_postForkChild: finds the current thread, at `keep`, and frees the rest, each once and without looking at
     it again; a circle of one remains, with counts of its kind.
     */
    method PostForkChild(self: int, ghost keep: nat)
      requires Valid() && keep < |threads|
      requires forall i :: 0 <= i < |threads| ==> (threads[i].osThread == self <==> i == keep)
      modifies this, threads
      ensures Valid() && threads == [old(threads)[keep]]
      ensures forall t :: t in freed <==> t in old(freed) || (t in old(threads) && t != old(threads)[keep])
      ensures languageThreadCount + internalThreadCount == 1
      ensures internalThreadCount == 1 <==> old(threads)[keep].internal
    {
      ghost var ts := threads;
      var currentVMThread: VMThread? := null;
      var walkThread := vmThreadList;
      ghost var i := 0;
      while walkThread != null
        invariant 0 <= i <= |ts| && walkThread == if i < |ts| then ts[i] else null
        invariant vmThreadList == ts[0] && currentVMThread == if keep < i then ts[keep] else null
        invariant freed == old(freed) + Others(ts, i, keep)
        invariant forall j {:trigger ts[j]} :: 0 <= j < |ts| && (i <= j || j == keep) ==>
                    ts[j] !in freed && ts[j].linkNext == old(ts[j].linkNext) && ts[j].osThread == old(ts[j].osThread)
        decreases |ts| - i
      {
        OthersAreTheOthers(ts, i, keep);
        var nextThread := if vmThreadList == NextOf(walkThread) then null else NextOf(walkThread);
        if OsThreadOf(walkThread) == self {
          currentVMThread := walkThread;
        } else {
          Free(walkThread);
        }
        walkThread := nextThread;
        i := i + 1;
      }
      OthersAreTheOthers(ts, |ts|, keep);
      KeepOne(currentVMThread, ts, keep);
    }

    /** Reset the thread counts and make the current thread the only one in the list. */
    method KeepOne(currentVMThread: VMThread, ghost ts: seq<VMThread>, ghost keep: nat)
      requires keep < |ts| && currentVMThread == ts[keep] && currentVMThread !in freed
      modifies this, currentVMThread
      ensures Valid() && threads == [currentVMThread] && freed == old(freed)
      ensures languageThreadCount + internalThreadCount == 1
      ensures internalThreadCount == 1 <==> currentVMThread.internal
    {
      if currentVMThread.internal {
        internalThreadCount := 1;
        languageThreadCount := 0;
      } else {
        internalThreadCount := 0;
        languageThreadCount := 1;
      }
      vmThreadList := AddLast(null, currentVMThread, []);
      threads := [currentVMThread];
      CountWith([], currentVMThread, true);
      CountWith([], currentVMThread, false);
      assert [] + [currentVMThread] == [currentVMThread];
    }
  }
}
