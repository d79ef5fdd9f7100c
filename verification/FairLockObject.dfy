/**
  * CReaderWriterLock_NS_FAIR as the object it is (critsect.h:1087-1207): its words are updated in
  * place, one statement of one thread at a time, and each statement is the transition of FairLock.
  */
module FairLockObject {
  import opened PackedCounter
  import opened Words
  import opened C = FairLockControl
  import opened L = FairLock

  class ReaderWriterLockFair {
    var requests: Word              // volatile LONG
    var completions: Word           // volatile LONG
    var fetched: seq<Word>          // the local retval of each calling thread
    ghost var control: Control      // the mutex, where each thread stands, and the history

    ghost function Snapshot(): State
      reads this
    {
      State(requests, completions, fetched, control)
    }

    ghost predicate Valid()
      reads this
    {
      L.Inv(Snapshot())
    }

    ghost predicate At(t: nat, k: Kind, pcs: set<Pc>)
      reads this
    {
      t < |control.threads| && control.threads[t].pc in pcs && control.threads[t].kind == k
    }

    /** Init, with n threads about to use the lock. */
    constructor (n: nat)
      ensures Valid() && L.Init(Snapshot()) && |control.threads| == n
    {
      requests, completions := 0, 0;
      fetched := seq(n, _ => 0);
      control := Control(Free, seq(n, _ => Thread(Idle, Reader, 0, 0)), 0, [], 0, 0);
      new;
      L.InitInv(Snapshot());
    }

    /** A call, an entry to or exit from the section, or a return: no word is read or written. */
    ghost method Proceed(t: nat, call: Kind)
      requires Valid() && Bounded(Snapshot()) && C.Enabled(control, t)
      requires control.threads[t].pc in {Idle, ReqEnter, ReqLeave, Inside, EndEnter, EndLeave}
      modifies this`control
      ensures Snapshot() == old(L.Step(Snapshot(), t, call)) && Valid()
    {
      L.StepKeepsInv(Snapshot(), t, call);
      control := L.Step(Snapshot(), t, call).control;
    }

    /** The word of requests is copied into the local variable. */
    method Fetch(t: nat, ghost k: Kind)
      requires Valid() && Bounded(Snapshot()) && At(t, k, {ReqFetch})
      modifies this`fetched, this`control
      ensures Snapshot() == old(L.Step(Snapshot(), t, k)) && Valid()
    {
      L.StepKeepsInv(Snapshot(), t, k);
      ghost var next := L.Step(Snapshot(), t, k);
      fetched := fetched[t := requests];
      control := next.control;
    }

    /** The first write of a request: the top bit of its half is cleared. */
    method ClearRequests(t: nat, k: Kind)
      requires Valid() && Bounded(Snapshot()) && At(t, k, {ReqClear})
      modifies this`requests, this`control
      ensures Snapshot() == old(L.Step(Snapshot(), t, k)) && Valid()
    {
      L.StepKeepsInv(Snapshot(), t, k);
      ghost var next := L.Step(Snapshot(), t, k);
      requests := ClearTop(requests, k);
      control := next.control;
    }

    /** The second write of a request: its half grows by one. */
    method AddRequest(t: nat, k: Kind)
      requires Valid() && Bounded(Snapshot()) && At(t, k, {ReqAdd})
      modifies this`requests, this`control
      ensures Snapshot() == old(L.Step(Snapshot(), t, k)) && Valid()
    {
      L.StepKeepsInv(Snapshot(), t, k);
      ghost var next := L.Step(Snapshot(), t, k);
      requests := AddOne(requests, k);
      control := next.control;
    }

    /** The comparison of the spin loop, on the words loaded. */
    method Compare(k: Kind, previous: Word) returns (equal: bool)
      ensures equal == Admits(completions, previous, k)
    {
      match k
      case Reader => equal := WriterPart(completions) == WriterPart(previous);
      case Writer => equal := completions == previous;
    }

    /** One test of the spin loop. It succeeds exactly when all that must finish first has finished. */
    method Poll(t: nat, k: Kind) returns (admitted: bool)
      requires Valid() && Bounded(Snapshot()) && At(t, k, {Spin})
      modifies this`control
      ensures Snapshot() == old(L.Step(Snapshot(), t, k)) && Valid()
      ensures admitted <==> old(Ready(control, control.threads[t]))
      ensures admitted <==> control.threads[t].pc.Inside?
    {
      AdmissionExact(Snapshot(), t);
      L.StepKeepsInv(Snapshot(), t, k);
      ghost var next := L.Step(Snapshot(), t, k);
      admitted := Compare(k, fetched[t]);
      control := next.control;
    }

    /** The first write of a completion: the top bit of its half is cleared. */
    method ClearCompletions(t: nat, k: Kind)
      requires Valid() && Bounded(Snapshot()) && At(t, k, {EndClear})
      modifies this`completions, this`control
      ensures Snapshot() == old(L.Step(Snapshot(), t, k)) && Valid()
    {
      L.StepKeepsInv(Snapshot(), t, k);
      ghost var next := L.Step(Snapshot(), t, k);
      completions := ClearTop(completions, k);
      control := next.control;
    }

    /** The second write of a completion: its half grows by one. */
    method AddCompletion(t: nat, k: Kind)
      requires Valid() && Bounded(Snapshot()) && At(t, k, {EndAdd})
      modifies this`completions, this`control
      ensures Snapshot() == old(L.Step(Snapshot(), t, k)) && Valid()
    {
      L.StepKeepsInv(Snapshot(), t, k);
      ghost var next := L.Step(Snapshot(), t, k);
      completions := AddOne(completions, k);
      control := next.control;
    }
  }
}
