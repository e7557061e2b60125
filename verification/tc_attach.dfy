/** Attaching the tc program once per network namespace: concurrent attach calls reserve a namespace's inode in
    tcAttached, and a release may take it away at any moment. Each step is one atomic action of one goroutine. */
module TcAttach {

  // tcAttached's values: a placeholder of the call that reserved the inode, or the netns fd that call pinned.
  datatype Entry = Placeholder(call: nat) | Pinned(call: nat)

  // Where an attachTCEgress call is. Failing: an error return, before the deferred rollback.
  datatype Pc = Reserved | Opened | Attached | Failing | ReturnedNil | ReturnedErr

  // A call on an inode: what it has done with its netns fd, and whether its program was attached.
  datatype Call = Call(inode: nat, pc: Pc, hasFd: bool, closes: nat, attached: bool)

  datatype State = State(tcAttached: map<nat, Entry>, calls: map<nat, Call>)

  const START := State(map[], map[])

  datatype Step =
    | Begin(c: nat, inode: nat)        // LoadOrStore of the inode
    | Open(c: nat, ok: bool)           // opening the netns file
    | Work(c: nat, ok: bool)           // the worker: attaches everything, or undoes what it attached
    | Finish(c: nat)                   // CompareAndSwap of the placeholder by the pinned fd
    | Rollback(c: nat)                 // CompareAndDelete of the placeholder
    | Release(inode: nat)              // LoadAndDelete, closing a pinned fd

  predicate At(s: State, c: nat, pc: Pc) {
    c in s.calls && s.calls[c].pc == pc
  }

  predicate Enabled(s: State, t: Step) {
    match t
    case Begin(c, _) => c !in s.calls
    case Open(c, _) => At(s, c, Reserved)
    case Work(c, _) => At(s, c, Opened)
    case Finish(c) => At(s, c, Attached)
    case Rollback(c) => At(s, c, Failing)
    case Release(_) => true
  }

  function Closed(k: Call): (r: Call) {
    k.(closes := k.closes + 1)
  }

  function Without(s: State, inode: nat): (r: map<nat, Entry>) {
    s.tcAttached - {inode}
  }

  predicate Holds(s: State, inode: nat, e: Entry) {
    inode in s.tcAttached && s.tcAttached[inode] == e
  }

  // What each action does.
  function Do(s: State, t: Step): (r: State)
    requires Enabled(s, t)
  {
    match t
    case Begin(c, i) =>
      if i !in s.tcAttached then State(s.tcAttached[i := Placeholder(c)], s.calls[c := Call(i, Reserved, false, 0, false)])
      else s.(calls := s.calls[c := Call(i, if s.tcAttached[i].Pinned? then ReturnedNil else ReturnedErr, false, 0, false)])
    case Open(c, ok) =>
      var k := s.calls[c];
      s.(calls := s.calls[c := if ok then k.(hasFd := true, pc := Opened) else k.(pc := Failing)])
    case Work(c, ok) =>
      var k := s.calls[c];
      s.(calls := s.calls[c := if ok then k.(attached := true, pc := Attached) else Closed(k).(pc := Failing)])
    case Finish(c) =>
      var k := s.calls[c];
      if Holds(s, k.inode, Placeholder(c))
      then State(s.tcAttached[k.inode := Pinned(c)], s.calls[c := k.(pc := ReturnedNil)])
      else s.(calls := s.calls[c := Closed(k).(pc := ReturnedNil)])
    case Rollback(c) =>
      var k := s.calls[c];
      State(if Holds(s, k.inode, Placeholder(c)) then Without(s, k.inode) else s.tcAttached, s.calls[c := k.(pc := ReturnedErr)])
    case Release(i) =>
      if i in s.tcAttached && s.tcAttached[i].Pinned? && s.tcAttached[i].call in s.calls
      then State(Without(s, i), s.calls[s.tcAttached[i].call := Closed(s.calls[s.tcAttached[i].call])])
      else s.(tcAttached := Without(s, i))
  }

  // Reserving: a free inode is reserved; a pinned one is done, and nil is returned; one another call is attaching is left
  // to it, and an error is returned.
  lemma BeginExactly(s: State, c: nat, i: nat)
    requires Enabled(s, Begin(c, i))
    ensures var s' := Do(s, Begin(c, i));
            && c in s'.calls && s'.calls[c].inode == i && !s'.calls[c].hasFd && !s'.calls[c].attached
            && (forall d :: d in s.calls ==> d in s'.calls && s'.calls[d] == s.calls[d])
            && (if i !in s.tcAttached then s'.tcAttached == s.tcAttached[i := Placeholder(c)] && s'.calls[c].pc == Reserved
                else && s'.tcAttached == s.tcAttached
                     && s'.calls[c].pc == if s.tcAttached[i].Pinned? then ReturnedNil else ReturnedErr)
  {
  }

  // ---- What holds in every interleaving ----

  predicate InFlight(k: Call) {
    k.pc == Reserved || k.pc == Opened || k.pc == Attached || k.pc == Failing
  }

  // A placeholder belongs to a call in flight; a pinned fd to one that has returned nil after attaching.
  ghost predicate EntriesRight(s: State) {
    forall i :: i in s.tcAttached ==>
      var e := s.tcAttached[i];
      && e.call in s.calls && s.calls[e.call].inode == i
      && (e.Placeholder? ==> InFlight(s.calls[e.call]))
      && (e.Pinned? ==> s.calls[e.call].pc == ReturnedNil && s.calls[e.call].attached && s.calls[e.call].hasFd)
  }

  // An opened fd is held by a call in flight, pinned once, or closed once.
  predicate FdRight(s: State, c: nat)
    requires c in s.calls
  {
    var k := s.calls[c];
    && k.closes <= (if k.hasFd then 1 else 0)
    && (k.pc == Reserved ==> !k.hasFd)
    && (k.pc == Opened || k.pc == Attached ==> k.hasFd && k.closes == 0)
    && (k.pc == Failing || k.pc == ReturnedErr ==> k.closes == if k.hasFd then 1 else 0)
    && (k.pc == ReturnedNil && k.hasFd ==> (k.closes == 0 <==> Holds(s, k.inode, Pinned(c))))
    && (k.attached <==> k.pc == Attached || (k.pc == ReturnedNil && k.hasFd))
  }

  // A call returns nil only once the program is attached: by itself, or by a call that had finished.
  ghost predicate NilMeansAttached(s: State) {
    forall c :: c in s.calls && s.calls[c].pc == ReturnedNil ==> SomeAttached(s, s.calls[c].inode)
  }

  ghost predicate SomeAttached(s: State, inode: nat) {
    exists d :: d in s.calls && s.calls[d].inode == inode && s.calls[d].attached
  }

  ghost predicate Inv(s: State) {
    EntriesRight(s) && (forall c :: c in s.calls ==> FdRight(s, c)) && NilMeansAttached(s)
  }

  lemma StepKeepsEntries(s: State, t: Step)
    requires Inv(s) && Enabled(s, t)
    ensures EntriesRight(Do(s, t))
  {
    hide NilMeansAttached;
  }

  lemma StepKeepsFds(s: State, t: Step)
    requires Inv(s) && Enabled(s, t)
    ensures var s' := Do(s, t); forall c :: c in s'.calls ==> FdRight(s', c)
  {
    hide NilMeansAttached;
    var s' := Do(s, t);
    forall c | c in s'.calls ensures FdRight(s', c) {
      if c in s.calls {
        assert FdRight(s, c);
      }
    }
  }

  lemma AttachedIs(s: State, c: nat)
    requires At(s, c, Attached) && FdRight(s, c)
    ensures s.calls[c].attached
  {
  }

  lemma StepKeepsNil(s: State, t: Step)
    requires Inv(s) && Enabled(s, t)
    ensures NilMeansAttached(Do(s, t))
  {
    hide FdRight;
    var s' := Do(s, t);
    forall i | SomeAttached(s, i) ensures SomeAttached(s', i) {
      var d :| d in s.calls && s.calls[d].inode == i && s.calls[d].attached;
      assert d in s'.calls && s'.calls[d].inode == i && s'.calls[d].attached;
    }
    if t.Finish? {
      assert FdRight(s, t.c);
      AttachedIs(s, t.c);
      assert s'.calls[t.c].attached;
    }
    if t.Begin? && t.inode in s.tcAttached && s.tcAttached[t.inode].Pinned? {
      var d := s.tcAttached[t.inode].call;
      assert d in s.calls && s.calls[d].inode == t.inode && s.calls[d].attached;
    }
  }

  // ---- Runs ----

  predicate IsRun(run: seq<State>, steps: seq<Step>) {
    && |run| == |steps| + 1 && run[0] == START
    && (forall n :: 0 <= n < |steps| ==> Enabled(run[n], steps[n]) && run[n + 1] == Do(run[n], steps[n]))
  }

  // In every interleaving: no fd is lost or closed twice, a nil is never premature, and a placeholder is always
  // some running call's.
  lemma {:induction false} RunKeepsInv(run: seq<State>, steps: seq<Step>)
    requires IsRun(run, steps)
    ensures Inv(run[|steps|])
  {
    hide Do;
    if |steps| > 0 {
      var n := |steps| - 1;
      RunKeepsInv(run[..n + 1], steps[..n]);
      StepKeepsEntries(run[n], steps[n]);
      StepKeepsFds(run[n], steps[n]);
      StepKeepsNil(run[n], steps[n]);
    }
  }

  // A call that has not attached its program and never will.
  predicate Done(s: State, c: nat) {
    && c in s.calls && !s.calls[c].attached
    && (s.calls[c].pc == Failing || s.calls[c].pc == ReturnedErr || s.calls[c].pc == ReturnedNil)
  }

  // A call on inode i that has the inode's slot, or is done.
  predicate Owns(s: State, c: nat, i: nat) {
    && c in s.calls && s.calls[c].inode == i
    && (Done(s, c) || Holds(s, i, Placeholder(c)) || Holds(s, i, Pinned(c)))
  }

  lemma StepKeepsDone(s: State, t: Step, c: nat)
    requires Enabled(s, t) && Done(s, c)
    ensures Done(Do(s, t), c)
  {
  }

  // Only a release takes the slot away from a call that may still attach, or has.
  lemma StepKeepsOwns(s: State, t: Step, c: nat, i: nat)
    requires Inv(s) && Enabled(s, t) && Owns(s, c, i) && t != Release(i)
    ensures Owns(Do(s, t), c, i)
  {
    hide NilMeansAttached;
    assert FdRight(s, c);
  }

  lemma {:induction false} RunKeepsDone(run: seq<State>, steps: seq<Step>, m: nat, n: nat, c: nat)
    requires IsRun(run, steps) && m <= n <= |steps| && Done(run[m], c)
    ensures Done(run[n], c)
    decreases n
  {
    hide Do, Done;
    if m < n {
      RunKeepsDone(run, steps, m, n - 1, c);
      StepKeepsDone(run[n - 1], steps[n - 1], c);
    }
  }

  // From its Begin on, a call keeps the slot until it is done or the inode is released.
  lemma {:induction false} RunKeepsOwns(run: seq<State>, steps: seq<Step>, m: nat, n: nat, c: nat, i: nat)
    requires IsRun(run, steps) && m < n <= |steps| && steps[m] == Begin(c, i)
    requires forall k :: m < k < n ==> steps[k] != Release(i)
    ensures Owns(run[n], c, i)
    decreases n
  {
    if n == m + 1 {
      assert Enabled(run[m], steps[m]) && run[n] == Do(run[m], steps[m]);
    } else {
      hide Do, Owns;
      RunKeepsOwns(run, steps, m, n - 1, c, i);
      assert IsRun(run[..n], steps[..n - 1]);
      RunKeepsInv(run[..n], steps[..n - 1]);
      StepKeepsOwns(run[n - 1], steps[n - 1], c, i);
    }
  }

  // Every call began, once, on its inode.
  lemma {:induction false} BeganAt(run: seq<State>, steps: seq<Step>, n: nat, c: nat) returns (m: nat)
    requires IsRun(run, steps) && n <= |steps| && c in run[n].calls
    ensures m < n && steps[m] == Begin(c, run[n].calls[c].inode)
  {
    assert n > 0;
    assert Enabled(run[n - 1], steps[n - 1]) && run[n] == Do(run[n - 1], steps[n - 1]);
    if c in run[n - 1].calls {
      m := BeganAt(run, steps, n - 1, c);
    } else {
      m := n - 1;
    }
  }

  // Two calls that attached to the same inode: it was released after the first began and before the second did.
  lemma AttachedOnce(run: seq<State>, steps: seq<Step>, i: nat, c: nat, d: nat) returns (m: nat, k: nat, n: nat)
    requires IsRun(run, steps) && c != d
    requires var s := run[|steps|]; c in s.calls && s.calls[c].inode == i && s.calls[c].attached
                                    && d in s.calls && s.calls[d].inode == i && s.calls[d].attached
    ensures m < k < n < |steps| && steps[k] == Release(i)
    ensures (steps[m] == Begin(c, i) && steps[n] == Begin(d, i)) || (steps[m] == Begin(d, i) && steps[n] == Begin(c, i))
  {
    m := BeganAt(run, steps, |steps|, c);
    n := BeganAt(run, steps, |steps|, d);
    if m < n {
      k := ReleasedBetween(run, steps, m, n, c, d, i);
    } else {
      m, n := n, m;
      k := ReleasedBetween(run, steps, m, n, d, c, i);
    }
  }

  lemma ReleasedBetween(run: seq<State>, steps: seq<Step>, m: nat, n: nat, c: nat, d: nat, i: nat) returns (k: nat)
    requires IsRun(run, steps) && m < n < |steps| && steps[m] == Begin(c, i) && steps[n] == Begin(d, i)
    requires var s := run[|steps|]; !Done(s, c) && !Done(s, d)
    ensures m < k < n && steps[k] == Release(i)
  {
    if forall k :: m < k < n ==> steps[k] != Release(i) {
      OneOfTwoIsDone(run, steps, m, n, c, d, i);
    }
    k :| m < k < n && steps[k] == Release(i);
  }

  // Without a release in between, the second call finds the slot taken, unless the first is done.
  lemma OneOfTwoIsDone(run: seq<State>, steps: seq<Step>, m: nat, n: nat, c: nat, d: nat, i: nat)
    requires IsRun(run, steps) && m < n < |steps| && steps[m] == Begin(c, i) && steps[n] == Begin(d, i)
    requires forall k :: m < k < n ==> steps[k] != Release(i)
    ensures var s := run[|steps|]; Done(s, c) || Done(s, d)
  {
    RunKeepsOwns(run, steps, m, n, c, i);
    assert Enabled(run[n], steps[n]) && run[n + 1] == Do(run[n], steps[n]);
    if Done(run[n], c) {
      RunKeepsDone(run, steps, n, |steps|, c);
    } else {
      RunKeepsDone(run, steps, n + 1, |steps|, d);
    }
  }

  // With such a release two calls can attach to the same namespace.
  lemma ReleaseAllowsTwo() returns (steps: seq<Step>, run: seq<State>)
    ensures IsRun(run, steps)
    ensures var s := run[|steps|]; 0 in s.calls && 1 in s.calls && s.calls[0].inode == s.calls[1].inode
                                   && s.calls[0].attached && s.calls[1].attached
  {
    steps := [Begin(0, 7), Open(0, true), Release(7), Begin(1, 7), Open(1, true), Work(1, true), Work(0, true)];
    var s1 := Do(START, steps[0]);
    var s2 := Do(s1, steps[1]);
    var s3 := Do(s2, steps[2]);
    var s4 := Do(s3, steps[3]);
    var s5 := Do(s4, steps[4]);
    var s6 := Do(s5, steps[5]);
    var s7 := Do(s6, steps[6]);
    run := [START, s1, s2, s3, s4, s5, s6, s7];
  }

  // A failed call has freed the slot it reserved, and once no call is running every slot is free or pinned: a
  // retry is never turned away by a stale placeholder.
  lemma QuietMeansNoPlaceholder(run: seq<State>, steps: seq<Step>, i: nat)
    requires IsRun(run, steps)
    ensures var s := run[|steps|];
            && (i in s.tcAttached && s.tcAttached[i].Placeholder? ==>
                  s.tcAttached[i].call in s.calls && InFlight(s.calls[s.tcAttached[i].call]))
            && (forall c :: c in s.calls && s.calls[c].pc == ReturnedErr ==> !Holds(s, i, Placeholder(c)))
  {
    RunKeepsInv(run, steps);
    hide IsRun;
  }

  // Once a call has returned, its fd, if it opened one, is pinned under its inode or closed, exactly once.
  lemma ReturnedFdAccounted(run: seq<State>, steps: seq<Step>, c: nat)
    requires IsRun(run, steps) && c in run[|steps|].calls && !InFlight(run[|steps|].calls[c])
    ensures var s := run[|steps|]; var k := s.calls[c];
            if k.hasFd then (k.closes == 1 && !Holds(s, k.inode, Pinned(c))) || (k.closes == 0 && Holds(s, k.inode, Pinned(c)))
            else k.closes == 0
  {
    RunKeepsInv(run, steps);
    hide IsRun;
    assert FdRight(run[|steps|], c);
  }

  // ---- attachTCEgress ----

  predicate Of(t: Step, c: nat) {
    !t.Release? && t.c == c
  }

  // tcAttached, shared by every goroutine. `calls` is not in the program: it records what the calls have done.
  class AttachTable {
    var tcAttached: map<nat, Entry>
    var calls: map<nat, Call>

    function Value(): (r: State)
      reads this
    {
      State(tcAttached, calls)
    }

    constructor ()
      ensures Value() == START && Inv(Value())
    {
      tcAttached, calls := map[], map[];
    }

    // One atomic action.
    method Act(t: Step)
      requires Enabled(Value(), t) && Inv(Value())
      modifies this
      ensures Value() == Do(old(Value()), t) && Inv(Value())
    {
      StepKeepsEntries(Value(), t);
      StepKeepsFds(Value(), t);
      StepKeepsNil(Value(), t);
      var s := Do(Value(), t);
      tcAttached, calls := s.tcAttached, s.calls;
    }

    // The other goroutines: any number of actions of other calls, and releases.
    method Others(c: nat)
      requires Inv(Value())
      modifies this
      ensures Inv(Value()) && Kept(old(Value()), Value(), c)
    {
      hide Inv, Do, Enabled, Kept;
      KeptSelf(Value(), c);
      var n: nat := *;
      while n > 0
        invariant Inv(Value()) && Kept(old(Value()), Value(), c)
      {
        var t: Step := *;
        if Enabled(Value(), t) && !Of(t, c) {
          OthersKeep(Value(), t, c);
          KeptTrans(old(Value()), Value(), Do(Value(), t), c);
          Act(t);
        }
        n := n - 1;
      }
    }

    // Call c, on the inode of the pod's netns: `canOpen` and `works` say how the opening of the netns and the
    // worker go. Between any two of its actions the others run. Nil means that the namespace is patched; an
    // error leaves no placeholder of this call behind.
    method AttachTCEgress(c: nat, inode: nat, canOpen: bool, works: bool) returns (ok: bool)
      requires Inv(Value()) && c !in calls
      modifies this
      ensures Inv(Value()) && c in calls && calls[c].inode == inode && calls[c].pc == (if ok then ReturnedNil else ReturnedErr)
      ensures ok ==> SomeAttached(Value(), inode)
      ensures !ok ==> !Holds(Value(), inode, Placeholder(c))
    {
      hide Inv;
      Others(c);
      Act(Begin(c, inode));
      Others(c);
      if calls[c].pc == ReturnedNil || calls[c].pc == ReturnedErr {
        ok := calls[c].pc == ReturnedNil;
        Returned(Value(), c);
        return;
      }
      ok := AttachReserved(c, canOpen, works);
    }

    // Past the reservation.
    method AttachReserved(c: nat, canOpen: bool, works: bool) returns (ok: bool)
      requires Inv(Value()) && At(Value(), c, Reserved)
      modifies this
      ensures Inv(Value()) && c in calls && calls[c].inode == old(calls)[c].inode
      ensures calls[c].pc == (if ok then ReturnedNil else ReturnedErr)
      ensures ok ==> SomeAttached(Value(), calls[c].inode)
      ensures !ok ==> !Holds(Value(), calls[c].inode, Placeholder(c))
    {
      hide Inv;
      Act(Open(c, canOpen));
      Others(c);
      if canOpen {
        Act(Work(c, works));
        Others(c);
        if works {
          Act(Finish(c));
          Returned(Value(), c);
          return true;
        }
      }
      Act(Rollback(c));
      Returned(Value(), c);
      return false;
    }
  }

  // What other goroutines leave of call c: all of it, except that a release may close the fd it pinned.
  predicate Kept(s: State, s': State, c: nat) {
    if c !in s.calls then c !in s'.calls
    else c in s'.calls && if s.calls[c].pc == ReturnedNil then s'.calls[c].(closes := 0) == s.calls[c].(closes := 0)
                          else s'.calls[c] == s.calls[c]
  }

  lemma KeptSelf(s: State, c: nat)
    ensures Kept(s, s, c)
  {
  }

  lemma KeptTrans(a: State, b: State, d: State, c: nat)
    requires Kept(a, b, c) && Kept(b, d, c)
    ensures Kept(a, d, c)
  {
  }

  lemma OthersKeep(s: State, t: Step, c: nat)
    requires Inv(s) && Enabled(s, t) && !Of(t, c)
    ensures Kept(s, Do(s, t), c)
  {
  }

  lemma Returned(s: State, c: nat)
    requires Inv(s) && c in s.calls && !InFlight(s.calls[c])
    ensures s.calls[c].pc == ReturnedNil ==> SomeAttached(s, s.calls[c].inode)
    ensures forall i :: !Holds(s, i, Placeholder(c))
  {
  }
}
