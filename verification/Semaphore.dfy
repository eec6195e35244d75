/**
  The counting semaphore on top of the ticket lock. Each routine first polls `val`
  without the lock, then takes the lock, tests `val` again and updates it, and
  starts over when the second test fails.
*/
module Semaphore {
  import T = TicketLock

  /** `up` tells semaphore_inc from semaphore_dec. */
  datatype Pc =
    | Outside
    | Poll(up: bool)
    | Acquire(up: bool)
    | Test(up: bool)
    | Load(up: bool)
    | Store(up: bool, val: int)
    | Release(up: bool, done: bool)

  /** `decs` and `incs` count the updates of `val` performed so far. */
  datatype State = State(inner: T.State, val: int, limit: int, pcs: seq<Pc>, decs: nat, incs: nat)

  datatype Action = Call(up: bool) | Inner(act: T.Action) | Continue

  datatype Event = Event(cpu: nat, act: Action)

  function Init(n: nat, val: int): State
  {
    State(T.Init(n), val, val, seq(n, _ => Outside), 0, 0)
  }

  function Goto(s: State, c: nat, pc: Pc): State
    requires c < |s.pcs|
  {
    s.(pcs := s.pcs[c := pc])
  }

  /** The test made twice by each routine: may `val` move in this direction? */
  predicate CanMove(s: State, up: bool)
  {
    if up then s.val < s.limit else s.val > 0
  }

  function Moved(val: int, up: bool): int { if up then val + 1 else val - 1 }

  ghost predicate Step(s: State, t: State, c: nat, a: Action)
  {
    && c < |s.pcs| == |s.inner.pcs|
    && match (s.pcs[c], a)
       case (Outside, Call(up)) => t == Goto(s, c, Poll(up))
       case (Poll(up), Continue) => t == if CanMove(s, up) then Goto(s, c, Acquire(up)) else s
       case (Acquire(up), Inner(act)) =>
         && !act.ReadHead? && !act.StoreHead?
         && T.Step(s.inner, t.inner, c, act)
         && |t.inner.pcs| == |s.inner.pcs|
         && t == Goto(s, c, if t.inner.pcs[c].Holding? then Test(up) else Acquire(up)).(inner := t.inner)
       case (Test(up), Continue) => t == Goto(s, c, if CanMove(s, up) then Load(up) else Release(up, false))
       case (Load(up), Continue) => t == Goto(s, c, Store(up, Moved(s.val, up)))
       case (Store(up, v), Continue) =>
         t == Goto(s, c, Release(up, true)).(val := v,
                   decs := if up then s.decs else s.decs + 1,
                   incs := if up then s.incs + 1 else s.incs)
       case (Release(up, done), Inner(act)) =>
         && (act.ReadHead? || act.StoreHead?)
         && T.Step(s.inner, t.inner, c, act)
         && var next := if act.ReadHead? then Release(up, done) else if done then Outside else Poll(up);
            t == Goto(s, c, next).(inner := t.inner)
       case _ => false
  }

  ghost predicate IsRun(n: nat, val: int, tr: seq<State>, ev: seq<Event>)
  {
    && |tr| == |ev| + 1
    && tr[0] == Init(n, val)
    && forall i {:trigger ev[i]} | 0 <= i < |ev| :: Step(tr[i], tr[i + 1], ev[i].cpu, ev[i].act)
  }

  ghost predicate CpuInv(s: State, c: nat)
    requires c < |s.pcs| == |s.inner.pcs|
  {
    var ipc := s.inner.pcs[c];
    match s.pcs[c]
    case Outside => ipc.Idle?
    case Poll(_) => ipc.Idle?
    case Acquire(_) => !ipc.Inside()
    case Test(_) => ipc.Holding?
    case Load(up) => ipc.Holding? && CanMove(s, up)
    case Store(up, v) => ipc.Holding? && CanMove(s, up) && v == Moved(s.val, up)
    case Release(_, _) => ipc.Inside()
  }

  ghost predicate Inv(s: State)
  {
    && T.Inv(s.inner)
    && |s.pcs| == |s.inner.pcs|
    && 0 <= s.val <= s.limit
    && s.limit - s.val == s.decs - s.incs
    && forall c: nat | c < |s.pcs| :: CpuInv(s, c)
  }

  lemma StepKeepsInv(s: State, t: State, c: nat, a: Action)
    requires Inv(s) && |s.pcs| <= T.HALF && Step(s, t, c, a)
    ensures Inv(t) && t.limit == s.limit
  {
    if a.Inner? { T.StepKeepsInv(s.inner, t.inner, c, a.act); }
    T.InvMutex(s.inner);
    assert CpuInv(s, c);
    forall d: nat | d < |t.pcs|
      ensures CpuInv(t, d)
    {
      assert CpuInv(s, d);
    }
  }

  lemma {:induction false} RunKeepsInv(n: nat, val: int, tr: seq<State>, ev: seq<Event>, k: nat)
    requires n <= T.HALF && 0 <= val && IsRun(n, val, tr, ev) && k < |tr|
    ensures Inv(tr[k]) && |tr[k].pcs| == n && tr[k].limit == val
  {
    if k == 0 {
      T.InitInv(n);
    } else {
      RunKeepsInv(n, val, tr, ev, k - 1);
      assert Step(tr[k - 1], tr[k - 1 + 1], ev[k - 1].cpu, ev[k - 1].act);
      StepKeepsInv(tr[k - 1], tr[k], ev[k - 1].cpu, ev[k - 1].act);
    }
  }

  // ----- calls and updates

  /** The number of calls of one routine among the events. */
  ghost function Calls(ev: seq<Event>, up: bool): nat
  {
    if ev == [] then 0 else Calls(ev[..|ev| - 1], up) + (if ev[|ev| - 1].act == Call(up) then 1 else 0)
  }

  /** The CPU is in a call of the routine that has not updated `val` yet. */
  predicate InCall(pc: Pc, up: bool)
  {
    match pc
    case Outside => false
    case Release(u, done) => u == up && !done
    case _ => pc.up == up
  }

  ghost function Pending(s: State, up: bool): set<nat>
  {
    set c: nat | c < |s.pcs| && InCall(s.pcs[c], up)
  }

  function Updates(s: State, up: bool): nat { if up then s.incs else s.decs }

  /** A step makes a call pending, or turns a pending call into an update, or does neither. */
  lemma StepCounts(s: State, t: State, c: nat, a: Action, up: bool)
    requires Step(s, t, c, a)
    ensures Updates(t, up) + |Pending(t, up)| == Updates(s, up) + |Pending(s, up)| + if a == Call(up) then 1 else 0
  {
    PendingChanges(s, t, c, up);
  }

  lemma PendingChanges(s: State, t: State, c: nat, up: bool)
    requires c < |s.pcs| == |t.pcs| && t.pcs == s.pcs[c := t.pcs[c]]
    ensures |Pending(t, up)| + (if InCall(s.pcs[c], up) then 1 else 0) ==
            |Pending(s, up)| + if InCall(t.pcs[c], up) then 1 else 0
  {
    SameButOne(Pending(s, up), Pending(t, up), c);
  }

  lemma SameButOne(a: set<nat>, b: set<nat>, c: nat)
    requires forall d | d != c :: d in a <==> d in b
    ensures |b| + (if c in a then 1 else 0) == |a| + if c in b then 1 else 0
  {
    assert a - {c} == b - {c};
    WithoutOne(a, c);
    WithoutOne(b, c);
  }

  lemma WithoutOne(a: set<nat>, c: nat)
    ensures |a| == |a - {c}| + if c in a then 1 else 0
  {
    if c !in a { assert a - {c} == a; }
  }

  /** In every run each call of a routine has made exactly one update, or none and is still pending. */
  lemma {:induction false} CallsCounted(n: nat, val: int, tr: seq<State>, ev: seq<Event>, k: nat, up: bool)
    requires IsRun(n, val, tr, ev) && k < |tr|
    ensures Calls(ev[..k], up) == Updates(tr[k], up) + |Pending(tr[k], up)|
  {
    if k == 0 {
      assert Pending(tr[0], up) == {};
    } else {
      CallsCounted(n, val, tr, ev, k - 1, up);
      assert Step(tr[k - 1], tr[k - 1 + 1], ev[k - 1].cpu, ev[k - 1].act);
      StepCounts(tr[k - 1], tr[k], ev[k - 1].cpu, ev[k - 1].act, up);
      assert ev[..k][..k - 1] == ev[..k - 1];
    }
  }

  ghost predicate AllOutside(s: State)
  {
    forall c | 0 <= c < |s.pcs| :: s.pcs[c].Outside?
  }

  /**
    In every interleaving from a non-negative initial value, `val` stays between 0 and
    `limit`, and `limit - val` is the number of calls of semaphore_dec minus the number
    of calls of semaphore_inc, leaving out calls on both sides that are still pending.
  */
  lemma Conserved(n: nat, val: int, tr: seq<State>, ev: seq<Event>, k: nat)
    requires n <= T.HALF && 0 <= val && IsRun(n, val, tr, ev) && k < |tr|
    ensures tr[k].limit == val && 0 <= tr[k].val <= val
    ensures val - tr[k].val == Calls(ev[..k], false) - |Pending(tr[k], false)|
                               - (Calls(ev[..k], true) - |Pending(tr[k], true)|)
    ensures AllOutside(tr[k]) ==> val - tr[k].val == Calls(ev[..k], false) - Calls(ev[..k], true)
  {
    RunKeepsInv(n, val, tr, ev, k);
    CallsCounted(n, val, tr, ev, k, false);
    CallsCounted(n, val, tr, ev, k, true);
    if AllOutside(tr[k]) { assert Pending(tr[k], false) == {} == Pending(tr[k], true); }
  }

  // ----- what can still happen

  /** CPU c has a step; outside both routines it can call either. */
  ghost predicate CanStep(s: State, c: nat)
    requires c < |s.pcs|
  {
    if s.pcs[c].Outside? then (exists t :: Step(s, t, c, Call(false))) && (exists t :: Step(s, t, c, Call(true)))
    else exists a, t :: Step(s, t, c, a)
  }

  /** No CPU is ever without a step. */
  lemma NeverStuck(n: nat, val: int, tr: seq<State>, ev: seq<Event>, k: nat, c: nat)
    requires n <= T.HALF && 0 <= val && IsRun(n, val, tr, ev) && k < |tr| && c < n
    ensures c < |tr[k].pcs| && CanStep(tr[k], c)
  {
    RunKeepsInv(n, val, tr, ev, k);
    var s := tr[k];
    assert CpuInv(s, c);
    match s.pcs[c]
    case Outside =>
      assert Step(s, Goto(s, c, Poll(false)), c, Call(false));
      assert Step(s, Goto(s, c, Poll(true)), c, Call(true));
    case Poll(up) => assert Step(s, if CanMove(s, up) then Goto(s, c, Acquire(up)) else s, c, Continue);
    case Acquire(up) =>
      var act, inner := T.NextAccess(s.inner, c);
      var pc := if inner.pcs[c].Holding? then Test(up) else Acquire(up);
      assert Step(s, Goto(s, c, pc).(inner := inner), c, Inner(act));
    case _ =>
      var q :| T.QueueInv(s.inner, q);
      T.InsideIsFirst(s.inner, q, c);
      var a, t, r := Closer(s, q, c);
  }

  /** A path leads from s to t. */
  ghost predicate Leads(s: State, tr: seq<State>, ev: seq<Event>, t: State)
  {
    && |tr| == |ev| + 1 && tr[0] == s && tr[|ev|] == t
    && forall i {:trigger ev[i]} | 0 <= i < |ev| :: Step(tr[i], tr[i + 1], ev[i].cpu, ev[i].act)
  }

  lemma Joined(s: State, tr: seq<State>, ev: seq<Event>, t: State, tr': seq<State>, ev': seq<Event>, u: State)
    requires Leads(s, tr, ev, t) && Leads(t, tr', ev', u)
    ensures Leads(s, tr + tr'[1..], ev + ev', u)
  {
    var tt, ee := tr + tr'[1..], ev + ev';
    forall i | 0 <= i < |ee|
      ensures Step(tt[i], tt[i + 1], ee[i].cpu, ee[i].act)
    {
      if i < |ev| {
        assert Step(tr[i], tr[i + 1], ev[i].cpu, ev[i].act);
      } else {
        var j := i - |ev|;
        assert Step(tr'[j], tr'[j + 1], ev'[j].cpu, ev'[j].act);
      }
    }
  }

  lemma StepLeads(s: State, t: State, e: Event, tr: seq<State>, ev: seq<Event>, u: State)
    requires Step(s, t, e.cpu, e.act) && Leads(t, tr, ev, u)
    ensures Leads(s, [s] + tr, [e] + ev, u)
  {
    assert Leads(s, [s, t], [e], t);
    Joined(s, [s, t], [e], t, tr, ev, u);
    assert [s, t] + tr[1..] == [s] + tr;
  }

  /** Everybody but c is where it was. */
  ghost predicate OthersStay(s: State, t: State, c: nat)
  {
    |t.pcs| == |s.pcs| && t.limit == s.limit && forall d | 0 <= d < |s.pcs| && d != c :: t.pcs[d] == s.pcs[d]
  }

  /** How many steps a CPU at the head of the queue is away from giving the lock back. */
  function ToGo(s: State, c: nat): nat
    requires c < |s.pcs| == |s.inner.pcs| == |s.inner.linked|
  {
    match s.pcs[c]
    case Acquire(_) => 10 + T.ToGo(s.inner, c)
    case Test(_) => 5
    case Load(_) => 4
    case Store(_, _) => 3
    case Release(_, _) => if s.inner.pcs[c].Holding? then 2 else 1
    case _ => 0
  }

  /** Where CPU c will be when it has given the lock back undisturbed, and what `val` is then. */
  function Outcome(s: State, c: nat): (Pc, int)
    requires c < |s.pcs|
  {
    match s.pcs[c]
    case Acquire(up) => if CanMove(s, up) then (Outside, Moved(s.val, up)) else (Poll(up), s.val)
    case Test(up) => if CanMove(s, up) then (Outside, Moved(s.val, up)) else (Poll(up), s.val)
    case Load(up) => (Outside, Moved(s.val, up))
    case Store(_, v) => (Outside, v)
    case Release(up, done) => (if done then Outside else Poll(up), s.val)
    case pc => (pc, s.val)
  }

  /** Nobody is before c in the queue of the lock. */
  ghost predicate IsNext(s: State, q: seq<nat>, c: nat)
  {
    T.QueueInv(s.inner, q) && (q == [] || q[0] == c)
  }

  /** A step of c that is no call takes it closer to its outcome, with nobody getting before it. */
  ghost predicate Approaches(s: State, c: nat, a: Action, t: State, r: seq<nat>)
    requires c < |s.pcs| == |s.inner.pcs| == |s.inner.linked|
  {
    && Step(s, t, c, a) && !a.Call? && Inv(t) && OthersStay(s, t, c)
    && |t.inner.pcs| == |t.inner.linked|
    && ToGo(t, c) < ToGo(s, c) && Outcome(t, c) == Outcome(s, c)
    && (ToGo(t, c) > 0 ==> IsNext(t, r, c))
  }

  lemma CloserInside(s: State, q: seq<nat>, c: nat) returns (a: Action, t: State, r: seq<nat>)
    requires Inv(s) && |s.pcs| <= T.HALF && c < |s.pcs| && IsNext(s, q, c)
    requires s.pcs[c].Test? || s.pcs[c].Load? || s.pcs[c].Store?
    ensures Approaches(s, c, a, t, r)
  {
    assert CpuInv(s, c);
    a, r := Continue, q;
    match s.pcs[c] {
      case Test(up) => t := Goto(s, c, if CanMove(s, up) then Load(up) else Release(up, false));
      case Load(up) => t := Goto(s, c, Store(up, Moved(s.val, up)));
      case Store(up, v) =>
        t := Goto(s, c, Release(up, true)).(val := v,
               decs := if up then s.decs else s.decs + 1,
               incs := if up then s.incs + 1 else s.incs);
    }
    StepKeepsInv(s, t, c, a);
  }

  lemma CloserEntering(s: State, q: seq<nat>, c: nat) returns (a: Action, t: State, r: seq<nat>)
    requires Inv(s) && |s.pcs| <= T.HALF && c < |s.pcs| && IsNext(s, q, c) && s.pcs[c].Acquire?
    ensures Approaches(s, c, a, t, r)
  {
    assert CpuInv(s, c);
    var act, inner;
    act, inner, r := T.Closer(s.inner, q, c);
    a := Inner(act);
    var up := s.pcs[c].up;
    t := Goto(s, c, if inner.pcs[c].Holding? then Test(up) else Acquire(up)).(inner := inner);
    StepKeepsInv(s, t, c, a);
  }

  lemma CloserLeaving(s: State, q: seq<nat>, c: nat) returns (a: Action, t: State, r: seq<nat>)
    requires Inv(s) && |s.pcs| <= T.HALF && c < |s.pcs| && IsNext(s, q, c) && s.pcs[c].Release?
    ensures Approaches(s, c, a, t, r)
  {
    assert CpuInv(s, c);
    var act, inner := T.NextAccess(s.inner, c);
    a, r := Inner(act), q;
    T.StepKeepsQueue(s.inner, inner, c, act, q);
    var up, done := s.pcs[c].up, s.pcs[c].done;
    t := Goto(s, c, if act.ReadHead? then Release(up, done) else if done then Outside else Poll(up)).(inner := inner);
    StepKeepsInv(s, t, c, a);
  }

  /** While nobody is before it, a CPU in the lock has a step that takes it closer to its outcome. */
  lemma Closer(s: State, q: seq<nat>, c: nat) returns (a: Action, t: State, r: seq<nat>)
    requires Inv(s) && |s.pcs| <= T.HALF && c < |s.pcs| && IsNext(s, q, c) && ToGo(s, c) > 0
    ensures Approaches(s, c, a, t, r)
  {
    if s.pcs[c].Acquire? {
      a, t, r := CloserEntering(s, q, c);
    } else if s.pcs[c].Release? {
      a, t, r := CloserLeaving(s, q, c);
    } else {
      a, t, r := CloserInside(s, q, c);
    }
  }

  ghost predicate By(ev: seq<Event>, c: nat)
  {
    forall e | e in ev :: e.cpu == c && !e.act.Call?
  }

  /** A CPU in the lock, with nobody before it, comes to its outcome by its own steps. */
  lemma {:induction false} Finishes(s: State, q: seq<nat>, c: nat) returns (tr: seq<State>, ev: seq<Event>, t: State)
    requires Inv(s) && |s.pcs| <= T.HALF && c < |s.pcs| && (ToGo(s, c) > 0 ==> IsNext(s, q, c))
    ensures Leads(s, tr, ev, t) && By(ev, c) && Inv(t) && OthersStay(s, t, c)
    ensures (t.pcs[c], t.val) == Outcome(s, c)
    decreases ToGo(s, c)
  {
    if ToGo(s, c) == 0 {
      tr, ev, t := [s], [], s;
    } else {
      var a, u, r := Closer(s, q, c);
      tr, ev, t := Finishes(u, r, c);
      StepLeads(s, u, Event(c, a), tr, ev, t);
      tr, ev := [s] + tr, [Event(c, a)] + ev;
    }
  }

  /** The CPUs that are in the code of the lock or between lock and unlock. */
  ghost function Busy(s: State): set<nat>
  {
    set c: nat | c < |s.pcs| && !s.pcs[c].Outside? && !s.pcs[c].Poll?
  }

  /** Everybody who is in the lock can leave it, without another call. */
  lemma {:induction false} Settles(s: State) returns (tr: seq<State>, ev: seq<Event>, t: State)
    requires Inv(s) && |s.pcs| <= T.HALF
    ensures Leads(s, tr, ev, t) && Inv(t) && |t.pcs| == |s.pcs| && Busy(t) == {}
    ensures forall e | e in ev :: !e.act.Call?
    decreases |Busy(s)|
  {
    if Busy(s) == {} {
      tr, ev, t := [s], [], s;
    } else {
      var c, q := Foremost(s);
      var tr1, ev1, u := Finishes(s, q, c);
      assert Busy(s) == Busy(u) + {c};
      tr, ev, t := Settles(u);
      Joined(s, tr1, ev1, u, tr, ev, t);
      tr, ev := tr1 + tr[1..], ev1 + ev;
    }
  }

  lemma Foremost(s: State) returns (c: nat, q: seq<nat>)
    requires Inv(s) && Busy(s) != {}
    ensures c in Busy(s) && IsNext(s, q, c)
  {
    q :| T.QueueInv(s.inner, q);
    if q == [] {
      c :| c in Busy(s);
    } else {
      c := q[0];
      QueuedIsBusy(s, q);
    }
  }

  lemma QueuedIsBusy(s: State, q: seq<nat>)
    requires Inv(s) && T.QueueInv(s.inner, q)
    ensures q != [] ==> q[0] in Busy(s)
  {
    assert q != [] ==> T.Queued(s.inner, q[0], 0) && CpuInv(s, q[0]);
  }

  /**
    Every run can go on, without another call, to a state in which nobody is in the lock:
    every CPU is outside both routines or polls.
  */
  lemma CanAlwaysSettle(n: nat, val: int, tr: seq<State>, ev: seq<Event>)
    returns (tr': seq<State>, more: seq<Event>)
    requires n <= T.HALF && 0 <= val && IsRun(n, val, tr, ev)
    ensures IsRun(n, val, tr + tr', ev + more) && |tr'| == |more| && Busy((tr + tr')[|ev + more|]) == {}
    ensures forall e | e in more :: !e.act.Call?
  {
    RunKeepsInv(n, val, tr, ev, |ev|);
    var path, t;
    path, more, t := Settles(tr[|ev|]);
    Joined(tr[0], tr, ev, tr[|ev|], path, more, t);
    tr' := path[1..];
  }

  /** CPU c can come to return by its own steps. */
  ghost predicate ReturnsAlone(s: State, c: nat)
  {
    exists tr, ev, t :: Leads(s, tr, ev, t) && By(ev, c) && c < |t.pcs| && t.pcs[c].Outside?
  }

  /**
    In every reachable state in which nobody is in the lock, a call that polls can return
    by its own steps if and only if there is something to take, or room to give back to;
    when it has returned, `val` is one less, or one more.
  */
  lemma ReturnsAloneIff(n: nat, val: int, tr: seq<State>, ev: seq<Event>, c: nat, up: bool)
    requires n <= T.HALF && 0 <= val && IsRun(n, val, tr, ev) && Busy(tr[|ev|]) == {}
    requires c < |tr[|ev|].pcs| && tr[|ev|].pcs[c] == Poll(up)
    ensures ReturnsAlone(tr[|ev|], c) <==> if up then tr[|ev|].val < val else tr[|ev|].val > 0
    ensures forall path, more, t | Leads(tr[|ev|], path, more, t) && By(more, c) && c < |t.pcs| && t.pcs[c].Outside? ::
              t.val == if up then tr[|ev|].val + 1 else tr[|ev|].val - 1
  {
    var s := tr[|ev|];
    RunKeepsInv(n, val, tr, ev, |ev|);
    if CanMove(s, up) {
      var q :| T.QueueInv(s.inner, q);
      QueuedIsBusy(s, q);
      var u := Goto(s, c, Acquire(up));
      StepKeepsInv(s, u, c, Continue);
      var tr1, ev1, t := Finishes(u, q, c);
      StepLeads(s, u, Event(c, Continue), tr1, ev1, t);
      assert By([Event(c, Continue)] + ev1, c);
    }
    forall path, more, t | Leads(s, path, more, t) && By(more, c) && c < |t.pcs| && t.pcs[c].Outside?
      ensures CanMove(s, up) && t.val == Moved(s.val, up)
    {
      Keeps(s, path, more, |more|, c, up);
    }
  }

  /** Where a polling CPU that goes on alone will come to. */
  ghost predicate OnCourse(s: State, t: State, c: nat, up: bool)
    requires c < |s.pcs|
  {
    && c < |t.pcs| && Inv(t) && |t.pcs| == |s.pcs| && t.limit == s.limit
    && (t.pcs[c] == Poll(up) ==> t.val == s.val)
    && (t.pcs[c] != Poll(up) ==> CanMove(s, up) && Outcome(t, c) == (Outside, Moved(s.val, up)))
  }

  lemma {:induction false} Keeps(s: State, path: seq<State>, more: seq<Event>, k: nat, c: nat, up: bool)
    requires Inv(s) && |s.pcs| <= T.HALF && c < |s.pcs| && s.pcs[c] == Poll(up)
    requires |path| == |more| + 1 && Leads(s, path, more, path[|more|]) && By(more, c) && k <= |more|
    ensures OnCourse(s, path[k], c, up)
  {
    if k > 0 {
      Keeps(s, path, more, k - 1, c, up);
      var e := more[k - 1];
      assert Step(path[k - 1], path[k - 1 + 1], e.cpu, e.act) && e in more;
      StepKeepsInv(path[k - 1], path[k], c, e.act);
    }
  }
}
