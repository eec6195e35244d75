/**
  The recursive lock: a ticket lock with an owner and a nesting depth. `holder` is
  read before the inner lock is taken, so every access to it is a separate step.
*/
module RecursiveLock {
  import T = TicketLock

  /** The next access of a CPU in `recursive_lock` or `recursive_unlock`. */
  datatype Pc =
    | Outside
    | Acquire                  // in spin_lock on the inner lock
    | SetHolder
    | LoadForInc
    | StoreInc(depth: int)
    | AssertHolder
    | AssertDepth
    | LoadForDec
    | StoreDec(depth: int)
    | TestDepth
    | ClearHolder
    | Release                  // in spin_unlock on the inner lock
    | Panicked

  /** `held[c]` counts the acquisitions of CPU c that it has not yet undone. */
  datatype State = State(inner: T.State, holder: int, depth: int, pcs: seq<Pc>, held: seq<int>)

  /** What a CPU chooses to do next; only a CPU outside both routines has a choice of call. */
  datatype Action = CallLock | CallUnlock | Inner(act: T.Action) | Continue

  datatype Event = Event(cpu: nat, act: Action)

  function Init(n: nat): State
  {
    State(T.Init(n), -1, 0, seq(n, _ => Outside), seq(n, _ => 0))
  }

  function Goto(s: State, c: nat, pc: Pc): State
    requires c < |s.pcs|
  {
    s.(pcs := s.pcs[c := pc])
  }

  /** CPU c is in a call, at a step on `holder` or `depth`. */
  predicate OnFields(pc: Pc)
  {
    !pc.Outside? && !pc.Acquire? && !pc.Release? && !pc.Panicked?
  }

  /** That step. */
  function Next(s: State, c: nat): State
    requires c < |s.pcs| == |s.held| && OnFields(s.pcs[c])
  {
    match s.pcs[c]
    case SetHolder => Goto(s, c, LoadForInc).(holder := c)
    case LoadForInc => Goto(s, c, StoreInc(s.depth + 1))
    case StoreInc(d) => Goto(s, c, Outside).(depth := d, held := s.held[c := s.held[c] + 1])
    case AssertHolder => Goto(s, c, if s.holder == c then AssertDepth else Panicked)
    case AssertDepth => Goto(s, c, if s.depth > 0 then LoadForDec else Panicked)
    case LoadForDec => Goto(s, c, StoreDec(s.depth - 1))
    case StoreDec(d) => Goto(s, c, TestDepth).(depth := d, held := s.held[c := s.held[c] - 1])
    case TestDepth => Goto(s, c, if s.depth == 0 then ClearHolder else Outside)
    case ClearHolder => Goto(s, c, Release).(holder := -1)
  }

  ghost predicate Step(s: State, t: State, c: nat, a: Action)
  {
    && c < |s.pcs| == |s.inner.pcs| == |s.held|
    && match (s.pcs[c], a)
       case (Outside, CallLock) =>
         t == Goto(s, c, if s.holder != c then Acquire else LoadForInc)
       case (Outside, CallUnlock) => t == Goto(s, c, AssertHolder)
       case (Acquire, Inner(act)) =>
         && !act.ReadHead? && !act.StoreHead?
         && T.Step(s.inner, t.inner, c, act)
         && |t.inner.pcs| == |s.inner.pcs|
         && t == Goto(s, c, if t.inner.pcs[c].Holding? then SetHolder else Acquire).(inner := t.inner)
       case (Release, Inner(act)) =>
         && (act.ReadHead? || act.StoreHead?)
         && T.Step(s.inner, t.inner, c, act)
         && t == Goto(s, c, if act.StoreHead? then Outside else Release).(inner := t.inner)
       case (pc, Continue) => OnFields(pc) && t == Next(s, c)
       case _ => false
  }

  ghost predicate IsRun(n: nat, tr: seq<State>, ev: seq<Event>)
  {
    && |tr| == |ev| + 1
    && tr[0] == Init(n)
    && forall i {:trigger ev[i]} | 0 <= i < |ev| :: Step(tr[i], tr[i + 1], ev[i].cpu, ev[i].act)
  }

  ghost predicate Owns(s: State, c: nat)
    requires c < |s.inner.pcs|
  {
    s.inner.pcs[c].Inside()
  }

  /** The CPU inside the inner lock: where it can be, and what it knows there. */
  ghost predicate OwnerInv(s: State, c: nat)
    requires c < |s.pcs| == |s.inner.pcs| == |s.held|
  {
    match s.pcs[c]
    case SetHolder => s.inner.pcs[c].Holding? && s.holder == -1 && s.depth == s.held[c] == 0
    case Release => s.holder == -1 && s.depth == s.held[c] == 0
    case Acquire => false
    case Panicked => false
    case pc =>
      && s.inner.pcs[c].Holding?
      && s.holder == c
      && s.depth == s.held[c] >= 0
      && (pc.Outside? || pc.AssertHolder? || pc.AssertDepth? || pc.LoadForDec? || pc.StoreDec? ==> s.held[c] > 0)
      && (pc.ClearHolder? ==> s.held[c] == 0)
      && (pc.StoreInc? ==> pc.depth == s.depth + 1)
      && (pc.StoreDec? ==> pc.depth == s.depth - 1)
  }

  /** Any other CPU holds nothing: it is outside, queueing for the inner lock, or failing an unlock. */
  ghost predicate OtherInv(s: State, c: nat)
    requires c < |s.pcs| == |s.inner.pcs| == |s.held|
  {
    && s.held[c] == 0
    && s.holder != c
    && (s.pcs[c].Acquire? || s.inner.pcs[c].Idle?)
    && (s.pcs[c].Acquire? || s.pcs[c].Outside? || s.pcs[c].AssertHolder? || s.pcs[c].Panicked?)
  }

  ghost predicate CpuInv(s: State, c: nat)
    requires c < |s.pcs| == |s.inner.pcs| == |s.held|
  {
    if Owns(s, c) then OwnerInv(s, c) else OtherInv(s, c)
  }

  ghost predicate Free(s: State)
  {
    forall c: nat | c < |s.inner.pcs| :: !Owns(s, c)
  }

  ghost predicate Inv(s: State)
  {
    && T.Inv(s.inner)
    && |s.pcs| == |s.inner.pcs| == |s.held|
    && (forall c: nat | c < |s.pcs| :: CpuInv(s, c))
    && (Free(s) ==> s.holder == -1 && s.depth == 0)
  }

  lemma InitInv(n: nat)
    ensures Inv(Init(n))
  {
    T.InitInv(n);
  }

  /** A step inside the inner lock's code, taken while queueing or releasing. */
  lemma InnerStepKeeps(s: State, t: State, c: nat, act: T.Action)
    requires Inv(s) && |s.pcs| <= T.HALF && Step(s, t, c, Inner(act))
    ensures Inv(t)
  {
    T.StepKeepsInv(s.inner, t.inner, c, act);
    T.InvMutex(s.inner);
    T.InvMutex(t.inner);
    assert CpuInv(s, c);
    if !Owns(s, c) && (Owns(t, c) || Free(t)) {
      forall d: nat | d < |s.pcs|
        ensures !Owns(s, d)
      {
        assert d != c ==> t.inner.pcs[d] == s.inner.pcs[d];
        assert Free(t) ==> !Owns(t, d);
      }
      assert Free(s);
    }
    forall d: nat | d < |t.pcs|
      ensures CpuInv(t, d)
    {
      assert CpuInv(s, d);
    }
  }

  /** A step on `holder` or `depth`; away from the first reads, only the owner takes these. */
  lemma OwnStepKeeps(s: State, t: State, c: nat, a: Action)
    requires Inv(s) && Step(s, t, c, a) && !a.Inner?
    ensures Inv(t)
  {
    T.InvMutex(s.inner);
    assert CpuInv(s, c);
    forall d: nat | d < |t.pcs|
      ensures CpuInv(t, d)
    {
      assert CpuInv(s, d);
    }
    assert Free(t) ==> Free(s) by {
      forall d: nat | d < |s.pcs| && Owns(s, d)
        ensures Owns(t, d)
      {
      }
    }
  }

  lemma {:induction false} RunKeepsInv(n: nat, tr: seq<State>, ev: seq<Event>, k: nat)
    requires n <= T.HALF && IsRun(n, tr, ev) && k < |tr|
    ensures Inv(tr[k]) && |tr[k].pcs| == n
  {
    if k == 0 {
      InitInv(n);
    } else {
      RunKeepsInv(n, tr, ev, k - 1);
      var c, a := ev[k - 1].cpu, ev[k - 1].act;
      assert Step(tr[k - 1], tr[k - 1 + 1], c, a);
      if a.Inner? {
        InnerStepKeeps(tr[k - 1], tr[k], c, a.act);
      } else {
        OwnStepKeeps(tr[k - 1], tr[k], c, a);
      }
    }
  }

  lemma StepKeepsInv(s: State, t: State, c: nat, a: Action)
    requires Inv(s) && |s.pcs| <= T.HALF && Step(s, t, c, a)
    ensures Inv(t)
  {
    if a.Inner? { InnerStepKeeps(s, t, c, a.act); } else { OwnStepKeeps(s, t, c, a); }
  }

  // ----- calls and acquisitions

  /** The calls of lock by CPU c among the events, minus its calls of unlock. */
  ghost function Outstanding(ev: seq<Event>, c: nat): int
  {
    if ev == [] then 0 else Outstanding(ev[..|ev| - 1], c) + Change(ev[|ev| - 1], c)
  }

  /** What the call that a CPU is in has yet to do to its count of acquisitions. */
  function Owed(pc: Pc): int
  {
    match pc
    case Acquire => 1
    case SetHolder => 1
    case LoadForInc => 1
    case StoreInc(_) => 1
    case AssertHolder => -1
    case AssertDepth => -1
    case LoadForDec => -1
    case StoreDec(_) => -1
    case Panicked => -1
    case _ => 0
  }

  function Change(e: Event, c: nat): int
  {
    if e == Event(c, CallLock) then 1 else if e == Event(c, CallUnlock) then -1 else 0
  }

  lemma StepOwes(s: State, t: State, e: Event, c: nat)
    requires Step(s, t, e.cpu, e.act) && c < |s.pcs|
    ensures t.held[c] + Owed(t.pcs[c]) == s.held[c] + Owed(s.pcs[c]) + Change(e, c)
  {
  }

  /** Every call of lock adds one acquisition, and every call of unlock that does not panic undoes one. */
  lemma {:induction false} HeldIsCalls(n: nat, tr: seq<State>, ev: seq<Event>, k: nat, c: nat)
    requires n <= T.HALF && IsRun(n, tr, ev) && k < |tr| && c < n
    ensures c < |tr[k].pcs| == |tr[k].held| && Outstanding(ev[..k], c) == tr[k].held[c] + Owed(tr[k].pcs[c])
  {
    RunKeepsInv(n, tr, ev, k);
    if k > 0 {
      HeldIsCalls(n, tr, ev, k - 1, c);
      assert Step(tr[k - 1], tr[k - 1 + 1], ev[k - 1].cpu, ev[k - 1].act);
      StepOwes(tr[k - 1], tr[k], ev[k - 1], c);
      assert ev[..k][..k - 1] == ev[..k - 1];
    }
  }

  /** What holds in every reachable state of CPU c, which has called lock `calls` times more than unlock. */
  ghost predicate Balanced(s: State, c: nat, calls: int)
    requires c < |s.pcs| == |s.inner.pcs|
  {
    var held := calls - Owed(s.pcs[c]);
    && held >= 0
    && (s.pcs[c].Panicked? ==> held == 0 && !Owns(s, c))
    && (s.holder == c ==> Owns(s, c))
    && (held > 0 ==> Owns(s, c) && s.holder == c)
    && (Owns(s, c) ==> s.depth == held)
    && (s.pcs[c].Outside? ==> held == calls && (Owns(s, c) <==> calls > 0))
  }

  /**
    In every interleaving of up to 2^16 CPUs: the inner lock has at most one owner;
    outside the two routines a CPU owns it exactly when it has called lock more often
    than unlock, `holder` then names it, and `depth` is the difference; inside them the
    same holds with the call under way left out until it has done its part; and only a
    CPU that had nothing to undo can have panicked.
  */
  lemma ExclusiveAndBalanced(n: nat, tr: seq<State>, ev: seq<Event>, k: nat)
    requires n <= T.HALF && IsRun(n, tr, ev) && k < |tr|
    ensures |tr[k].pcs| == |tr[k].inner.pcs| == n
    ensures forall c: nat | c < n :: Balanced(tr[k], c, Outstanding(ev[..k], c))
    ensures forall c: nat, d: nat | c < n && d < n && Owns(tr[k], c) && Owns(tr[k], d) :: c == d
  {
    RunKeepsInv(n, tr, ev, k);
    T.InvMutex(tr[k].inner);
    forall c: nat | c < n
      ensures Balanced(tr[k], c, Outstanding(ev[..k], c))
    {
      HeldIsCalls(n, tr, ev, k, c);
      assert CpuInv(tr[k], c);
    }
  }

  /**
    The inner lock changes hands only at the outermost calls: the step that gives it up
    ends a call of unlock that matches the outermost lock, and the one that gains it is
    in a call of lock with nothing outstanding before it.
  */
  lemma ReleasedAtOutermost(n: nat, tr: seq<State>, ev: seq<Event>, k: nat, c: nat)
    requires n <= T.HALF && IsRun(n, tr, ev) && k < |ev| && c < n
    requires c < |tr[k].inner.pcs| && c < |tr[k + 1].inner.pcs|
    requires Owns(tr[k], c) != Owns(tr[k + 1], c)
    ensures ev[k].cpu == c
    ensures Outstanding(ev[..k + 1], c) == Outstanding(ev[..k], c) == if Owns(tr[k], c) then 0 else 1
    ensures Owns(tr[k], c) ==>
              c < |tr[k + 1].pcs| && tr[k + 1].pcs[c].Outside? && tr[k + 1].holder == -1 && tr[k + 1].depth == 0
  {
    RunKeepsInv(n, tr, ev, k);
    RunKeepsInv(n, tr, ev, k + 1);
    HeldIsCalls(n, tr, ev, k, c);
    HeldIsCalls(n, tr, ev, k + 1, c);
    assert Step(tr[k], tr[k + 1], ev[k].cpu, ev[k].act);
    assert CpuInv(tr[k], c);
    if ev[k].act.Inner? {
      T.StepKeepsInv(tr[k].inner, tr[k + 1].inner, ev[k].cpu, ev[k].act.act);
    }
  }

  /** The steps of other CPUs leave a CPU where it is, with what it holds. */
  lemma {:induction false} OthersStep(n: nat, tr: seq<State>, ev: seq<Event>, i: nat, j: nat, c: nat)
    requires n <= T.HALF && IsRun(n, tr, ev) && i <= j < |tr| && c < n
    requires forall k | i <= k < j :: ev[k].cpu != c
    ensures c < |tr[i].pcs| == |tr[i].held| && c < |tr[j].pcs| == |tr[j].held|
    ensures tr[j].pcs[c] == tr[i].pcs[c] && tr[j].held[c] == tr[i].held[c]
  {
    RunKeepsInv(n, tr, ev, i);
    RunKeepsInv(n, tr, ev, j);
    if i < j {
      OthersStep(n, tr, ev, i, j - 1, c);
      assert Step(tr[j - 1], tr[j - 1 + 1], ev[j - 1].cpu, ev[j - 1].act);
    }
  }

  /** The assertions of an unlock fail exactly if its CPU has now called unlock more often than lock. */
  lemma AssertionFailsIff(n: nat, tr: seq<State>, ev: seq<Event>, k: nat, c: nat)
    requires n <= T.HALF && IsRun(n, tr, ev) && k < |ev| && c < n && ev[k].cpu == c
    requires c < |tr[k].pcs| && (tr[k].pcs[c].AssertHolder? || tr[k].pcs[c].AssertDepth?)
    ensures c < |tr[k].held| && c < |tr[k + 1].pcs|
    ensures tr[k + 1].pcs[c].Panicked? <==> tr[k].held[c] == 0
    ensures tr[k + 1].pcs[c].Panicked? <==> Outstanding(ev[..k], c) < 0
  {
    RunKeepsInv(n, tr, ev, k);
    HeldIsCalls(n, tr, ev, k, c);
    assert Step(tr[k], tr[k + 1], ev[k].cpu, ev[k].act);
    assert CpuInv(tr[k], c);
  }

  /**
    In every interleaving, a call of the unlock panics at its first step if and only
    if the caller has not called lock more often than unlock when it calls.
  */
  lemma UnlockPanicsIff(n: nat, tr: seq<State>, ev: seq<Event>, i: nat, j: nat, c: nat)
    requires n <= T.HALF && IsRun(n, tr, ev) && i < j < |ev| && c < n
    requires ev[i] == Event(c, CallUnlock) && ev[j].cpu == c && forall k | i < k < j :: ev[k].cpu != c
    ensures c < |tr[j + 1].pcs|
    ensures tr[j + 1].pcs[c].Panicked? <==> Outstanding(ev[..i], c) == 0
  {
    RunKeepsInv(n, tr, ev, i);
    HeldIsCalls(n, tr, ev, i, c);
    assert Step(tr[i], tr[i + 1], ev[i].cpu, ev[i].act);
    OthersStep(n, tr, ev, i + 1, j, c);
    AssertionFailsIff(n, tr, ev, j, c);
  }

  // ----- what can still happen

  /** A path leads from s to t. */
  ghost predicate Leads(s: State, tr: seq<State>, ev: seq<Event>, t: State)
  {
    && |tr| == |ev| + 1 && tr[0] == s && tr[|ev|] == t
    && forall i {:trigger ev[i]} | 0 <= i < |ev| :: Step(tr[i], tr[i + 1], ev[i].cpu, ev[i].act)
  }

  lemma Joined(s: State, tr: seq<State>, ev: seq<Event>, t: State, tr': seq<State>, ev': seq<Event>, u: State)
    requires Leads(s, tr, ev, t) && Leads(t, tr', ev', u)
    ensures Leads(s, tr + tr'[1..], ev + ev', u)
  {
    var tt, ee := tr + tr'[1..], ev + ev';
    forall i | 0 <= i < |ee|
      ensures Step(tt[i], tt[i + 1], ee[i].cpu, ee[i].act)
    {
      if i < |ev| {
        assert Step(tr[i], tr[i + 1], ev[i].cpu, ev[i].act);
      } else {
        var j := i - |ev|;
        assert Step(tr'[j], tr'[j + 1], ev'[j].cpu, ev'[j].act);
      }
    }
  }

  lemma StepLeads(s: State, t: State, e: Event, tr: seq<State>, ev: seq<Event>, u: State)
    requires Step(s, t, e.cpu, e.act) && Leads(t, tr, ev, u)
    ensures Leads(s, [s] + tr, [e] + ev, u)
  {
    assert Leads(s, [s, t], [e], t);
    Joined(s, [s, t], [e], t, tr, ev, u);
    assert [s, t] + tr[1..] == [s] + tr;
  }

  /** Everybody but c is where it was, with what it holds. */
  ghost predicate OthersStay(s: State, t: State, c: nat)
  {
    && |t.pcs| == |s.pcs| == |s.held| == |t.held|
    && forall d | 0 <= d < |s.pcs| && d != c :: t.pcs[d] == s.pcs[d] && t.held[d] == s.held[d]
  }

  /** How many steps the call that a CPU is in has to go, if it has not to wait for the inner lock. */
  function ToGo(s: State, c: nat): nat
    requires c < |s.pcs| == |s.inner.pcs| == |s.inner.linked|
  {
    match s.pcs[c]
    case Acquire => 10 + T.ToGo(s.inner, c)
    case AssertHolder => 9
    case AssertDepth => 8
    case LoadForDec => 7
    case StoreDec(_) => 6
    case TestDepth => 5
    case ClearHolder => 4
    case Release => if s.inner.pcs[c].Holding? then 3 else 2
    case SetHolder => 3
    case LoadForInc => 2
    case StoreInc(_) => 1
    case _ => 0
  }

  /** How the call that CPU c is in will end, and what c then holds. */
  function Outcome(s: State, c: nat): (Pc, int)
    requires c < |s.pcs| == |s.held|
  {
    if s.pcs[c].Panicked? || (Owed(s.pcs[c]) < 0 && s.held[c] == 0) then (Panicked, 0)
    else (Outside, s.held[c] + Owed(s.pcs[c]))
  }

  /** The inner lock is not in the way of CPU c: if c is about to take it, nobody is before it. */
  ghost predicate NotBlocked(s: State, q: seq<nat>, c: nat)
    requires c < |s.pcs|
  {
    s.pcs[c].Acquire? ==> T.QueueInv(s.inner, q) && (q == [] || q[0] == c)
  }

  /** A step of c inside a call takes it closer to its outcome. */
  ghost predicate Approaches(s: State, c: nat, a: Action, t: State, r: seq<nat>)
    requires c < |s.pcs| == |s.inner.pcs| == |s.inner.linked| && |s.pcs| == |s.held|
  {
    && Step(s, t, c, a) && !a.CallLock? && !a.CallUnlock? && Inv(t) && OthersStay(s, t, c)
    && |t.inner.pcs| == |t.inner.linked| && |t.pcs| == |t.inner.pcs|
    && ToGo(t, c) < ToGo(s, c) && Outcome(t, c) == Outcome(s, c) && NotBlocked(t, r, c)
  }

  lemma CloserInner(s: State, q: seq<nat>, c: nat) returns (a: Action, t: State, r: seq<nat>)
    requires Inv(s) && |s.pcs| <= T.HALF && c < |s.pcs| == |s.inner.linked| && NotBlocked(s, q, c)
    requires s.pcs[c].Acquire? || s.pcs[c].Release?
    ensures Approaches(s, c, a, t, r)
  {
    assert CpuInv(s, c);
    r := q;
    if s.pcs[c].Acquire? {
      var act, inner;
      act, inner, r := T.Closer(s.inner, q, c);
      a, t := Inner(act), Goto(s, c, if inner.pcs[c].Holding? then SetHolder else Acquire).(inner := inner);
    } else {
      var act, inner := T.NextAccess(s.inner, c);
      a, t := Inner(act), Goto(s, c, if act.StoreHead? then Outside else Release).(inner := inner);
    }
    InnerStepKeeps(s, t, c, a.act);
  }

  lemma CloserOwn(s: State, c: nat)
    requires Inv(s) && |s.pcs| <= T.HALF && c < |s.pcs| == |s.inner.linked|
    requires OnFields(s.pcs[c])
    ensures Approaches(s, c, Continue, Next(s, c), [])
  {
    CloserNext(s, c);
    OwnStepKeeps(s, Next(s, c), c, Continue);
  }

  lemma CloserNext(s: State, c: nat)
    requires Inv(s) && c < |s.pcs| == |s.inner.linked|
    requires OnFields(s.pcs[c])
    ensures var t := Next(s, c);
            && Step(s, t, c, Continue) && OthersStay(s, t, c) && t.inner == s.inner && !t.pcs[c].Acquire?
            && ToGo(t, c) < ToGo(s, c) && Outcome(t, c) == Outcome(s, c)
  {
    assert CpuInv(s, c);
  }

  /** Unless it has to wait for the inner lock, a CPU inside a call has a step that takes it closer to the end. */
  lemma Closer(s: State, q: seq<nat>, c: nat) returns (a: Action, t: State, r: seq<nat>)
    requires Inv(s) && |s.pcs| <= T.HALF && c < |s.pcs| == |s.inner.linked| && NotBlocked(s, q, c) && ToGo(s, c) > 0
    ensures Approaches(s, c, a, t, r)
  {
    if s.pcs[c].Acquire? || s.pcs[c].Release? {
      a, t, r := CloserInner(s, q, c);
    } else {
      CloserOwn(s, c);
      a, t, r := Continue, Next(s, c), [];
    }
  }

  lemma Linked(s: State)
    requires Inv(s)
    ensures |s.inner.linked| == |s.pcs|
  {
  }

  /** CPU c has a step; outside both routines it can call either. */
  ghost predicate CanStep(s: State, c: nat)
    requires c < |s.pcs|
  {
    if s.pcs[c].Outside? then (exists t :: Step(s, t, c, CallLock)) && (exists t :: Step(s, t, c, CallUnlock))
    else exists a, t :: Step(s, t, c, a)
  }

  /** No CPU is ever without a step, except one that has panicked. */
  lemma NeverStuck(n: nat, tr: seq<State>, ev: seq<Event>, k: nat, c: nat)
    requires n <= T.HALF && IsRun(n, tr, ev) && k < |tr| && c < n
    ensures c < |tr[k].pcs| && (tr[k].pcs[c].Panicked? || CanStep(tr[k], c))
  {
    RunKeepsInv(n, tr, ev, k);
    var s := tr[k];
    Linked(s);
    if s.pcs[c].Outside? {
      assert Step(s, Goto(s, c, if s.holder != c then Acquire else LoadForInc), c, CallLock);
      assert Step(s, Goto(s, c, AssertHolder), c, CallUnlock);
    } else if s.pcs[c].Acquire? {
      assert CpuInv(s, c);
      var act, inner := T.NextAccess(s.inner, c);
      var pc := if inner.pcs[c].Holding? then SetHolder else Acquire;
      assert Step(s, Goto(s, c, pc).(inner := inner), c, Inner(act));
    } else if !s.pcs[c].Panicked? {
      var a, t, r := Closer(s, [], c);
    }
  }

  ghost predicate By(ev: seq<Event>, c: nat)
  {
    forall e | e in ev :: e.cpu == c && !e.act.CallLock?
  }

  /** A call that has not to wait for the inner lock comes to its outcome by its own steps. */
  lemma {:induction false} Finishes(s: State, q: seq<nat>, c: nat) returns (tr: seq<State>, ev: seq<Event>, t: State)
    requires Inv(s) && |s.pcs| <= T.HALF && c < |s.pcs| == |s.inner.linked| && NotBlocked(s, q, c)
    ensures Leads(s, tr, ev, t) && By(ev, c) && Inv(t) && OthersStay(s, t, c)
    ensures (t.pcs[c], t.held[c]) == Outcome(s, c)
    decreases ToGo(s, c)
  {
    if ToGo(s, c) == 0 {
      assert CpuInv(s, c);
      tr, ev, t := [s], [], s;
    } else {
      var a, u, r := Closer(s, q, c);
      tr, ev, t := Finishes(u, r, c);
      StepLeads(s, u, Event(c, a), tr, ev, t);
      tr, ev := [s] + tr, [Event(c, a)] + ev;
    }
  }

  /** The CPU holds nothing and is in no call, or has panicked. */
  predicate Clear(s: State, c: nat)
    requires c < |s.pcs| == |s.held|
  {
    s.pcs[c].Panicked? || (s.pcs[c].Outside? && s.held[c] == 0)
  }

  /** A CPU that has not to wait for the inner lock can finish its call and unlock until it holds nothing. */
  lemma {:induction false} GivesUp(s: State, q: seq<nat>, c: nat) returns (tr: seq<State>, ev: seq<Event>, t: State)
    requires Inv(s) && |s.pcs| <= T.HALF && c < |s.pcs| == |s.inner.linked| && NotBlocked(s, q, c)
    ensures Leads(s, tr, ev, t) && By(ev, c) && Inv(t) && OthersStay(s, t, c)
    ensures Clear(t, c) && (t.pcs[c].Panicked? <==> Outcome(s, c).0.Panicked?)
    decreases Outcome(s, c).1
  {
    tr, ev, t := Finishes(s, q, c);
    Linked(t);
    if !Clear(t, c) {
      var u := Goto(t, c, AssertHolder);
      assert Step(t, u, c, CallUnlock);
      OwnStepKeeps(t, u, c, CallUnlock);
      assert CpuInv(t, c);
      var tr1, ev1, v := GivesUp(u, [], c);
      StepLeads(t, u, Event(c, CallUnlock), tr1, ev1, v);
      Joined(s, tr, ev, t, [t] + tr1, [Event(c, CallUnlock)] + ev1, v);
      tr, ev, t := tr + ([t] + tr1)[1..], ev + ([Event(c, CallUnlock)] + ev1), v;
    }
  }

  ghost function Unclear(s: State): set<nat>
    requires |s.pcs| == |s.held|
  {
    set c: nat | c < |s.pcs| && !Clear(s, c)
  }

  lemma QueuedIsUnclear(s: State, q: seq<nat>)
    requires Inv(s) && T.QueueInv(s.inner, q)
    ensures q != [] ==> q[0] in Unclear(s)
  {
    assert q != [] ==> T.Queued(s.inner, q[0], 0) && CpuInv(s, q[0]);
  }

  lemma Foremost(s: State) returns (c: nat, q: seq<nat>)
    requires Inv(s) && Unclear(s) != {}
    ensures c in Unclear(s) && NotBlocked(s, q, c)
  {
    q :| T.QueueInv(s.inner, q);
    QueuedIsUnclear(s, q);
    if q == [] {
      c :| c in Unclear(s);
    } else {
      c := q[0];
    }
  }

  /** In t only those have panicked that had in s, or were in an unlock with nothing to undo. */
  ghost predicate NoNewPanic(s: State, t: State)
    requires |s.pcs| == |s.held| == |t.pcs|
  {
    forall d: nat | d < |s.pcs| :: t.pcs[d].Panicked? ==> Outcome(s, d).0.Panicked?
  }

  /** Everybody can finish and give up what it holds, without another call of lock. */
  lemma {:induction false} AllGiveUp(s: State) returns (tr: seq<State>, ev: seq<Event>, t: State)
    requires Inv(s) && |s.pcs| <= T.HALF
    ensures Leads(s, tr, ev, t) && Inv(t) && |t.pcs| == |s.pcs| && Unclear(t) == {}
    ensures NoNewPanic(s, t) && forall e | e in ev :: !e.act.CallLock?
    decreases |Unclear(s)|
  {
    Linked(s);
    if Unclear(s) == {} {
      tr, ev, t := [s], [], s;
    } else {
      var c, q := Foremost(s);
      var tr1, ev1, u := GivesUp(s, q, c);
      assert Unclear(s) == Unclear(u) + {c};
      tr, ev, t := AllGiveUp(u);
      Joined(s, tr1, ev1, u, tr, ev, t);
      tr, ev := tr1 + tr[1..], ev1 + ev;
    }
  }

  /** The run goes on through the states `tr'` with the events `more`. */
  ghost predicate GoesOn(n: nat, tr: seq<State>, ev: seq<Event>, tr': seq<State>, more: seq<Event>)
  {
    |tr'| == |more| && IsRun(n, tr + tr', ev + more)
  }

  lemma RunLeads(n: nat, tr: seq<State>, ev: seq<Event>, path: seq<State>, more: seq<Event>, t: State)
    requires IsRun(n, tr, ev) && Leads(tr[|ev|], path, more, t)
    ensures GoesOn(n, tr, ev, path[1..], more) && (tr + path[1..])[|ev + more|] == t
  {
    Joined(tr[0], tr, ev, tr[|ev|], path, more, t);
  }

  /**
    Every run can go on, without another call of lock, until every CPU is outside with
    as many unlocks as locks, or has panicked.
  */
  lemma CanAlwaysBeFree(n: nat, tr: seq<State>, ev: seq<Event>) returns (tr': seq<State>, more: seq<Event>, t: State)
    requires n <= T.HALF && IsRun(n, tr, ev)
    ensures GoesOn(n, tr, ev, tr', more) && t == (tr + tr')[|ev + more|] && |t.pcs| == n
    ensures forall c: nat | c < n :: t.pcs[c].Panicked? || (t.pcs[c].Outside? && Outstanding(ev + more, c) == 0)
    ensures forall e | e in more :: !e.act.CallLock?
  {
    RunKeepsInv(n, tr, ev, |ev|);
    var path;
    path, more, t := AllGiveUp(tr[|ev|]);
    RunLeads(n, tr, ev, path, more, t);
    tr' := path[1..];
    forall c: nat | c < n
      ensures t.pcs[c].Panicked? || (t.pcs[c].Outside? && Outstanding(ev + more, c) == 0)
    {
      HeldIsCalls(n, tr + tr', ev + more, |ev + more|, c);
      assert (ev + more)[..|ev + more|] == ev + more;
      assert c !in Unclear(t);
    }
  }

  /** Once everybody is clear, a call of lock returns with the lock. */
  lemma LocksAlone(s: State, c: nat) returns (tr: seq<State>, ev: seq<Event>, t: State)
    requires Inv(s) && |s.pcs| <= T.HALF && Unclear(s) == {} && c < |s.pcs| && s.pcs[c].Outside?
    ensures Leads(s, tr, ev, t) && Inv(t) && |t.pcs| == |s.pcs| && t.pcs[c].Outside? && t.held[c] == 1
  {
    var q :| T.QueueInv(s.inner, q);
    QueuedIsUnclear(s, q);
    assert c !in Unclear(s) && CpuInv(s, c);
    var u := Goto(s, c, Acquire);
    assert Step(s, u, c, CallLock);
    OwnStepKeeps(s, u, c, CallLock);
    tr, ev, t := Finishes(u, q, c);
    StepLeads(s, u, Event(c, CallLock), tr, ev, t);
    tr, ev := [s] + tr, [Event(c, CallLock)] + ev;
  }

  /** Every run can go on so that a CPU that is outside both routines gets the lock, for a single call. */
  lemma CanAlwaysLock(n: nat, tr: seq<State>, ev: seq<Event>, c: nat)
    returns (tr': seq<State>, more: seq<Event>, t: State)
    requires n <= T.HALF && IsRun(n, tr, ev) && c < n && c < |tr[|ev|].pcs| && tr[|ev|].pcs[c].Outside?
    ensures GoesOn(n, tr, ev, tr', more) && t == (tr + tr')[|ev + more|]
    ensures |t.pcs| == |t.inner.pcs| == n && t.pcs[c].Outside? && Owns(t, c) && Outstanding(ev + more, c) == 1
  {
    var s := tr[|ev|];
    RunKeepsInv(n, tr, ev, |ev|);
    var tr1, ev1, u := AllGiveUp(s);
    assert c !in Unclear(u);
    var tr2, ev2;
    tr2, ev2, t := LocksAlone(u, c);
    Joined(s, tr1, ev1, u, tr2, ev2, t);
    more := ev1 + ev2;
    RunLeads(n, tr, ev, tr1 + tr2[1..], more, t);
    tr' := (tr1 + tr2[1..])[1..];
    HeldIsCalls(n, tr + tr', ev + more, |ev + more|, c);
    assert (ev + more)[..|ev + more|] == ev + more;
    assert CpuInv(t, c);
  }
}
