/**
  The MIPS ticket lock as a step system over any number of CPUs.

  The lock is one 32-bit word: the low half is `head` (the ticket being served),
  the high half is `tail` (the next ticket to hand out). A CPU takes a ticket with
  an LL/SC pair on the whole word and releases with a read and a store of the low
  half alone. Every memory access is a separate step, and memory is sequentially
  consistent.
*/
module TicketLock {

  const HALF: nat := 0x1_0000
  const WORD: nat := 0x1_0000_0000

  function Head(word: nat): nat { word % HALF }

  function Tail(word: nat): nat { word / HALF }

  /** Where a CPU is in `spin_lock` / `spin_unlock`, with its live registers. */
  datatype Pc =
    | Idle
    | Loaded(val: nat)                     // LL done, SC pending
    | Waiting(ticket: nat)                 // spinning on `head`
    | Holding(ticket: nat)                 // between spin_lock and spin_unlock
    | Releasing(ticket: nat, next: nat)    // head + 1 computed, not yet stored
  {
    predicate HasTicket() { Waiting? || Holding? || Releasing? }
    predicate Inside() { Holding? || Releasing? }
  }

  /** `linked[c]` is the LL bit of CPU c: any store to the word clears it. */
  datatype State = State(word: nat, linked: seq<bool>, pcs: seq<Pc>)

  datatype Action = LoadLinked | StoreFails | StoreSucceeds | SpinRead | ReadHead | StoreHead

  datatype Event = Event(cpu: nat, act: Action)

  function Cleared(n: nat): (r: seq<bool>) { seq(n, _ => false) }

  function Init(n: nat): State { State(0, Cleared(n), seq(n, _ => Idle)) }

  /** One memory access of CPU c. SC may fail at any time, and must fail once the link is lost. */
  ghost predicate Step(s: State, t: State, c: nat, a: Action)
  {
    && c < |s.pcs| == |s.linked|
    && match a
       case LoadLinked =>
         && s.pcs[c].Idle?
         && t == s.(linked := s.linked[c := true], pcs := s.pcs[c := Loaded(s.word)])
       case StoreFails =>
         && s.pcs[c].Loaded?
         && t == s.(linked := s.linked[c := false], pcs := s.pcs[c := Idle])
       case StoreSucceeds =>
         && s.pcs[c].Loaded? && s.linked[c]
         && var val := s.pcs[c].val;
            var pc := if Head(val) == Tail(val) then Holding(Tail(val)) else Waiting(Tail(val));
            t == State((val + HALF) % WORD, Cleared(|s.pcs|), s.pcs[c := pc])
       case SpinRead =>
         && s.pcs[c].Waiting?
         && var ticket := s.pcs[c].ticket;
            t == if Head(s.word) == ticket then s.(pcs := s.pcs[c := Holding(ticket)]) else s
       case ReadHead =>
         && s.pcs[c].Holding?
         && t == s.(pcs := s.pcs[c := Releasing(s.pcs[c].ticket, Head(s.word) + 1)])
       case StoreHead =>
         && s.pcs[c].Releasing?
         && t == State(Tail(s.word) * HALF + s.pcs[c].next % HALF, Cleared(|s.pcs|), s.pcs[c := Idle])
  }

  /** A run from the initial state: `ev[i]` takes `tr[i]` to `tr[i + 1]`. */
  ghost predicate IsRun(n: nat, tr: seq<State>, ev: seq<Event>)
  {
    && |tr| == |ev| + 1
    && tr[0] == Init(n)
    && forall i {:trigger ev[i]} | 0 <= i < |ev| :: Step(tr[i], tr[i + 1], ev[i].cpu, ev[i].act)
  }

  ghost predicate MutualExclusion(s: State)
  {
    forall c, d | 0 <= c < |s.pcs| && 0 <= d < |s.pcs| && s.pcs[c].Inside() && s.pcs[d].Inside() :: c == d
  }

  ghost predicate Safe(n: nat)
  {
    forall tr, ev, k | IsRun(n, tr, ev) && 0 <= k < |tr| :: MutualExclusion(tr[k])
  }

  // ----- the queue invariant

  ghost predicate Distinct(q: seq<nat>)
  {
    forall i, j | 0 <= i < j < |q| :: q[i] != q[j]
  }

  /** CPU c is number i in the queue; only number 0 may be inside. */
  ghost predicate Queued(s: State, c: nat, i: nat)
  {
    && c < |s.pcs|
    && s.pcs[c].HasTicket()
    && s.pcs[c].ticket == (Head(s.word) + i) % HALF
    && (0 < i ==> s.pcs[c].Waiting?)
  }

  /** `q` lists the ticket holders in order of service. */
  ghost predicate QueueInv(s: State, q: seq<nat>)
  {
    && |s.linked| == |s.pcs|
    && s.word < WORD
    && Distinct(q)
    && (forall c | 0 <= c < |s.pcs| && s.pcs[c].HasTicket() :: c in q)
    && (forall i | 0 <= i < |q| :: Queued(s, q[i], i))
    && Tail(s.word) == (Head(s.word) + |q|) % HALF
    && (forall c | 0 <= c < |s.pcs| && s.pcs[c].Releasing? :: s.pcs[c].next == Head(s.word) + 1)
    && (forall c | 0 <= c < |s.pcs| && s.pcs[c].Loaded? && s.linked[c] :: s.pcs[c].val == s.word)
  }

  ghost predicate Inv(s: State)
  {
    exists q :: QueueInv(s, q)
  }

  ghost function Elements(q: seq<nat>): set<nat> { set c | c in q }

  ghost function Below(n: nat): (r: set<nat>)
    ensures |r| == n && forall c: nat :: c in r <==> c < n
  {
    if n == 0 then {} else Below(n - 1) + {n - 1}
  }

  /** A list of distinct numbers below n has at most n entries. */
  lemma DistinctBounded(q: seq<nat>, n: nat)
    requires Distinct(q) && forall i | 0 <= i < |q| :: q[i] < n
    ensures |q| <= n
  {
    SeqCard(q);
    SubsetCard(Elements(q), Below(n));
  }

  lemma {:induction false} SeqCard(q: seq<nat>)
    requires Distinct(q)
    ensures |Elements(q)| == |q|
  {
    if q != [] {
      var init := q[..|q| - 1];
      SeqCard(init);
      assert Elements(q) == Elements(init) + {q[|q| - 1]};
    }
  }

  lemma {:induction false} SubsetCard(a: set<nat>, b: set<nat>)
    requires a <= b
    ensures |a| <= |b|
  {
    if a != {} {
      var x :| x in a;
      SubsetCard(a - {x}, b - {x});
    }
  }

  lemma WrapArithmetic(head: nat, i: nat)
    requires head < HALF
    ensures ((head + 1) % HALF + i) % HALF == (head + i + 1) % HALF
    ensures i < HALF && (head + i) % HALF == head ==> i == 0
  {
  }

  lemma AddToTail(word: nat)
    requires word < WORD
    ensures var w := (word + HALF) % WORD;
            w < WORD && Head(w) == Head(word) && Tail(w) == (Tail(word) + 1) % HALF
  {
  }

  lemma TicketAfter(head: nat, tail: nat, n: nat)
    requires head < HALF && n < HALF && tail == (head + n) % HALF
    ensures (tail + 1) % HALF == (head + n + 1) % HALF
    ensures head == tail <==> n == 0
  {
  }

  /** The queue after a step: a successful SC joins it, a head store leaves it. */
  ghost function NextQueue(q: seq<nat>, c: nat, a: Action): (r: seq<nat>)
    requires a.StoreHead? ==> q != []
  {
    if a.StoreSucceeds? then q + [c] else if a.StoreHead? then q[1..] else q
  }

  /** Without the CPU c, which holds no ticket, the queue has room for one more. */
  lemma RoomInQueue(s: State, q: seq<nat>, c: nat)
    requires QueueInv(s, q) && c < |s.pcs| <= HALF && !s.pcs[c].HasTicket()
    ensures |q| < HALF
  {
    forall i | 0 <= i < |q|
      ensures q[i] != c
    {
      assert Queued(s, q[i], i);
    }
    DistinctBounded(q + [c], |s.pcs|);
  }

  lemma IndexInQueue(q: seq<nat>, c: nat) returns (i: nat)
    requires c in q
    ensures i < |q| && q[i] == c
  {
    i :| 0 <= i < |q| && q[i] == c;
  }

  /** A successful SC keeps `head`, and its CPU gets the ticket after everybody queued. */
  lemma JoinsLast(s: State, t: State, c: nat, q: seq<nat>)
    requires QueueInv(s, q) && |s.pcs| <= HALF && Step(s, t, c, StoreSucceeds)
    ensures t.word < WORD && Head(t.word) == Head(s.word) && Tail(t.word) == (Tail(s.word) + 1) % HALF
    ensures Tail(t.word) == (Head(t.word) + |q| + 1) % HALF
    ensures Queued(t, c, |q|) && (t.pcs[c].Holding? <==> q == [])
  {
    RoomInQueue(s, q, c);
    assert s.pcs[c].val == s.word;
    AddToTail(s.word);
    TicketAfter(Head(s.word), Tail(s.word), |q|);
  }

  lemma StoreSucceedsKeeps(s: State, t: State, c: nat, q: seq<nat>)
    requires QueueInv(s, q) && |s.pcs| <= HALF && Step(s, t, c, StoreSucceeds)
    ensures QueueInv(t, q + [c])
  {
    JoinsLast(s, t, c, q);
    var r := q + [c];
    forall i | 0 <= i < |q|
      ensures Queued(t, q[i], i) && q[i] != c
    {
      assert Queued(s, q[i], i);
    }
    forall d | 0 <= d < |t.pcs| && t.pcs[d].HasTicket()
      ensures d in r
    {
      if d == c { assert r[|q|] == c; }
    }
    forall d | 0 <= d < |t.pcs| && t.pcs[d].Releasing?
      ensures t.pcs[d].next == Head(t.word) + 1
    {
      assert t.pcs[d] == s.pcs[d];
    }
  }

  lemma SpinReadKeeps(s: State, t: State, c: nat, q: seq<nat>)
    requires QueueInv(s, q) && |s.pcs| <= HALF && Step(s, t, c, SpinRead)
    ensures QueueInv(t, q)
    ensures q != [] && (t.pcs[c].Holding? <==> c == q[0])
  {
    var i := IndexInQueue(q, c);
    DistinctBounded(q, |s.pcs|);
    WrapArithmetic(Head(s.word), i);
    assert Queued(s, q[i], i);
    forall j | 0 <= j < |q|
      ensures Queued(t, q[j], j)
    {
      assert Queued(s, q[j], j);
    }
  }

  lemma InsideIsFirst(s: State, q: seq<nat>, c: nat)
    requires QueueInv(s, q) && c < |s.pcs| && s.pcs[c].Inside()
    ensures q != [] && c == q[0]
  {
  }

  /** A store to the low half leaves the high half alone. */
  lemma LowHalfStored(word: nat, next: nat)
    requires word < WORD
    ensures var w := Tail(word) * HALF + next % HALF;
            w < WORD && Head(w) == next % HALF && Tail(w) == Tail(word)
  {
  }

  lemma StoreHeadKeeps(s: State, t: State, c: nat, q: seq<nat>)
    requires QueueInv(s, q) && Step(s, t, c, StoreHead)
    ensures q != [] && QueueInv(t, q[1..])
    ensures Head(t.word) == (Head(s.word) + 1) % HALF && Tail(t.word) == Tail(s.word)
  {
    InsideIsFirst(s, q, c);
    var head := Head(s.word);
    var rest := q[1..];
    LowHalfStored(s.word, head + 1);
    WrapArithmetic(head, |rest|);
    forall i | 0 <= i < |rest|
      ensures Queued(t, rest[i], i)
    {
      assert Queued(s, q[i + 1], i + 1);
      WrapArithmetic(head, i);
    }
    forall d | 0 <= d < |t.pcs| && t.pcs[d].HasTicket()
      ensures d in rest
    {
      var j := IndexInQueue(q, d);
      assert rest[j - 1] == d;
    }
    forall d | 0 <= d < |t.pcs| && t.pcs[d].Releasing?
      ensures false
    {
      InsideIsFirst(s, q, d);
    }
  }

  /** Every step of every CPU keeps the queue invariant, for up to 2^16 CPUs. */
  lemma StepKeepsQueue(s: State, t: State, c: nat, a: Action, q: seq<nat>)
    requires QueueInv(s, q) && |s.pcs| <= HALF && Step(s, t, c, a)
    ensures a.StoreHead? ==> q != []
    ensures QueueInv(t, NextQueue(q, c, a))
  {
    match a
    case StoreSucceeds => StoreSucceedsKeeps(s, t, c, q);
    case SpinRead => SpinReadKeeps(s, t, c, q);
    case StoreHead => StoreHeadKeeps(s, t, c, q);
    case _ =>
      forall i | 0 <= i < |q|
        ensures Queued(t, q[i], i)
      {
        assert Queued(s, q[i], i);
      }
  }

  lemma StepKeepsInv(s: State, t: State, c: nat, a: Action)
    requires Inv(s) && |s.pcs| <= HALF && Step(s, t, c, a)
    ensures Inv(t) && |t.pcs| == |s.pcs|
    ensures forall d | 0 <= d < |s.pcs| && d != c :: t.pcs[d] == s.pcs[d]
  {
    var q :| QueueInv(s, q);
    StepKeepsQueue(s, t, c, a, q);
  }

  lemma InitInv(n: nat)
    ensures Inv(Init(n)) && QueueInv(Init(n), [])
  {
    assert QueueInv(Init(n), []);
  }

  lemma InvMutex(s: State)
    requires Inv(s)
    ensures MutualExclusion(s)
  {
  }

  lemma {:induction false} RunKeepsInv(n: nat, tr: seq<State>, ev: seq<Event>, k: nat)
    requires n <= HALF && IsRun(n, tr, ev) && k < |tr|
    ensures Inv(tr[k]) && |tr[k].pcs| == n
  {
    if k == 0 {
      InitInv(n);
    } else {
      RunKeepsInv(n, tr, ev, k - 1);
      assert Step(tr[k - 1], tr[k - 1 + 1], ev[k - 1].cpu, ev[k - 1].act);
      StepKeepsInv(tr[k - 1], tr[k], ev[k - 1].cpu, ev[k - 1].act);
    }
  }

  // ----- mutual exclusion, and exactly how many CPUs it survives

  /** CPUs 0 .. k - 1 have taken a ticket each and nobody has unlocked. */
  ghost function Filled(n: nat, k: nat): State
    requires k <= n
  {
    State(k % HALF * HALF, Cleared(n), seq(n, i requires 0 <= i < n =>
      if k <= i then Idle else if i % HALF == 0 then Holding(0) else Waiting(i % HALF)))
  }

  lemma {:induction false} FillRun(n: nat, k: nat) returns (tr: seq<State>, ev: seq<Event>)
    requires k <= n
    ensures IsRun(n, tr, ev) && tr[|tr| - 1] == Filled(n, k)
  {
    if k == 0 {
      tr, ev := [Init(n)], [];
      assert Filled(n, 0).pcs == Init(n).pcs;
    } else {
      var c := k - 1;
      var tr0, ev0 := FillRun(n, c);
      var s := Filled(n, c);
      var mid := s.(linked := s.linked[c := true], pcs := s.pcs[c := Loaded(s.word)]);
      var t := Filled(n, k);
      assert Step(s, mid, c, LoadLinked);
      TakeTicket(c);
      var pc := if c % HALF == 0 then Holding(0) else Waiting(c % HALF);
      assert t.pcs == mid.pcs[c := pc];
      assert Step(mid, t, c, StoreSucceeds);
      tr, ev := tr0 + [mid, t], ev0 + [Event(c, LoadLinked), Event(c, StoreSucceeds)];
      forall i | 0 <= i < |ev|
        ensures Step(tr[i], tr[i + 1], ev[i].cpu, ev[i].act)
      {
        if i < |ev0| { assert Step(tr0[i], tr0[i + 1], ev0[i].cpu, ev0[i].act); }
      }
    }
  }

  lemma TakeTicket(c: nat)
    ensures var w := c % HALF * HALF;
            Head(w) == 0 && Tail(w) == c % HALF && (w + HALF) % WORD == (c + 1) % HALF * HALF
  {
  }

  /**
    In every interleaving at most one CPU is inside, across any number of ticket
    wrap-arounds, if and only if there are at most 2^16 CPUs. With one more, the
    last ticket handed out equals the one being served.
  */
  lemma MutualExclusionIff(n: nat)
    ensures Safe(n) <==> n <= HALF
  {
    if n <= HALF {
      forall tr, ev, k | IsRun(n, tr, ev) && 0 <= k < |tr|
        ensures MutualExclusion(tr[k])
      {
        RunKeepsInv(n, tr, ev, k);
        InvMutex(tr[k]);
      }
    } else {
      var tr, ev := FillRun(n, HALF + 1);
      var s := tr[|tr| - 1];
      assert s.pcs[0].Inside() && s.pcs[HALF].Inside();
      assert !MutualExclusion(s);
    }
  }

  /**
    In every run, a successful whole-word SC leaves `head` as it was and advances
    only `tail`: no concurrent halfword store of `head` is ever overwritten.
  */
  lemma StoreConditionalKeepsHead(n: nat, tr: seq<State>, ev: seq<Event>, k: nat)
    requires n <= HALF && IsRun(n, tr, ev) && k < |ev| && ev[k].act.StoreSucceeds?
    ensures Head(tr[k + 1].word) == Head(tr[k].word)
    ensures Tail(tr[k + 1].word) == (Tail(tr[k].word) + 1) % HALF
  {
    RunKeepsInv(n, tr, ev, k);
    assert Step(tr[k], tr[k + 1], ev[k].cpu, ev[k].act);
    var q :| QueueInv(tr[k], q);
    JoinsLast(tr[k], tr[k + 1], ev[k].cpu, q);
  }

  // ----- order of service

  ghost function TicketHolders(s: State): set<nat>
  {
    set c: nat | c < |s.pcs| && s.pcs[c].HasTicket()
  }

  /** (tail - head) modulo 2^16. */
  ghost function QueueLength(s: State): nat
    requires s.word < WORD
  {
    (Tail(s.word) + HALF - Head(s.word)) % HALF
  }

  /** (ticket - head) modulo 2^16. */
  ghost function Distance(s: State, c: nat): nat
    requires c < |s.pcs| && s.pcs[c].HasTicket()
    requires s.pcs[c].ticket < HALF
  {
    (s.pcs[c].ticket + HALF - Head(s.word)) % HALF
  }

  lemma DistanceIsIndex(s: State, q: seq<nat>, i: nat)
    requires QueueInv(s, q) && |s.pcs| <= HALF && i < |q|
    ensures Queued(s, q[i], i) && s.pcs[q[i]].ticket < HALF
    ensures Distance(s, q[i]) == i
  {
    DistinctBounded(q, |s.pcs|);
    assert Queued(s, q[i], i);
    LengthArithmetic(Head(s.word), s.pcs[q[i]].ticket, i);
  }

  /** CPU c has an access to make. */
  ghost predicate CanStep(s: State, c: nat)
  {
    exists a, t :: Step(s, t, c, a)
  }

  /** CPU c can make the access, and is then at another point of its routine. */
  ghost predicate Goes(s: State, c: nat, a: Action)
  {
    exists t :: Step(s, t, c, a) && t.pcs[c] != s.pcs[c]
  }

  /** c is the one ticket holder being served: its next access takes it on, and no other spin read enters. */
  ghost predicate Served(s: State, c: nat)
  {
    && c in TicketHolders(s)
    && (forall d | d in TicketHolders(s) :: s.pcs[d].ticket == Head(s.word) <==> d == c)
    && (forall t, d: nat | Step(s, t, d, SpinRead) :: t.pcs[d].Holding? <==> d == c)
    && Goes(s, c, if s.pcs[c].Waiting? then SpinRead else if s.pcs[c].Holding? then ReadHead else StoreHead)
  }

  /**
    In every reachable state, tail - head counts the ticket holders, every CPU has a
    next access, and when there are ticket holders, exactly one of them holds the
    ticket being served; its next access takes it on, and nobody else's spin read enters.
  */
  lemma NeverStuck(n: nat, tr: seq<State>, ev: seq<Event>, k: nat)
    requires n <= HALF && IsRun(n, tr, ev) && k < |tr|
    ensures tr[k].word < WORD && |TicketHolders(tr[k])| % HALF == QueueLength(tr[k])
    ensures forall c: nat | c < n :: CanStep(tr[k], c)
    ensures TicketHolders(tr[k]) != {} ==> exists c :: Served(tr[k], c)
  {
    RunKeepsInv(n, tr, ev, k);
    var q :| QueueInv(tr[k], q);
    forall c: nat | c < n
      ensures CanStep(tr[k], c)
    {
      var a, t := NextAccess(tr[k], c);
    }
    QueueLengthIs(tr[k], q);
    HoldersAreQueue(tr[k], q);
    if q != [] { FirstIsServed(tr[k], q); }
  }

  lemma QueueLengthIs(s: State, q: seq<nat>)
    requires QueueInv(s, q) && |s.pcs| <= HALF
    ensures QueueLength(s) == |q| % HALF
  {
    DistinctBounded(q, |s.pcs|);
    LengthArithmetic(Head(s.word), Tail(s.word), |q|);
  }

  lemma LengthArithmetic(head: nat, tail: nat, n: nat)
    requires head < HALF && n <= HALF && tail == (head + n) % HALF
    ensures (tail + HALF - head) % HALF == n % HALF
  {
  }

  lemma HoldersAreQueue(s: State, q: seq<nat>)
    requires QueueInv(s, q)
    ensures TicketHolders(s) == Elements(q) && |TicketHolders(s)| == |q|
  {
    SeqCard(q);
    forall c | c in q
      ensures c in TicketHolders(s)
    {
      var i := IndexInQueue(q, c);
      assert Queued(s, q[i], i);
    }
  }

  lemma FirstIsServed(s: State, q: seq<nat>)
    requires QueueInv(s, q) && |s.pcs| <= HALF && q != []
    ensures Served(s, q[0])
  {
    HoldersAreQueue(s, q);
    DistinctBounded(q, |s.pcs|);
    assert q[0] in Elements(q);
    forall d | d in TicketHolders(s)
      ensures s.pcs[d].ticket == Head(s.word) <==> d == q[0]
    {
      var i := IndexInQueue(q, d);
      assert Queued(s, q[i], i);
      WrapArithmetic(Head(s.word), i);
    }
    forall t, d: nat | Step(s, t, d, SpinRead)
      ensures t.pcs[d].Holding? <==> d == q[0]
    {
      SpinReadKeeps(s, t, d, q);
    }
    assert Queued(s, q[0], 0);
    var a, t := NextAccess(s, q[0]);
    if a.SpinRead? { SpinReadKeeps(s, t, q[0], q); }
  }

  /** The access that the code has CPU c make next, and where it takes c if that does not depend on the lock. */
  ghost predicate Prescribed(s: State, c: nat, a: Action, t: State)
    requires c < |s.pcs| == |s.linked|
  {
    c < |t.pcs| &&
    match s.pcs[c]
    case Idle => a == LoadLinked
    case Loaded(_) => a == if s.linked[c] then StoreSucceeds else StoreFails
    case Waiting(_) => a == SpinRead
    case Holding(_) => a == ReadHead && t.pcs[c].Releasing?
    case Releasing(_, _) => a == StoreHead && t.pcs[c].Idle?
  }

  /** Every CPU has a next access, whatever the others do. */
  lemma NextAccess(s: State, c: nat) returns (a: Action, t: State)
    requires c < |s.pcs| == |s.linked|
    ensures Step(s, t, c, a) && Prescribed(s, c, a, t)
  {
    match s.pcs[c]
    case Idle =>
      a, t := LoadLinked, s.(linked := s.linked[c := true], pcs := s.pcs[c := Loaded(s.word)]);
    case Loaded(val) =>
      if s.linked[c] {
        var pc := if Head(val) == Tail(val) then Holding(Tail(val)) else Waiting(Tail(val));
        a, t := StoreSucceeds, State((val + HALF) % WORD, Cleared(|s.pcs|), s.pcs[c := pc]);
      } else {
        a, t := StoreFails, s.(linked := s.linked[c := false], pcs := s.pcs[c := Idle]);
      }
    case Waiting(ticket) =>
      a, t := SpinRead, if Head(s.word) == ticket then s.(pcs := s.pcs[c := Holding(ticket)]) else s;
    case Holding(ticket) =>
      a, t := ReadHead, s.(pcs := s.pcs[c := Releasing(ticket, Head(s.word) + 1)]);
    case Releasing(_, next) =>
      a, t := StoreHead, State(Tail(s.word) * HALF + next % HALF, Cleared(|s.pcs|), s.pcs[c := Idle]);
  }

  /** The number of unlocks among the events. */
  ghost function Unlocks(ev: seq<Event>): nat
  {
    if ev == [] then 0 else Unlocks(ev[..|ev| - 1]) + (if ev[|ev| - 1].act.StoreHead? then 1 else 0)
  }

  lemma ReachableDistance(n: nat, tr: seq<State>, ev: seq<Event>, k: nat, c: nat)
    requires n <= HALF && IsRun(n, tr, ev) && k < |tr| && c < |tr[k].pcs| && tr[k].pcs[c].HasTicket()
    ensures tr[k].pcs[c].ticket < HALF
    ensures tr[k].pcs[c].ticket == Head(tr[k].word) <==> Distance(tr[k], c) == 0
  {
    RunKeepsInv(n, tr, ev, k);
    var q :| QueueInv(tr[k], q);
    var i := IndexInQueue(q, c);
    DistanceIsIndex(tr[k], q, i);
  }

  /** One step of a CPU other than the waiter c lowers c's distance by one if it unlocks. */
  lemma DistanceStep(s: State, t: State, e: Event, c: nat)
    requires Inv(s) && |s.pcs| <= HALF && Step(s, t, e.cpu, e.act)
    requires c < |s.pcs| && s.pcs[c].Waiting? && t.pcs[c].Waiting?
    ensures s.pcs[c].ticket < HALF && t.pcs[c].ticket < HALF
    ensures Distance(s, c) == Distance(t, c) + (if e.act.StoreHead? then 1 else 0)
  {
    var q :| QueueInv(s, q);
    StepKeepsQueue(s, t, e.cpu, e.act, q);
    var next := NextQueue(q, e.cpu, e.act);
    var i := IndexInQueue(q, c);
    var j := IndexInQueue(next, c);
    DistanceIsIndex(s, q, i);
    DistanceIsIndex(t, next, j);
    if e.act.StoreHead? {
      InsideIsFirst(s, q, e.cpu);
      assert q[j + 1] == c;
    } else {
      assert next[i] == c;
    }
  }

  lemma {:induction false} DistanceRun(n: nat, tr: seq<State>, ev: seq<Event>, i: nat, j: nat, c: nat)
    requires n <= HALF && IsRun(n, tr, ev) && i <= j < |tr| && c < n
    requires forall k | i <= k <= j :: c < |tr[k].pcs| && tr[k].pcs[c].Waiting?
    ensures tr[i].pcs[c].ticket < HALF && tr[j].pcs[c].ticket < HALF
    ensures Distance(tr[i], c) == Unlocks(ev[i..j]) + Distance(tr[j], c)
    decreases j
  {
    ReachableDistance(n, tr, ev, i, c);
    if i < j {
      DistanceRun(n, tr, ev, i, j - 1, c);
      RunKeepsInv(n, tr, ev, j - 1);
      assert Step(tr[j - 1], tr[j - 1 + 1], ev[j - 1].cpu, ev[j - 1].act);
      DistanceStep(tr[j - 1], tr[j], ev[j - 1], c);
      assert ev[i..j][..|ev[i..j]| - 1] == ev[i..j - 1];
    }
  }

  /**
    FIFO service: take a CPU that waits from state i to state j. If it reads `head`
    next, it enters exactly when the unlocks since state i equal
    (ticket - head) modulo 2^16 as it was in state i.
  */
  lemma EntersAfterDistance(n: nat, tr: seq<State>, ev: seq<Event>, i: nat, j: nat, c: nat)
    requires n <= HALF && IsRun(n, tr, ev) && i <= j < |ev| && c < n
    requires forall k | i <= k <= j :: c < |tr[k].pcs| && tr[k].pcs[c].Waiting?
    requires ev[j] == Event(c, SpinRead)
    ensures tr[i].pcs[c].ticket < HALF
    ensures Step(tr[j], tr[j + 1], c, SpinRead)
    ensures tr[j + 1].pcs[c].Holding? <==> Unlocks(ev[i..j]) == Distance(tr[i], c)
    ensures Unlocks(ev[i..j]) <= Distance(tr[i], c)
  {
    DistanceRun(n, tr, ev, i, j, c);
    ReachableDistance(n, tr, ev, j, c);
    assert Step(tr[j], tr[j + 1], ev[j].cpu, ev[j].act);
  }

  // ----- what can still happen

  /** `ev[i]` takes `tr[i]` to `tr[i + 1]`, from any state. */
  ghost predicate IsPath(tr: seq<State>, ev: seq<Event>)
  {
    |tr| == |ev| + 1 && forall i {:trigger ev[i]} | 0 <= i < |ev| :: Step(tr[i], tr[i + 1], ev[i].cpu, ev[i].act)
  }

  /** A path leads from s to t. */
  ghost predicate Leads(s: State, tr: seq<State>, ev: seq<Event>, t: State)
  {
    IsPath(tr, ev) && tr[0] == s && tr[|ev|] == t
  }

  /** The run goes on with the events `more` to the state t. */
  ghost predicate GoesOn(n: nat, tr: seq<State>, ev: seq<Event>, more: seq<Event>, t: State)
  {
    exists tr' :: IsRun(n, tr', ev + more) && tr <= tr' && tr'[|tr'| - 1] == t
  }

  lemma Joined(s: State, tr: seq<State>, ev: seq<Event>, t: State, tr': seq<State>, ev': seq<Event>, u: State)
    requires Leads(s, tr, ev, t) && Leads(t, tr', ev', u)
    ensures Leads(s, tr + tr'[1..], ev + ev', u)
    ensures Unlocks(ev + ev') == Unlocks(ev) + Unlocks(ev')
  {
    var tt, ee := tr + tr'[1..], ev + ev';
    forall i | 0 <= i < |ee|
      ensures Step(tt[i], tt[i + 1], ee[i].cpu, ee[i].act)
    {
      if i < |ev| {
        assert Step(tr[i], tr[i + 1], ev[i].cpu, ev[i].act);
      } else {
        var j := i - |ev|;
        assert Step(tr'[j], tr'[j + 1], ev'[j].cpu, ev'[j].act);
      }
    }
    UnlocksSplit(ev, ev');
  }

  lemma {:induction false} UnlocksSplit(a: seq<Event>, b: seq<Event>)
    ensures Unlocks(a + b) == Unlocks(a) + Unlocks(b)
  {
    if b == [] {
      assert a + b == a;
    } else {
      UnlocksSplit(a, b[..|b| - 1]);
      assert (a + b)[..|a + b| - 1] == a + b[..|b| - 1];
    }
  }

  lemma OneStep(s: State, t: State, c: nat, a: Action)
    requires Step(s, t, c, a)
    ensures Leads(s, [s, t], [Event(c, a)], t)
    ensures Unlocks([Event(c, a)]) == if a.StoreHead? then 1 else 0
  {
    assert [Event(c, a)][..0] == [];
  }

  lemma RunLeads(n: nat, tr: seq<State>, ev: seq<Event>, t: State, tr': seq<State>, ev': seq<Event>, u: State)
    requires IsRun(n, tr, ev) && tr[|ev|] == t && Leads(t, tr', ev', u)
    ensures GoesOn(n, tr, ev, ev', u)
  {
    Joined(tr[0], tr, ev, t, tr', ev', u);
    assert IsRun(n, tr + tr'[1..], ev + ev');
  }

  /** Everybody but c is where it was. */
  ghost predicate OthersStay(s: State, t: State, c: nat)
  {
    |t.pcs| == |s.pcs| && forall d | 0 <= d < |s.pcs| && d != c :: t.pcs[d] == s.pcs[d]
  }

  /** How many accesses a CPU at the head of the queue is away from being inside. */
  function ToGo(s: State, c: nat): nat
    requires c < |s.pcs| == |s.linked|
  {
    match s.pcs[c]
    case Loaded(_) => if s.linked[c] then 2 else 4
    case Idle => 3
    case Waiting(_) => 1
    case _ => 0
  }

  /** While nobody is before it, each access of a CPU in `spin_lock` takes it closer to being inside. */
  lemma Closer(s: State, q: seq<nat>, c: nat) returns (a: Action, t: State, r: seq<nat>)
    requires QueueInv(s, q) && |s.pcs| <= HALF && c < |s.pcs| && !s.pcs[c].Inside() && (q == [] || q[0] == c)
    ensures Step(s, t, c, a) && !a.ReadHead? && !a.StoreHead? && OthersStay(s, t, c)
    ensures QueueInv(t, r) && (r == [] || r[0] == c)
    ensures ToGo(t, c) < ToGo(s, c) && (t.pcs[c].Holding? <==> ToGo(t, c) == 0)
  {
    a, t := NextAccess(s, c);
    StepKeepsQueue(s, t, c, a, q);
    r := NextQueue(q, c, a);
    if a.StoreSucceeds? {
      assert q != [] ==> Queued(s, q[0], 0);
      JoinsLast(s, t, c, q);
    }
    if a.SpinRead? { SpinReadKeeps(s, t, c, q); }
  }

  function AwayFromOut(pc: Pc): nat { if pc.Waiting? then 2 else if pc.Holding? then 1 else 0 }

  /** The first in the queue can go in and out again; the others then move up by one. */
  lemma {:induction false} CanBeServed(s: State, q: seq<nat>) returns (tr: seq<State>, ev: seq<Event>, t: State)
    requires QueueInv(s, q) && |s.pcs| <= HALF && q != []
    ensures Leads(s, tr, ev, t) && QueueInv(t, q[1..]) && OthersStay(s, t, q[0]) && Unlocks(ev) == 1
    decreases AwayFromOut(s.pcs[q[0]])
  {
    var c := q[0];
    assert Queued(s, c, 0);
    var a, u := NextAccess(s, c);
    StepKeepsQueue(s, u, c, a, q);
    OneStep(s, u, c, a);
    if a.StoreHead? {
      tr, ev, t := [s, u], [Event(c, a)], u;
    } else {
      if a.SpinRead? { SpinReadKeeps(s, u, c, q); }
      tr, ev, t := CanBeServed(u, q);
      Joined(s, [s, u], [Event(c, a)], u, tr, ev, t);
      tr, ev := [s, u] + tr[1..], [Event(c, a)] + ev;
    }
  }

  /** The CPU at position i of the queue can enter, after i unlocks. */
  lemma {:induction false} CanEnter(s: State, q: seq<nat>, i: nat) returns (tr: seq<State>, ev: seq<Event>, t: State)
    requires QueueInv(s, q) && |s.pcs| <= HALF && i < |q| && s.pcs[q[i]].Waiting?
    ensures Leads(s, tr, ev, t) && |t.pcs| == |s.pcs| && t.pcs[q[i]].Holding? && Unlocks(ev) == i
    decreases i
  {
    var c := q[i];
    if i == 0 {
      var a;
      a, t := NextAccess(s, c);
      SpinReadKeeps(s, t, c, q);
      OneStep(s, t, c, a);
      tr, ev := [s, t], [Event(c, a)];
    } else {
      var tr1, ev1, u := CanBeServed(s, q);
      tr, ev, t := CanEnter(u, q[1..], i - 1);
      Joined(s, tr1, ev1, u, tr, ev, t);
      tr, ev := tr1 + tr[1..], ev1 + ev;
    }
  }

  /** A CPU without a ticket can get one, whatever the others do. */
  lemma {:induction false} CanQueue(s: State, q: seq<nat>, c: nat) returns (tr: seq<State>, ev: seq<Event>, t: State)
    requires QueueInv(s, q) && |s.pcs| <= HALF && c < |s.pcs| && !s.pcs[c].HasTicket()
    ensures Leads(s, tr, ev, t) && QueueInv(t, q + [c]) && OthersStay(s, t, c) && Unlocks(ev) == 0
    ensures t.pcs[c].Waiting? || t.pcs[c].Holding?
    decreases ToGo(s, c)
  {
    var a, u := NextAccess(s, c);
    StepKeepsQueue(s, u, c, a, q);
    OneStep(s, u, c, a);
    if a.StoreSucceeds? {
      tr, ev, t := [s, u], [Event(c, a)], u;
    } else {
      tr, ev, t := CanQueue(u, q, c);
      Joined(s, [s, u], [Event(c, a)], u, tr, ev, t);
      tr, ev := [s, u] + tr[1..], [Event(c, a)] + ev;
    }
  }

  /**
    Every run in which CPU c waits can go on so that c enters, after exactly
    (ticket - head) modulo 2^16 unlocks.
  */
  lemma WaiterCanEnter(n: nat, tr: seq<State>, ev: seq<Event>, c: nat) returns (more: seq<Event>, t: State)
    requires n <= HALF && IsRun(n, tr, ev) && c < n && c < |tr[|ev|].pcs| && tr[|ev|].pcs[c].Waiting?
    ensures GoesOn(n, tr, ev, more, t) && |t.pcs| == n && t.pcs[c].Holding?
    ensures tr[|ev|].pcs[c].ticket < HALF && Unlocks(more) == Distance(tr[|ev|], c)
  {
    var s := tr[|ev|];
    RunKeepsInv(n, tr, ev, |ev|);
    var q :| QueueInv(s, q);
    var i := IndexInQueue(q, c);
    DistanceIsIndex(s, q, i);
    var tr';
    tr', more, t := CanEnter(s, q, i);
    RunLeads(n, tr, ev, s, tr', more, t);
  }

  /** A CPU that is not inside can enter. */
  lemma CanGoIn(s: State, q: seq<nat>, c: nat) returns (tr: seq<State>, ev: seq<Event>, t: State)
    requires QueueInv(s, q) && |s.pcs| <= HALF && c < |s.pcs| && !s.pcs[c].Inside()
    ensures Leads(s, tr, ev, t) && |t.pcs| == |s.pcs| && t.pcs[c].Holding?
  {
    if s.pcs[c].Waiting? {
      var i := IndexInQueue(q, c);
      tr, ev, t := CanEnter(s, q, i);
    } else {
      var tr1, ev1, u := CanQueue(s, q, c);
      var r := q + [c];
      assert Queued(u, r[|q|], |q|);
      tr, ev, t := tr1, ev1, u;
      if u.pcs[c].Waiting? {
        tr, ev, t := CanEnter(u, r, |q|);
        Joined(s, tr1, ev1, u, tr, ev, t);
        tr, ev := tr1 + tr[1..], ev1 + ev;
      }
    }
  }

  /** Every run can go on so that any CPU that is not inside enters. */
  lemma CanAlwaysEnter(n: nat, tr: seq<State>, ev: seq<Event>, c: nat) returns (more: seq<Event>, t: State)
    requires n <= HALF && IsRun(n, tr, ev) && c < n && c < |tr[|ev|].pcs| && !tr[|ev|].pcs[c].Inside()
    ensures GoesOn(n, tr, ev, more, t) && |t.pcs| == n && t.pcs[c].Holding?
  {
    var s := tr[|ev|];
    RunKeepsInv(n, tr, ev, |ev|);
    var q :| QueueInv(s, q);
    var tr';
    tr', more, t := CanGoIn(s, q, c);
    RunLeads(n, tr, ev, s, tr', more, t);
  }

  /** The queue can be emptied, with one unlock for each ticket holder. */
  lemma {:induction false} CanBeEmptied(s: State, q: seq<nat>) returns (tr: seq<State>, ev: seq<Event>, t: State)
    requires QueueInv(s, q) && |s.pcs| <= HALF
    ensures Leads(s, tr, ev, t) && QueueInv(t, []) && |t.pcs| == |s.pcs| && Unlocks(ev) == |q|
    decreases |q|
  {
    if q == [] {
      tr, ev, t := [s], [], s;
    } else {
      var tr1, ev1, u := CanBeServed(s, q);
      tr, ev, t := CanBeEmptied(u, q[1..]);
      Joined(s, tr1, ev1, u, tr, ev, t);
      tr, ev := tr1 + tr[1..], ev1 + ev;
    }
  }

  /** Every run can go on until nobody has a ticket, with one unlock for each that had one. */
  lemma CanAlwaysBeFree(n: nat, tr: seq<State>, ev: seq<Event>) returns (more: seq<Event>, t: State)
    requires n <= HALF && IsRun(n, tr, ev)
    ensures GoesOn(n, tr, ev, more, t) && TicketHolders(t) == {} && Unlocks(more) == |TicketHolders(tr[|ev|])|
  {
    var s := tr[|ev|];
    RunKeepsInv(n, tr, ev, |ev|);
    var q :| QueueInv(s, q);
    HoldersAreQueue(s, q);
    var tr';
    tr', more, t := CanBeEmptied(s, q);
    HoldersAreQueue(t, []);
    RunLeads(n, tr, ev, s, tr', more, t);
  }
}
