/** The bounded message ring of the kernel: what it contains, and the ring as an object with its
    two critical sections. The rings of modular.c (64 entries), modular.h (128) and kernel.c (128)
    differ in their size and in the code they return when refusing. */
module IpcRing {
  import opened Words

  /** `ipc_message_t`; the payload is a pointer. */
  datatype Message = Message(src: u32, dest: u32, kind: u32, payload: u64, payloadSize: u64)

  /** What a ring holds, oldest entry first. */
  function Contents<T>(buf: seq<T>, head: nat, tail: nat): (c: seq<T>)
    requires head < |buf| && tail < |buf|
    ensures |c| == if head <= tail then tail - head else |buf| - head + tail
  {
    if head <= tail then buf[head..tail] else buf[head..] + buf[..tail]
  }

  function Next(i: nat, n: nat): (j: nat)
    requires i < n
    ensures j < n && j == if i == n - 1 then 0 else i + 1
  {
    (i + 1) % n
  }

  /** The ring is full when it holds all but one of its entries, and empty when head meets tail. */
  lemma FullAndEmpty<T>(buf: seq<T>, head: nat, tail: nat)
    requires head < |buf| && tail < |buf|
    ensures Next(tail, |buf|) == head <==> |Contents(buf, head, tail)| == |buf| - 1
    ensures head == tail <==> Contents(buf, head, tail) == []
    ensures |Contents(buf, head, tail)| <= |buf| - 1
  {
  }

  lemma WriteAtTail<T>(buf: seq<T>, head: nat, tail: nat, m: T)
    requires head < |buf| && tail < |buf|
    ensures Contents(buf[tail := m], head, tail) == Contents(buf, head, tail)
  {
  }

  lemma AdvanceTail<T>(buf: seq<T>, head: nat, tail: nat)
    requires head < |buf| && tail < |buf| && Next(tail, |buf|) != head
    ensures Contents(buf, head, Next(tail, |buf|)) == Contents(buf, head, tail) + [buf[tail]]
  {
  }

  lemma AdvanceHead<T>(buf: seq<T>, head: nat, tail: nat)
    requires head < |buf| && tail < |buf| && head != tail
    ensures Contents(buf, head, tail) == [buf[head]] + Contents(buf, Next(head, |buf|), tail)
  {
  }

  class IpcQueue {
    const queue: array<Message>
    const refused: int
    var head: nat
    var tail: nat

    constructor (queue: array<Message>, refused: int)
      requires queue.Length > 0
      ensures this.queue == queue && this.refused == refused
      ensures Valid() && Pending() == []
    {
      this.queue, this.refused := queue, refused;
      head, tail := 0, 0;
    }

    ghost predicate Valid()
      reads this
    {
      head < queue.Length && tail < queue.Length
    }

    ghost function Pending(): seq<Message>
      requires Valid()
      reads this, queue
    {
      Contents(queue[..], head, tail)
    }

    /** The critical section of `send_ipc_message`: refuses exactly when all but one entry are taken. */
    method Send(msg: Message) returns (code: int)
      requires Valid()
      modifies this`tail, queue
      ensures Valid()
      ensures |old(Pending())| == queue.Length - 1 ==> code == refused && Pending() == old(Pending())
      ensures |old(Pending())| < queue.Length - 1 ==> code == 0 && Pending() == old(Pending()) + [msg]
    {
      FullAndEmpty(queue[..], head, tail);
      var next := (tail + 1) % queue.Length;
      if next == head {
        return refused;
      }
      WriteAtTail(queue[..], head, tail, msg);
      queue[tail] := msg;
      AdvanceTail(queue[..], head, tail);
      tail := next;
      code := 0;
    }

    /** The critical section of `receive_ipc_message`. */
    method Receive() returns (code: int, msg: Option<Message>)
      requires Valid()
      modifies this`head
      ensures Valid()
      ensures old(Pending()) == [] ==> code == refused && msg == None && Pending() == []
      ensures old(Pending()) != [] ==> code == 0 && msg.Some? && old(Pending()) == [msg.value] + Pending()
    {
      FullAndEmpty(queue[..], head, tail);
      if head == tail {
        return refused, None;
      }
      AdvanceHead(queue[..], head, tail);
      msg := Some(queue[head]);
      head := (head + 1) % queue.Length;
      code := 0;
    }
  }
}

/** The same ring used by any number of threads that send and receive, statement by statement, with
    the lock of modular.c and modular.h or without, as in kernel.c. */
module IpcThreads {
  import opened Words
  import opened IpcRing

  type ThreadId = nat

  /** The statement a thread is about to execute, with its local variables. */
  datatype Local =
    | Idle
    | SendEnter(msg: Message)
    | SendCheck(msg: Message)
    | SendWrite(msg: Message, next: nat)
    | SendPublish(msg: Message, next: nat)
    | SendLeave(accepted: bool)
    | RecvEnter
    | RecvCheck
    | RecvRead
    | RecvAdvance(out: Message)
    | RecvLeave(delivered: bool)

  /** `accepted` and `received` record, in order, the messages whose send and whose receive took
      effect. */
  datatype State = State(
    buf: seq<Message>, head: nat, tail: nat, lock: Option<ThreadId>, threads: map<ThreadId, Local>,
    accepted: seq<Message>, received: seq<Message>)

  datatype Action = StartSend(msg: Message) | StartReceive | Go

  datatype Label = Label(thread: ThreadId, action: Action)

  function At(s: State, t: ThreadId): Local {
    if t in s.threads then s.threads[t] else Idle
  }

  predicate Bounded(s: State) {
    s.head < |s.buf| && s.tail < |s.buf|
  }

  predicate Enabled(locked: bool, s: State, l: Label) {
    match At(s, l.thread)
    case Idle => l.action != Go
    case SendEnter(_) => l.action == Go && (locked ==> s.lock == None)
    case RecvEnter => l.action == Go && (locked ==> s.lock == None)
    case _ => l.action == Go
  }

  function Goto(s: State, t: ThreadId, here: Local): State {
    s.(threads := s.threads[t := here])
  }

  function Acquire(locked: bool, s: State, t: ThreadId): State {
    if locked then s.(lock := Some(t)) else s
  }

  function Release(locked: bool, s: State): State {
    if locked then s.(lock := None) else s
  }

  /** One statement of thread l.thread. */
  function Execute(locked: bool, s: State, l: Label): State
    requires Bounded(s)
  {
    var t := l.thread;
    match At(s, t)
    case Idle =>
      (match l.action
       case StartSend(m) => Goto(s, t, SendEnter(m))
       case StartReceive => Goto(s, t, RecvEnter)
       case Go => s)
    case SendEnter(m) => Goto(Acquire(locked, s, t), t, SendCheck(m))
    case SendCheck(m) =>
      var next := Next(s.tail, |s.buf|);
      Goto(s, t, if next == s.head then SendLeave(false) else SendWrite(m, next))
    case SendWrite(m, next) => Goto(s.(buf := s.buf[s.tail := m]), t, SendPublish(m, next))
    case SendPublish(m, next) => Goto(s.(tail := next, accepted := s.accepted + [m]), t, SendLeave(true))
    case SendLeave(_) => Goto(Release(locked, s), t, Idle)
    case RecvEnter => Goto(Acquire(locked, s, t), t, RecvCheck)
    case RecvCheck => Goto(s, t, if s.head == s.tail then RecvLeave(false) else RecvRead)
    case RecvRead => Goto(s, t, RecvAdvance(s.buf[s.head]))
    case RecvAdvance(m) => Goto(s.(head := Next(s.head, |s.buf|), received := s.received + [m]), t, RecvLeave(true))
    case RecvLeave(_) => Goto(Release(locked, s), t, Idle)
  }

  function Boot(buf: seq<Message>): State {
    State(buf, 0, 0, None, map[], [], [])
  }

  /** A schedule: which thread moves when, and what it starts when it is idle. */
  type Schedule = seq<Label>

  /** The schedule can be followed from s, and leads to r. */
  ghost predicate Leads(locked: bool, s: State, schedule: Schedule, r: State)
    decreases |schedule|
  {
    if schedule == [] then r == s
    else
      Bounded(s) && Enabled(locked, s, schedule[0]) &&
      Leads(locked, Execute(locked, s, schedule[0]), schedule[1..], r)
  }

  /** Only these threads send, only those receive. A thread may do both. */
  ghost predicate Roles(schedule: Schedule, senders: set<ThreadId>, receivers: set<ThreadId>) {
    forall l :: l in schedule ==>
      (l.action.StartSend? ==> l.thread in senders) && (l.action == StartReceive ==> l.thread in receivers)
  }

  // ----- the invariant -----

  /** Nothing lost, duplicated, reordered or made up: the messages received are a prefix of those
      accepted, and the rest is in the ring, in order. */
  ghost predicate Faithful(s: State) {
    Bounded(s) && s.accepted == s.received + Contents(s.buf, s.head, s.tail)
  }

  predicate Sending(l: Local) {
    l.SendCheck? || l.SendWrite? || l.SendPublish? || l.SendLeave?
  }

  predicate Receiving(l: Local) {
    l.RecvCheck? || l.RecvRead? || l.RecvAdvance? || l.RecvLeave?
  }

  /** What a thread in the middle of an operation relies on. */
  ghost predicate LocalOk(s: State, l: Local)
    requires Bounded(s)
  {
    match l
    case SendWrite(_, next) => next == Next(s.tail, |s.buf|) && next != s.head
    case SendPublish(m, next) => next == Next(s.tail, |s.buf|) && next != s.head && s.buf[s.tail] == m
    case RecvRead => s.head != s.tail
    case RecvAdvance(m) => s.head != s.tail && m == s.buf[s.head]
    case _ => true
  }

  ghost predicate Inv(s: State) {
    Faithful(s) && forall t :: LocalOk(s, At(s, t))
  }

  /** No two threads send at once, and no two receive at once. */
  ghost predicate Exclusive(s: State) {
    forall t, u :: t != u ==>
      !(Sending(At(s, t)) && Sending(At(s, u))) && !(Receiving(At(s, t)) && Receiving(At(s, u)))
  }

  lemma OthersStay(locked: bool, s: State, l: Label, u: ThreadId)
    requires Bounded(s) && u != l.thread
    ensures At(Execute(locked, s, l), u) == At(s, u)
  {
  }

  lemma PublishIsFaithful(s: State, m: Message)
    requires Faithful(s) && Next(s.tail, |s.buf|) != s.head && s.buf[s.tail] == m
    ensures Faithful(s.(tail := Next(s.tail, |s.buf|), accepted := s.accepted + [m]))
  {
    AdvanceTail(s.buf, s.head, s.tail);
    var c := Contents(s.buf, s.head, s.tail);
    assert (s.received + c) + [m] == s.received + (c + [m]);
  }

  lemma DeliverIsFaithful(s: State, m: Message)
    requires Faithful(s) && s.head != s.tail && m == s.buf[s.head]
    ensures Faithful(s.(head := Next(s.head, |s.buf|), received := s.received + [m]))
  {
    AdvanceHead(s.buf, s.head, s.tail);
    var c := Contents(s.buf, Next(s.head, |s.buf|), s.tail);
    assert s.received + ([m] + c) == (s.received + [m]) + c;
  }

  /** The statement's own effect: the ring stays faithful and the thread's next statement finds what
      it relies on. */
  lemma StepKeepsFaithful(locked: bool, s: State, l: Label)
    requires Inv(s) && Enabled(locked, s, l)
    ensures var s' := Execute(locked, s, l); Faithful(s') && LocalOk(s', At(s', l.thread))
  {
    assert LocalOk(s, At(s, l.thread));
    match At(s, l.thread)
    case SendWrite(m, next) => WriteAtTail(s.buf, s.head, s.tail, m);
    case SendPublish(m, next) => PublishIsFaithful(s, m);
    case RecvAdvance(m) => DeliverIsFaithful(s, m);
    case _ =>
  }

  /** No statement disturbs a thread that is in the middle of the other operation. */
  lemma StepKeepsOthers(locked: bool, s: State, l: Label, u: ThreadId)
    requires Inv(s) && Exclusive(s) && Enabled(locked, s, l) && u != l.thread
    ensures var s' := Execute(locked, s, l); Bounded(s') && LocalOk(s', At(s', u))
  {
    assert LocalOk(s, At(s, l.thread)) && LocalOk(s, At(s, u));
    OthersStay(locked, s, l, u);
    assert !(Sending(At(s, u)) && Sending(At(s, l.thread))) && !(Receiving(At(s, u)) && Receiving(At(s, l.thread)));
  }

  lemma StepKeepsInv(locked: bool, s: State, l: Label)
    requires Inv(s) && Exclusive(s) && Enabled(locked, s, l)
    ensures Inv(Execute(locked, s, l))
  {
    var s' := Execute(locked, s, l);
    StepKeepsFaithful(locked, s, l);
    forall u ensures LocalOk(s', At(s', u)) {
      if u != l.thread {
        StepKeepsOthers(locked, s, l, u);
      }
    }
  }

  // ----- with the lock -----

  predicate InCriticalSection(l: Local) {
    Sending(l) || Receiving(l)
  }

  /** Whoever is in the critical section holds the lock. */
  ghost predicate LockHeld(s: State) {
    forall t: ThreadId :: InCriticalSection(At(s, t)) ==> s.lock == Some(t)
  }

  lemma LockGivesExclusion(s: State)
    requires LockHeld(s)
    ensures Exclusive(s)
    ensures forall t, u :: InCriticalSection(At(s, t)) && InCriticalSection(At(s, u)) ==> t == u
  {
  }

  lemma StepKeepsLock(s: State, l: Label)
    requires Bounded(s) && LockHeld(s) && Enabled(true, s, l)
    ensures LockHeld(Execute(true, s, l))
  {
    var s' := Execute(true, s, l);
    forall t: ThreadId | InCriticalSection(At(s', t)) ensures s'.lock == Some(t) {
      if t != l.thread {
        OthersStay(true, s, l, t);
      }
    }
  }

  lemma {:induction false} LockedRunsKeepInv(s: State, schedule: Schedule, r: State)
    requires Inv(s) && LockHeld(s) && Leads(true, s, schedule, r)
    ensures Inv(r) && LockHeld(r)
    decreases |schedule|
  {
    if schedule != [] {
      LockGivesExclusion(s);
      StepKeepsInv(true, s, schedule[0]);
      StepKeepsLock(s, schedule[0]);
      LockedRunsKeepInv(Execute(true, s, schedule[0]), schedule[1..], r);
    }
  }

  lemma BootInv(buf: seq<Message>)
    requires |buf| > 0
    ensures Inv(Boot(buf)) && LockHeld(Boot(buf)) && Exclusive(Boot(buf))
  {
  }

  /** The locked ring, under every schedule of any number of senders and receivers: at most one
      thread is in the critical section, the ring is faithful, and it never holds more than all but
      one of its entries. */
  lemma LockedRingIsFaithful(buf: seq<Message>, schedule: Schedule, r: State)
    requires |buf| > 0 && Leads(true, Boot(buf), schedule, r)
    ensures Faithful(r) && r.received <= r.accepted && |Contents(r.buf, r.head, r.tail)| <= |r.buf| - 1
    ensures forall t, u :: InCriticalSection(At(r, t)) && InCriticalSection(At(r, u)) ==> t == u
  {
    BootInv(buf);
    LockedRunsKeepInv(Boot(buf), schedule, r);
    FullAndEmpty(r.buf, r.head, r.tail);
    LockGivesExclusion(r);
  }

  // ----- without the lock -----

  /** Only the one sender is ever inside a send, only the one receiver inside a receive. */
  ghost predicate KeepsToRoles(s: State, senders: set<ThreadId>, receivers: set<ThreadId>) {
    forall t ::
      (Sending(At(s, t)) || At(s, t).SendEnter? ==> t in senders) &&
      (Receiving(At(s, t)) || At(s, t).RecvEnter? ==> t in receivers)
  }

  lemma StepKeepsRoles(locked: bool, s: State, l: Label, senders: set<ThreadId>, receivers: set<ThreadId>)
    requires Bounded(s) && Enabled(locked, s, l) && KeepsToRoles(s, senders, receivers) &&
             Roles([l], senders, receivers)
    ensures KeepsToRoles(Execute(locked, s, l), senders, receivers)
  {
    var s' := Execute(locked, s, l);
    assert l in [l];
    forall t
      ensures (Sending(At(s', t)) || At(s', t).SendEnter? ==> t in senders) &&
              (Receiving(At(s', t)) || At(s', t).RecvEnter? ==> t in receivers)
    {
      if t != l.thread {
        OthersStay(locked, s, l, t);
      }
    }
  }

  lemma AtMostOne(xs: set<ThreadId>, t: ThreadId, u: ThreadId)
    requires |xs| <= 1 && t in xs && u in xs
    ensures t == u
  {
    if t != u {
      assert {t, u} <= xs;
      SubsetSize({t, u}, xs);
    }
  }

  lemma RolesGiveExclusion(s: State, senders: set<ThreadId>, receivers: set<ThreadId>)
    requires KeepsToRoles(s, senders, receivers) && |senders| <= 1 && |receivers| <= 1
    ensures Exclusive(s)
  {
    forall t, u | t != u
      ensures !(Sending(At(s, t)) && Sending(At(s, u))) && !(Receiving(At(s, t)) && Receiving(At(s, u)))
    {
      if Sending(At(s, t)) && Sending(At(s, u)) {
        AtMostOne(senders, t, u);
      }
      if Receiving(At(s, t)) && Receiving(At(s, u)) {
        AtMostOne(receivers, t, u);
      }
    }
  }

  lemma {:induction false} SingleRolesKeepInv(s: State, schedule: Schedule, r: State, senders: set<ThreadId>,
          receivers: set<ThreadId>)
    requires Inv(s) && KeepsToRoles(s, senders, receivers) && |senders| <= 1 && |receivers| <= 1
    requires Leads(false, s, schedule, r) && Roles(schedule, senders, receivers)
    ensures Inv(r)
    decreases |schedule|
  {
    if schedule != [] {
      var l := schedule[0];
      RolesGiveExclusion(s, senders, receivers);
      StepKeepsInv(false, s, l);
      StepKeepsRoles(false, s, l, senders, receivers);
      SingleRolesKeepInv(Execute(false, s, l), schedule[1..], r, senders, receivers);
    }
  }

  /** Nobody sends: the ring stays empty and every receive is refused. */
  ghost predicate Empty(s: State) {
    Bounded(s) && s.head == s.tail && s.accepted == [] && s.received == [] &&
    forall t :: var l := At(s, t); l.Idle? || l.RecvEnter? || l.RecvCheck? || l == RecvLeave(false)
  }

  lemma {:induction false} NoSendersStayEmpty(s: State, schedule: Schedule, r: State, receivers: set<ThreadId>)
    requires Empty(s) && Leads(false, s, schedule, r) && Roles(schedule, {}, receivers)
    ensures Empty(r)
    decreases |schedule|
  {
    if schedule != [] {
      var l := schedule[0];
      var s' := Execute(false, s, l);
      forall t ensures var l := At(s', t); l.Idle? || l.RecvEnter? || l.RecvCheck? || l == RecvLeave(false) {
        if t != l.thread {
          OthersStay(false, s, l, t);
        }
      }
      NoSendersStayEmpty(s', schedule[1..], r, receivers);
    }
  }

  // ----- what goes wrong otherwise -----

  lemma {:induction false} LeadsThen(locked: bool, s: State, first: Schedule, r: State, second: Schedule, q: State)
    requires Leads(locked, s, first, r) && Leads(locked, r, second, q)
    ensures Leads(locked, s, first + second, q)
    decreases |first|
  {
    if first == [] {
      assert first + second == second;
    } else {
      assert (first + second)[0] == first[0] && (first + second)[1..] == first[1..] + second;
      LeadsThen(locked, Execute(locked, s, first[0]), first[1..], r, second, q);
    }
  }

  lemma LeadsOne(s: State, l: Label, s': State)
    requires Bounded(s) && Enabled(false, s, l) && Execute(false, s, l) == s'
    ensures Leads(false, s, [l], s')
  {
    assert [l][1..] == [];
    assert Leads(false, s', [], s');
  }

  /** Two threads take the same statement, one after the other. */
  lemma BothMove(s: State, a: ThreadId, b: ThreadId, act: Action) returns (r: State)
    requires Bounded(s) && a != b
    requires Enabled(false, s, Label(a, act)) && Enabled(false, s, Label(b, act))
    requires Bounded(Execute(false, s, Label(a, act)))
    ensures Leads(false, s, [Label(a, act), Label(b, act)], r)
    ensures r == Execute(false, Execute(false, s, Label(a, act)), Label(b, act))
  {
    var la, lb := Label(a, act), Label(b, act);
    var s1 := Execute(false, s, la);
    OthersStay(false, s, la, b);
    r := Execute(false, s1, lb);
    LeadsOne(s, la, s1);
    LeadsOne(s1, lb, r);
    LeadsThen(false, s, [la], s1, [lb], r);
    assert [la] + [lb] == [la, lb];
  }

  /** a and b are about to execute the same statement. */
  ghost predicate BothAt(s: State, a: ThreadId, b: ThreadId, l: Local) {
    a != b && At(s, a) == l && At(s, b) == l
  }

  lemma BothStart(s: State, a: ThreadId, b: ThreadId, act: Action, there: Local) returns (r: State)
    requires Bounded(s) && BothAt(s, a, b, Idle) && act != Go
    requires there == if act.StartSend? then SendEnter(act.msg) else RecvEnter
    ensures Leads(false, s, [Label(a, act), Label(b, act)], r)
    ensures BothAt(r, a, b, there) && r == s.(threads := r.threads)
  {
    r := BothMove(s, a, b, act);
  }

  lemma BothPass(s: State, a: ThreadId, b: ThreadId, here: Local, there: Local) returns (r: State)
    requires Bounded(s) && BothAt(s, a, b, here)
    requires here.SendEnter? ==> there == SendCheck(here.msg)
    requires here.SendCheck? ==> Next(s.tail, |s.buf|) != s.head && there == SendWrite(here.msg, Next(s.tail, |s.buf|))
    requires here.RecvEnter? ==> there == RecvCheck
    requires here.RecvCheck? ==> s.head != s.tail && there == RecvRead
    requires here.RecvRead? ==> there == RecvAdvance(s.buf[s.head])
    requires here.SendEnter? || here.SendCheck? || here.RecvEnter? || here.RecvCheck? || here.RecvRead?
    ensures Leads(false, s, [Label(a, Go), Label(b, Go)], r)
    ensures BothAt(r, a, b, there) && r == s.(threads := r.threads)
  {
    r := BothMove(s, a, b, Go);
  }

  lemma BothWriteAndPublish(s: State, a: ThreadId, b: ThreadId, m: Message, next: nat) returns (r: State)
    requires Bounded(s) && BothAt(s, a, b, SendWrite(m, next)) && next < |s.buf|
    ensures Leads(false, s, [Label(a, Go), Label(b, Go)] + [Label(a, Go), Label(b, Go)], r)
    ensures r.head == s.head && r.tail == next && |r.buf| == |s.buf|
    ensures r.accepted == s.accepted + [m] + [m] && r.received == s.received
  {
    var s1 := BothMove(s, a, b, Go);
    assert BothAt(s1, a, b, SendPublish(m, next));
    r := BothMove(s1, a, b, Go);
    LeadsThen(false, s, [Label(a, Go), Label(b, Go)], s1, [Label(a, Go), Label(b, Go)], r);
  }

  lemma BothDeliver(s: State, a: ThreadId, b: ThreadId, m: Message) returns (r: State)
    requires Bounded(s) && BothAt(s, a, b, RecvAdvance(m))
    ensures Leads(false, s, [Label(a, Go), Label(b, Go)], r)
    ensures r.accepted == s.accepted && r.received == s.received + [m] + [m]
  {
    r := BothMove(s, a, b, Go);
  }

  function GoBoth(a: ThreadId, b: ThreadId, n: nat): Schedule {
    if n == 0 then [] else [Label(a, Go), Label(b, Go)] + GoBoth(a, b, n - 1)
  }

  lemma {:induction false} GoBothRoles(a: ThreadId, b: ThreadId, n: nat, senders: set<ThreadId>,
          receivers: set<ThreadId>)
    ensures Roles(GoBoth(a, b, n), senders, receivers)
  {
    if n > 0 {
      GoBothRoles(a, b, n - 1, senders, receivers);
    }
  }

  lemma RolesConcat(xs: Schedule, ys: Schedule, senders: set<ThreadId>, receivers: set<ThreadId>)
    requires Roles(xs, senders, receivers) && Roles(ys, senders, receivers)
    ensures Roles(xs + ys, senders, receivers)
  {
  }

  lemma GoBothNext(a: ThreadId, b: ThreadId, s: State, r: State, q: State, n: nat)
    requires Leads(false, s, [Label(a, Go), Label(b, Go)], r) && Leads(false, r, GoBoth(a, b, n), q)
    ensures Leads(false, s, GoBoth(a, b, n + 1), q)
  {
    LeadsThen(false, s, [Label(a, Go), Label(b, Go)], r, GoBoth(a, b, n), q);
  }

  /** Two senders that overlap both report success, but only one message is in the ring. */
  lemma TwoSendersLose(buf: seq<Message>, m: Message, a: ThreadId, b: ThreadId) returns (schedule: Schedule, r: State)
    requires |buf| >= 2 && a != b
    ensures Leads(false, Boot(buf), schedule, r) && Roles(schedule, {a, b}, {})
    ensures !Faithful(r)
  {
    var s0 := Boot(buf);
    var s1 := BothStart(s0, a, b, StartSend(m), SendEnter(m));
    var s2 := BothPass(s1, a, b, SendEnter(m), SendCheck(m));
    var s3 := BothPass(s2, a, b, SendCheck(m), SendWrite(m, 1));
    r := BothWriteAndPublish(s3, a, b, m, 1);
    var two := [Label(a, Go), Label(b, Go)];
    assert GoBoth(a, b, 1) == two && GoBoth(a, b, 2) == two + GoBoth(a, b, 1);
    GoBothNext(a, b, s2, s3, r, 2);
    GoBothNext(a, b, s1, s2, r, 3);
    var start := [Label(a, StartSend(m)), Label(b, StartSend(m))];
    LeadsThen(false, s0, start, s1, GoBoth(a, b, 4), r);
    schedule := start + GoBoth(a, b, 4);
    GoBothRoles(a, b, 4, {a, b}, {});
    RolesConcat(start, GoBoth(a, b, 4), {a, b}, {});
    assert |Contents(r.buf, r.head, r.tail)| == 1;
  }

  /** One thread sends a message into the empty ring. */
  lemma SendAlone(buf: seq<Message>, m: Message, t: ThreadId) returns (schedule: Schedule, r: State)
    requires |buf| >= 2
    ensures Leads(false, Boot(buf), schedule, r) && Roles(schedule, {t}, {})
    ensures r.head == 0 && r.tail == 1 && |r.buf| == |buf| && r.buf[0] == m
    ensures r.accepted == [m] && r.received == [] && forall u :: At(r, u) == Idle
  {
    var go := Label(t, Go);
    var s0 := Boot(buf);
    var s1 := Execute(false, s0, Label(t, StartSend(m)));
    var s2 := Execute(false, s1, go);
    var s3 := Execute(false, s2, go);
    assert At(s3, t) == SendWrite(m, 1);
    LeadsOne(s0, Label(t, StartSend(m)), s1);
    LeadsOne(s1, go, s2);
    LeadsOne(s2, go, s3);
    LeadsThen(false, s1, [go], s2, [go], s3);
    r := FinishSend(s3, m, t);
    LeadsThen(false, s1, [go] + [go], s3, [go] + [go] + [go], r);
    LeadsThen(false, s0, [Label(t, StartSend(m))], s1, [go] + [go] + ([go] + [go] + [go]), r);
    schedule := [Label(t, StartSend(m))] + ([go] + [go] + ([go] + [go] + [go]));
  }

  lemma FinishSend(s: State, m: Message, t: ThreadId) returns (r: State)
    requires Bounded(s) && |s.buf| >= 2 && s.head == 0 && s.tail == 0 && At(s, t) == SendWrite(m, 1)
    requires forall u :: u != t ==> At(s, u) == Idle
    ensures Leads(false, s, [Label(t, Go)] + [Label(t, Go)] + [Label(t, Go)], r)
    ensures r.head == 0 && r.tail == 1 && |r.buf| == |s.buf| && r.buf[0] == m
    ensures r.accepted == s.accepted + [m] && r.received == s.received && forall u :: At(r, u) == Idle
  {
    var go := Label(t, Go);
    var s1 := Execute(false, s, go);
    var s2 := Execute(false, s1, go);
    r := Execute(false, s2, go);
    LeadsOne(s, go, s1);
    LeadsOne(s1, go, s2);
    LeadsOne(s2, go, r);
    LeadsThen(false, s, [go], s1, [go], s2);
    LeadsThen(false, s, [go] + [go], s2, [go], r);
    forall u ensures At(r, u) == Idle {
      if u != t {
        OthersStay(false, s, go, u);
        OthersStay(false, s1, go, u);
        OthersStay(false, s2, go, u);
      }
    }
  }

  /** Two receivers that overlap are both handed the one message in the ring. */
  lemma TwoReceiversDuplicate(buf: seq<Message>, m: Message, t: ThreadId, a: ThreadId, b: ThreadId)
          returns (schedule: Schedule, r: State)
    requires |buf| >= 2 && a != b
    ensures Leads(false, Boot(buf), schedule, r) && Roles(schedule, {t}, {a, b})
    ensures !Faithful(r)
  {
    var first, s0 := SendAlone(buf, m, t);
    var s1 := BothStart(s0, a, b, StartReceive, RecvEnter);
    var s2 := BothPass(s1, a, b, RecvEnter, RecvCheck);
    var s3 := BothPass(s2, a, b, RecvCheck, RecvRead);
    var s4 := BothPass(s3, a, b, RecvRead, RecvAdvance(m));
    r := BothDeliver(s4, a, b, m);
    assert GoBoth(a, b, 1) == [Label(a, Go), Label(b, Go)];
    GoBothNext(a, b, s3, s4, r, 1);
    GoBothNext(a, b, s2, s3, r, 2);
    GoBothNext(a, b, s1, s2, r, 3);
    var start := [Label(a, StartReceive), Label(b, StartReceive)];
    LeadsThen(false, s0, start, s1, GoBoth(a, b, 4), r);
    LeadsThen(false, Boot(buf), first, s0, start + GoBoth(a, b, 4), r);
    schedule := first + (start + GoBoth(a, b, 4));
    GoBothRoles(a, b, 4, {t}, {a, b});
    RolesConcat(start, GoBoth(a, b, 4), {t}, {a, b});
    RolesConcat(first, start + GoBoth(a, b, 4), {t}, {a, b});
    assert |r.received| == 2 && |r.accepted| == 1;
  }

  // ----- exactly when the ring is safe -----

  /** Under every schedule of these senders and receivers, the ring of n entries is faithful. */
  ghost predicate Safe(locked: bool, n: nat, senders: set<ThreadId>, receivers: set<ThreadId>) {
    forall buf: seq<Message>, schedule, r ::
      |buf| == n && Leads(locked, Boot(buf), schedule, r) && Roles(schedule, senders, receivers) ==> Faithful(r)
  }

  predicate SingleUse(senders: set<ThreadId>, receivers: set<ThreadId>) {
    senders == {} || (|senders| == 1 && |receivers| <= 1)
  }

  lemma TwoOf(xs: set<ThreadId>) returns (a: ThreadId, b: ThreadId)
    requires |xs| >= 2
    ensures a in xs && b in xs && a != b
  {
    a :| a in xs;
    var rest := xs - {a};
    assert |rest| >= 1;
    b :| b in rest;
  }

  lemma UnsafeWithoutLock(n: nat, m: Message, senders: set<ThreadId>, receivers: set<ThreadId>)
    requires n >= 2 && !SingleUse(senders, receivers)
    ensures !Safe(false, n, senders, receivers)
  {
    var buf := seq(n, i => m);
    if |senders| >= 2 {
      var a, b := TwoOf(senders);
      var schedule, r := TwoSendersLose(buf, m, a, b);
      assert Roles(schedule, senders, receivers);
    } else {
      var t :| t in senders;
      var a, b := TwoOf(receivers);
      var schedule, r := TwoReceiversDuplicate(buf, m, t, a, b);
      assert Roles(schedule, senders, receivers);
    }
  }

  lemma SafeWhenSingle(n: nat, senders: set<ThreadId>, receivers: set<ThreadId>)
    requires n > 0 && SingleUse(senders, receivers)
    ensures Safe(false, n, senders, receivers)
  {
    forall buf: seq<Message>, schedule, r |
      |buf| == n && Leads(false, Boot(buf), schedule, r) && Roles(schedule, senders, receivers)
      ensures Faithful(r)
    {
      if senders == {} {
        NoSendersStayEmpty(Boot(buf), schedule, r, receivers);
      } else {
        BootInv(buf);
        SingleRolesKeepInv(Boot(buf), schedule, r, senders, receivers);
      }
    }
  }

  /** A ring delivers every accepted message once and in order under all schedules if and only if it
      is locked, or has no more than one sending and one receiving thread. So the locked rings are
      safe for everybody, and the unlocked one of kernel.c for a single pair. */
  lemma SafeIff(locked: bool, n: nat, m: Message, senders: set<ThreadId>, receivers: set<ThreadId>)
    requires n >= 2
    ensures Safe(locked, n, senders, receivers) <==> locked || SingleUse(senders, receivers)
  {
    if locked {
      forall buf: seq<Message>, schedule, r | |buf| == n && Leads(true, Boot(buf), schedule, r) ensures Faithful(r) {
        LockedRingIsFaithful(buf, schedule, r);
      }
    } else if SingleUse(senders, receivers) {
      SafeWhenSingle(n, senders, receivers);
    } else {
      UnsafeWithoutLock(n, m, senders, receivers);
    }
  }
}
