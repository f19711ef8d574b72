/** The interface table of the network stack: leases that count down with every tick, renewals whose
    outcome is arbitrary, and interfaces that come and go. */
module Lease {
  import opened Words

  const MAX_IFACES: nat := 4
  const LEASE := 3600
  const RENEW_AT := 10

  type Mac = s: seq<byte> | |s| == 6 witness [0, 0, 0, 0, 0, 0]

  /** `net_if_t`, without its IPv6 fields. */
  datatype Iface = Iface(
    name: string, mac: Mac, ip: u32, netmask: u32, gateway: u32, up: bool, leaseTime: int, leaseTimer: int)

  /** What a successful DHCP exchange brings. */
  datatype Config = Config(ip: u32, netmask: u32, gateway: u32)

  type Table = s: seq<Iface> | |s| == 4 witness seq(4, i => BLANK)

  const BLANK: Iface := Iface("", [0, 0, 0, 0, 0, 0], 0, 0, 0, false, 0, 0)

  /** The array of C with the number of entries in use. */
  datatype Net = Net(ifaces: Table, count: nat)

  predicate Counted(n: Net) {
    n.count <= MAX_IFACES
  }

  // ----- one interface -----

  /** The end of `net_dhcp_request`; None stands for any failure on the way there. */
  function Leased(f: Iface, outcome: Option<Config>): Iface {
    match outcome
    case None => f
    case Some(c) =>
      f.(ip := c.ip, netmask := c.netmask, gateway := c.gateway, up := true, leaseTime := LEASE, leaseTimer := LEASE)
  }

  /** One tick of one interface. */
  function TickOne(f: Iface, outcome: Option<Config>): Iface {
    if f.up && f.leaseTime > 0 then
      var g := f.(leaseTimer := f.leaseTimer - 1);
      if g.leaseTimer == RENEW_AT then Leased(g, outcome)
      else if g.leaseTimer <= 0 then g.(up := false)
      else g
    else f
  }

  predicate Leasing(f: Iface) {
    f.up && f.leaseTime > 0
  }

  // ----- the table -----

  datatype Event =
    | Tick(outcomes: seq<Option<Config>>)
    | SetUp(name: string, up: bool)
    | Configure(name: string, config: Config)
    | DhcpRequest(i: nat, outcome: Option<Config>)
    | HotplugAdd(name: string, mac: Mac)
    | HotplugRemove(name: string)

  /** The first entry in use with this name. */
  function Find(n: Net, name: string, i: nat): Option<nat>
    requires Counted(n) && i <= n.count
    ensures Find(n, name, i).Some? ==> Find(n, name, i).value < n.count
    decreases n.count - i
  {
    if i == n.count then None else if n.ifaces[i].name == name then Some(i) else Find(n, name, i + 1)
  }

  function OutcomeAt(outcomes: seq<Option<Config>>, i: nat): Option<Config> {
    if i < |outcomes| then outcomes[i] else None
  }

  function TickAll(n: Net, outcomes: seq<Option<Config>>): Net {
    n.(ifaces := seq(4, i requires 0 <= i < 4 =>
      if i < n.count then TickOne(n.ifaces[i], OutcomeAt(outcomes, i)) else n.ifaces[i]))
  }

  /** Later entries move up by one; the last slot in use keeps its contents. */
  function ShiftDown(t: Table, from: nat, count: nat): Table
    requires from < count <= MAX_IFACES
  {
    seq(4, i requires 0 <= i < 4 => if from <= i < count - 1 then t[i + 1] else t[i])
  }

  function Fresh(old_: Iface, name: string, mac: Mac): Iface {
    old_.(name := name, mac := mac, ip := 0, netmask := 0, gateway := 0, up := false)
  }

  function Apply(n: Net, e: Event): (r: Net)
    requires Counted(n)
    ensures Counted(r)
  {
    match e
    case Tick(outcomes) => TickAll(n, outcomes)
    case SetUp(name, up) =>
      (match Find(n, name, 0)
       case None => n
       case Some(i) => n.(ifaces := n.ifaces[i := n.ifaces[i].(up := up)]))
    case Configure(name, c) =>
      (match Find(n, name, 0)
       case None => n
       case Some(i) =>
         n.(ifaces := n.ifaces[i := n.ifaces[i].(ip := c.ip, netmask := c.netmask, gateway := c.gateway)]))
    case DhcpRequest(i, outcome) =>
      if i < n.count then n.(ifaces := n.ifaces[i := Leased(n.ifaces[i], outcome)]) else n
    case HotplugAdd(name, mac) =>
      if n.count >= MAX_IFACES then n
      else Net(n.ifaces[n.count := Fresh(n.ifaces[n.count], name, mac)], n.count + 1)
    case HotplugRemove(name) =>
      (match Find(n, name, 0)
       case None => n
       case Some(i) => Net(ShiftDown(n.ifaces, i, n.count), n.count - 1))
  }

  function Run(n: Net, events: seq<Event>): (r: Net)
    requires Counted(n)
    ensures Counted(r)
    decreases |events|
  {
    if events == [] then n else Run(Apply(n, events[0]), events[1..])
  }

  const ETH0_MAC: Mac := [0xDE, 0xAD, 0xBE, 0xEF, 0x00, 0x01]

  function Boot(): Net {
    Net([BLANK.(name := "eth0", mac := ETH0_MAC), BLANK, BLANK, BLANK], 1)
  }

  /** Of every entry, in use or not: a lease is of the one length there is, and no timer exceeds it. */
  predicate LeaseOk(f: Iface) {
    (f.leaseTime == 0 || f.leaseTime == LEASE) && f.leaseTimer <= 3600
  }

  ghost predicate TableOk(n: Net) {
    Counted(n) && forall i :: 0 <= i < 4 ==> LeaseOk(n.ifaces[i])
  }

  lemma TickOneOk(f: Iface, outcome: Option<Config>)
    requires LeaseOk(f)
    ensures LeaseOk(TickOne(f, outcome))
    ensures Leasing(TickOne(f, outcome)) ==> 1 <= TickOne(f, outcome).leaseTimer <= 3600
  {
  }

  lemma ApplyOk(n: Net, e: Event)
    requires TableOk(n)
    ensures TableOk(Apply(n, e))
    ensures e.Tick? ==> forall i :: 0 <= i < n.count && Leasing(Apply(n, e).ifaces[i]) ==>
              1 <= Apply(n, e).ifaces[i].leaseTimer <= 3600
  {
    match e
    case Tick(outcomes) =>
      forall i | 0 <= i < n.count
        ensures LeaseOk(Apply(n, e).ifaces[i])
        ensures Leasing(Apply(n, e).ifaces[i]) ==> 1 <= Apply(n, e).ifaces[i].leaseTimer <= 3600
      {
        TickOneOk(n.ifaces[i], OutcomeAt(outcomes, i));
      }
    case _ =>
  }

  lemma {:induction false} RunOk(n: Net, events: seq<Event>)
    requires TableOk(n)
    ensures TableOk(Run(n, events))
    decreases |events|
  {
    if events != [] {
      ApplyOk(n, events[0]);
      RunOk(Apply(n, events[0]), events[1..]);
    }
  }

  /** From boot, after any events and then a tick with any renewal outcomes: an interface that is up
      on a lease has between 1 and 3600 ticks left. */
  lemma TimersAfterATick(events: seq<Event>, outcomes: seq<Option<Config>>)
    ensures var n := Apply(Run(Boot(), events), Tick(outcomes));
            forall i :: 0 <= i < n.count && Leasing(n.ifaces[i]) ==> 1 <= n.ifaces[i].leaseTimer <= 3600
  {
    RunOk(Boot(), events);
    ApplyOk(Run(Boot(), events), Tick(outcomes));
  }

  /** At start-up there is one interface, down, without addresses and without a lease. */
  lemma BootHasOne()
    ensures Boot().count == 1
    ensures Boot().ifaces[0] == Iface("eth0", [0xDE, 0xAD, 0xBE, 0xEF, 0x00, 0x01], 0, 0, 0, false, 0, 0)
    ensures forall i :: 1 <= i < 4 ==> Boot().ifaces[i].leaseTime == 0 && !Boot().ifaces[i].up
  {
  }

  // ----- what each event does to the table -----

  /** Entry i is the first in use with this name. */
  predicate FirstNamed(n: Net, name: string, i: nat)
    requires Counted(n)
  {
    i < n.count && n.ifaces[i].name == name && forall j :: 0 <= j < i ==> n.ifaces[j].name != name
  }

  predicate Unknown(n: Net, name: string)
    requires Counted(n)
  {
    forall j :: 0 <= j < n.count ==> n.ifaces[j].name != name
  }

  /** The tables differ in entry i at most. */
  predicate OnlyAt(n: Net, r: Net, i: nat) {
    r.count == n.count && forall j :: 0 <= j < 4 && j != i ==> r.ifaces[j] == n.ifaces[j]
  }

  lemma {:induction false} FindIsFirst(n: Net, name: string, from: nat, i: nat)
    requires Counted(n) && from <= i && FirstNamed(n, name, i)
    ensures Find(n, name, from) == Some(i)
    decreases i - from
  {
    if from < i {
      FindIsFirst(n, name, from + 1, i);
    }
  }

  lemma {:induction false} FindNone(n: Net, name: string, from: nat)
    requires Counted(n) && from <= n.count && Unknown(n, name)
    ensures Find(n, name, from) == None
    decreases n.count - from
  {
    if from < n.count {
      FindNone(n, name, from + 1);
    }
  }

  /** Switching and configuring reach the first entry of that name and nothing else; switching sets its
      state, configuring its addresses, and neither touches its lease. */
  lemma NamedEffect(n: Net, name: string, i: nat, up: bool, c: Config)
    requires Counted(n) && FirstNamed(n, name, i)
    ensures var f, r := n.ifaces[i], Apply(n, SetUp(name, up));
            OnlyAt(n, r, i) && r.ifaces[i] ==
            Iface(f.name, f.mac, f.ip, f.netmask, f.gateway, up, f.leaseTime, f.leaseTimer)
    ensures var f, r := n.ifaces[i], Apply(n, Configure(name, c));
            OnlyAt(n, r, i) && r.ifaces[i] ==
            Iface(f.name, f.mac, c.ip, c.netmask, c.gateway, f.up, f.leaseTime, f.leaseTimer)
  {
    FindIsFirst(n, name, 0, i);
  }

  /** A name that is not there is ignored. */
  lemma UnknownEffect(n: Net, name: string, up: bool, c: Config)
    requires Counted(n) && Unknown(n, name)
    ensures Apply(n, SetUp(name, up)) == Apply(n, Configure(name, c)) == Apply(n, HotplugRemove(name)) == n
  {
    FindNone(n, name, 0);
  }

  /** A completed exchange sets the addresses, brings the interface up and starts a lease of 3600 ticks;
      a failed one does nothing. */
  lemma RequestEffect(n: Net, i: nat, c: Config)
    requires Counted(n) && i < n.count
    ensures var f, r := n.ifaces[i], Apply(n, DhcpRequest(i, Some(c)));
            OnlyAt(n, r, i) && r.ifaces[i] == Iface(f.name, f.mac, c.ip, c.netmask, c.gateway, true, 3600, 3600)
    ensures Apply(n, DhcpRequest(i, None)) == n
  {
    assert n.ifaces[i := n.ifaces[i]] == n.ifaces;
  }

  /** A tick counts every running lease of an entry in use down by one. The one that comes to ten is
      renewed, with whatever the exchange brings; the one that comes to zero takes its interface down. */
  lemma TickEffect(n: Net, outcomes: seq<Option<Config>>, i: nat)
    requires Counted(n) && i < 4
    ensures Apply(n, Tick(outcomes)).count == n.count
    ensures var f, g, t := n.ifaces[i], Apply(n, Tick(outcomes)).ifaces[i], n.ifaces[i].leaseTimer - 1;
            if i < n.count && f.up && f.leaseTime > 0 then
              if t == 10 && i < |outcomes| && outcomes[i].Some? then
                var c := outcomes[i].value;
                g == Iface(f.name, f.mac, c.ip, c.netmask, c.gateway, true, 3600, 3600)
              else g == Iface(f.name, f.mac, f.ip, f.netmask, f.gateway, t > 0, f.leaseTime, t)
            else g == f
  {
  }

  /** An interface is plugged in behind the others, down and without addresses, unless there are four. */
  lemma PlugInEffect(n: Net, name: string, mac: Mac)
    requires Counted(n)
    ensures var r := Apply(n, HotplugAdd(name, mac));
            if n.count >= 4 then r == n
            else
              var f := n.ifaces[n.count];
              r.count == n.count + 1 && (forall j :: 0 <= j < 4 && j != n.count ==> r.ifaces[j] == n.ifaces[j]) &&
              r.ifaces[n.count] == Iface(name, mac, 0, 0, 0, false, f.leaseTime, f.leaseTimer)
  {
  }

  /** Pulling takes the first entry of that name out, and the others keep their order. */
  lemma PullEffect(n: Net, name: string, i: nat)
    requires Counted(n) && FirstNamed(n, name, i)
    ensures var r := Apply(n, HotplugRemove(name));
            r.count == n.count - 1 && r.ifaces[..r.count] == n.ifaces[..i] + n.ifaces[i + 1..n.count] &&
            r.ifaces[r.count..] == n.ifaces[r.count..]
  {
    FindIsFirst(n, name, 0, i);
  }

  // ----- one interface in a run of the table -----

  /** The next tick tries to renew this lease. */
  predicate Renews(f: Iface) {
    Leasing(f) && f.leaseTimer - 1 == RENEW_AT
  }

  /** Where entry i is after an event that does not remove it. */
  function Moved(n: Net, i: nat, e: Event): nat
    requires Counted(n)
  {
    if e.HotplugRemove? then
      match Find(n, e.name, 0)
      case None => i
      case Some(k) => if k < i then i - 1 else i
    else i
  }

  /** Where entry i is after a run. */
  function Place(n: Net, events: seq<Event>, i: nat): nat
    requires Counted(n)
    decreases |events|
  {
    if events == [] then i else Place(Apply(n, events[0]), events[1..], Moved(n, i, events[0]))
  }

  /** The event neither renews entry i nor switches or removes it. Anything may happen to the others. */
  predicate Spares(n: Net, i: nat, e: Event)
    requires Counted(n) && i < n.count
  {
    match e
    case Tick(outcomes) => Renews(n.ifaces[i]) ==> OutcomeAt(outcomes, i) == None
    case SetUp(name, _) => Find(n, name, 0) != Some(i)
    case Configure(_, _) => true
    case DhcpRequest(j, outcome) => j == i ==> outcome == None
    case HotplugAdd(_, _) => true
    case HotplugRemove(name) => Find(n, name, 0) != Some(i)
  }

  /** The event leaves entry i in the table, does not switch it off, and a tick that tries to renew it
      succeeds. */
  predicate Favours(n: Net, i: nat, e: Event)
    requires Counted(n) && i < n.count
  {
    match e
    case Tick(outcomes) => Renews(n.ifaces[i]) ==> OutcomeAt(outcomes, i).Some?
    case SetUp(name, up) => Find(n, name, 0) == Some(i) ==> up
    case HotplugRemove(name) => Find(n, name, 0) != Some(i)
    case _ => true
  }

  /** Every event of the run spares the entry, wherever it is by then. */
  predicate SparedBy(n: Net, events: seq<Event>, i: nat)
    requires Counted(n)
    decreases |events|
  {
    i < n.count &&
    (events == [] || (Spares(n, i, events[0]) && SparedBy(Apply(n, events[0]), events[1..], Moved(n, i, events[0]))))
  }

  predicate FavouredBy(n: Net, events: seq<Event>, i: nat)
    requires Counted(n)
    decreases |events|
  {
    i < n.count &&
    (events == [] || (Favours(n, i, events[0]) && FavouredBy(Apply(n, events[0]), events[1..], Moved(n, i, events[0]))))
  }

  function TickCount(events: seq<Event>): nat {
    if events == [] then 0 else (if events[0].Tick? then 1 else 0) + TickCount(events[1..])
  }

  /** `g` is `f` as far as its lease is concerned. */
  predicate SameLease(f: Iface, g: Iface) {
    g.name == f.name && g.up == f.up && g.leaseTime == f.leaseTime && g.leaseTimer == f.leaseTimer
  }

  /** A tick counts a spared entry down; any other event that spares it leaves its lease alone. */
  lemma SparedStep(n: Net, i: nat, e: Event)
    requires Counted(n) && i < n.count && Spares(n, i, e)
    ensures Moved(n, i, e) < Apply(n, e).count
    ensures SameLease(if e.Tick? then TickOne(n.ifaces[i], None) else n.ifaces[i], Apply(n, e).ifaces[Moved(n, i, e)])
  {
  }

  /** In every run that spares it, whatever happens to the rest of the table, an interface that is up
      on a lease stays up for exactly as many ticks as its timer says. (A timer below one, which no
      tick leaves behind, lets it see none.) */
  lemma {:induction false} DownAfterExactlyTheRest(n: Net, events: seq<Event>, i: nat)
    requires Counted(n) && SparedBy(n, events, i) && n.ifaces[i].leaseTime > 0
    ensures Place(n, events, i) < Run(n, events).count
    ensures var f, g, k := n.ifaces[i], Run(n, events).ifaces[Place(n, events, i)], TickCount(events);
            g.name == f.name && g.leaseTime == f.leaseTime &&
            (g.up <==> f.up && (k == 0 || k < f.leaseTimer)) &&
            (g.up ==> g.leaseTimer == f.leaseTimer - k)
    decreases |events|
  {
    if events != [] {
      var e := events[0];
      SparedStep(n, i, e);
      DownAfterExactlyTheRest(Apply(n, e), events[1..], Moved(n, i, e));
    }
  }

  lemma FavouredStep(n: Net, i: nat, e: Event)
    requires Counted(n) && i < n.count && Favours(n, i, e)
    requires Leasing(n.ifaces[i]) && n.ifaces[i].leaseTimer > RENEW_AT
    ensures Moved(n, i, e) < Apply(n, e).count
    ensures var g := Apply(n, e).ifaces[Moved(n, i, e)]; Leasing(g) && g.leaseTimer > RENEW_AT
  {
  }

  lemma {:induction false} StaysAboveTen(n: Net, events: seq<Event>, i: nat)
    requires Counted(n) && FavouredBy(n, events, i)
    requires Leasing(n.ifaces[i]) && n.ifaces[i].leaseTimer > RENEW_AT
    ensures Place(n, events, i) < Run(n, events).count
    ensures Leasing(Run(n, events).ifaces[Place(n, events, i)])
    decreases |events|
  {
    if events != [] {
      FavouredStep(n, i, events[0]);
      StaysAboveTen(Apply(n, events[0]), events[1..], Moved(n, i, events[0]));
    }
  }

  /** k ticks whose renewals would all succeed. */
  function TicksOnly(c: Config, k: nat): seq<Event> {
    if k == 0 then [] else [Tick([Some(c), Some(c), Some(c), Some(c)])] + TicksOnly(c, k - 1)
  }

  /** Below ten, ticks favour an entry and yet spare it: no renewal is tried any more. */
  lemma {:induction false} TooLateToRenew(n: Net, i: nat, c: Config, k: nat)
    requires Counted(n) && i < n.count && n.ifaces[i].leaseTimer <= RENEW_AT
    ensures TickCount(TicksOnly(c, k)) == k
    ensures SparedBy(n, TicksOnly(c, k), i) && FavouredBy(n, TicksOnly(c, k), i)
    decreases k
  {
    if k > 0 {
      var events := TicksOnly(c, k);
      assert events[1..] == TicksOnly(c, k - 1);
      SparedStep(n, i, events[0]);
      TooLateToRenew(Apply(n, events[0]), i, c, k - 1);
    }
  }

  /** No run that favours entry i ever ends with it down. */
  ghost predicate NeverDown(n: Net, i: nat)
    requires Counted(n)
  {
    forall events :: FavouredBy(n, events, i) ==>
      Place(n, events, i) < Run(n, events).count && Run(n, events).ifaces[Place(n, events, i)].up
  }

  /** Renewal happens at ten ticks left and never later: an interface on a lease stays up through every
      run in which all its renewals succeed and nobody switches it off or removes it, if and only if
      its timer is above ten to begin with. */
  lemma UpForEverIffAboveTen(n: Net, i: nat)
    requires Counted(n) && i < n.count && Leasing(n.ifaces[i])
    ensures NeverDown(n, i) <==> n.ifaces[i].leaseTimer > 10
  {
    var f := n.ifaces[i];
    if f.leaseTimer > RENEW_AT {
      forall events | FavouredBy(n, events, i)
        ensures Place(n, events, i) < Run(n, events).count && Run(n, events).ifaces[Place(n, events, i)].up
      {
        StaysAboveTen(n, events, i);
      }
    } else {
      var c, k: nat := Config(0, 0, 0), if f.leaseTimer >= 1 then f.leaseTimer else 1;
      TooLateToRenew(n, i, c, k);
      DownAfterExactlyTheRest(n, TicksOnly(c, k), i);
      assert FavouredBy(n, TicksOnly(c, k), i);
    }
  }

  /** k ticks without a successful renewal. */
  function FailingTicks(k: nat): seq<Event> {
    if k == 0 then [] else [Tick([])] + FailingTicks(k - 1)
  }

  lemma {:induction false} FailingTicksSpare(n: Net, i: nat, k: nat)
    requires Counted(n) && i < n.count
    ensures TickCount(FailingTicks(k)) == k && SparedBy(n, FailingTicks(k), i)
    ensures Place(n, FailingTicks(k), i) == i
    decreases k
  {
    if k > 0 {
      var events := FailingTicks(k);
      assert events[1..] == FailingTicks(k - 1);
      SparedStep(n, i, events[0]);
      FailingTicksSpare(Apply(n, events[0]), i, k - 1);
    }
  }

  /** Every timer there can be is reached from boot: one at ten or below needs a failed renewal. */
  lemma EveryTimerReached(c: Config, t: nat) returns (events: seq<Event>)
    requires 1 <= t <= 3600
    ensures var n := Run(Boot(), events); n.count == 1 && Leasing(n.ifaces[0]) && n.ifaces[0].leaseTimer == t
  {
    var e, ticks := DhcpRequest(0, Some(c)), FailingTicks(LEASE - t);
    var n := Apply(Boot(), e);
    events := [e] + ticks;
    RunCons(Boot(), e, ticks);
    FailingTicksSpare(n, 0, LEASE - t);
    DownAfterExactlyTheRest(n, ticks, 0);
    TicksKeepCount(n, LEASE - t);
  }

  lemma {:induction false} TicksKeepCount(n: Net, k: nat)
    requires Counted(n)
    ensures Run(n, FailingTicks(k)).count == n.count
    decreases k
  {
    if k > 0 {
      assert FailingTicks(k)[1..] == FailingTicks(k - 1);
      TicksKeepCount(Apply(n, Tick([])), k - 1);
    }
  }

  // ----- an interface that starts with somebody else's lease -----

  /** Plugging in does not touch the lease fields: the new interface starts without a lease if and
      only if its slot happens to hold none. */
  lemma AddedWithoutLeaseIff(n: Net, name: string, mac: Mac)
    requires Counted(n) && n.count < MAX_IFACES
    ensures var r := Apply(n, HotplugAdd(name, mac));
            r.count == n.count + 1 && !r.ifaces[n.count].up && r.ifaces[n.count].name == name &&
            (r.ifaces[n.count].leaseTime == 0 <==> n.ifaces[n.count].leaseTime == 0)
  {
  }

  /** The table after the first k events from boot. */
  function After(events: seq<Event>, k: nat): (n: Net)
    requires k <= |events|
    ensures Counted(n)
  {
    if k == 0 then Boot() else Apply(After(events, k - 1), events[k - 1])
  }

  lemma {:induction false} AfterThenRun(events: seq<Event>, k: nat)
    requires k <= |events|
    ensures Run(After(events, k), events[k..]) == Run(Boot(), events)
    decreases k
  {
    if k > 0 {
      AfterThenRun(events, k - 1);
      assert events[k - 1..][0] == events[k - 1] && events[k - 1..][1..] == events[k..];
    } else {
      assert events[k..] == events;
    }
  }

  predicate FreeAt(events: seq<Event>, j: nat, c: nat)
    requires j <= |events|
  {
    After(events, j).count <= c
  }

  /** After event number k the entry in slot c, the last of the table, is gone, and the slot stays free. */
  predicate FreedBy(events: seq<Event>, m: nat, k: nat, c: nat)
    requires m <= |events|
  {
    k < m && After(events, k).count == c + 1 && forall j: nat :: k < j <= m ==> FreeAt(events, j, c)
  }

  /** The last entry that slot c held, by the time m, was on a lease when the slot was freed. */
  ghost predicate LeftOnLease(events: seq<Event>, m: nat, c: nat)
    requires m <= |events| && c < 4
  {
    exists k: nat :: FreedBy(events, m, k, c) && After(events, k).ifaces[c].leaseTime != 0
  }

  /** An event after which slot c is free has not touched it. */
  lemma FreeSlotKept(n: Net, e: Event, c: nat)
    requires Counted(n) && Apply(n, e).count <= c < 4
    ensures n.count <= c + 1 && Apply(n, e).ifaces[c] == n.ifaces[c]
  {
  }

  lemma {:induction false} FreeSlotHoldsLeaseIff(events: seq<Event>, m: nat, c: nat)
    requires m <= |events| && After(events, m).count <= c < 4
    ensures After(events, m).ifaces[c].leaseTime != 0 <==> LeftOnLease(events, m, c)
    decreases m
  {
    if m > 0 {
      FreeSlotKept(After(events, m - 1), events[m - 1], c);
      if After(events, m - 1).count == c + 1 {
        LastFreed(events, m, c);
      } else {
        FreeSlotHoldsLeaseIff(events, m - 1, c);
        StaysFreed(events, m, c);
      }
    }
  }

  /** The slot has just been freed, and by nothing before. */
  lemma LastFreed(events: seq<Event>, m: nat, c: nat)
    requires 0 < m <= |events| && FreeAt(events, m, c) && After(events, m - 1).count == c + 1
    ensures forall k: nat :: FreedBy(events, m, k, c) <==> k == m - 1
  {
    assert !FreeAt(events, m - 1, c);
  }

  /** The slot was free already. */
  lemma StaysFreed(events: seq<Event>, m: nat, c: nat)
    requires 0 < m <= |events| && FreeAt(events, m, c) && FreeAt(events, m - 1, c)
    ensures forall k: nat :: FreedBy(events, m, k, c) <==> FreedBy(events, m - 1, k, c)
  {
  }

  /** That is what runs from boot lead to. */
  lemma AfterIsRun(events: seq<Event>)
    ensures After(events, |events|) == Run(Boot(), events)
  {
    AfterThenRun(events, |events|);
    assert events[|events|..] == [];
  }

  /** An interface plugged in after any run from boot starts with a lease, somebody else's, if and only
      if its slot was in use before and the entry in it was on a lease when the slot was last freed. */
  lemma LeaseInheritedIff(events: seq<Event>, m: nat, n: Net, r: Net, name: string, mac: Mac)
    requires m <= |events| && n == After(events, m) && n.count < MAX_IFACES
    requires r == Apply(n, HotplugAdd(name, mac))
    ensures r.count == n.count + 1 && r.ifaces[n.count].name == name && !r.ifaces[n.count].up
    ensures r.ifaces[n.count].leaseTime != 0 <==> LeftOnLease(events, m, n.count)
  {
    FreeSlotHoldsLeaseIff(events, m, n.count);
    AddedWithoutLeaseIff(n, name, mac);
  }

  /** And such slots are reachable: a lease taken out by an interface that was pulled is inherited by
      the next one plugged in. */
  lemma StaleLeaseInherited(mac: Mac, c: Config) returns (events: seq<Event>)
    ensures var n := Run(Boot(), events);
            n.count == 2 && n.ifaces[1].name == "new" && n.ifaces[1].leaseTime == LEASE && n.ifaces[1].ip == 0
  {
    var n0 := Boot();
    var e0, e1, e2, e3 := HotplugAdd("old", mac), DhcpRequest(1, Some(c)), HotplugRemove("old"), HotplugAdd("new", mac);
    var n1 := Apply(n0, e0);
    var n2 := Apply(n1, e1);
    assert n2.ifaces[0].name == "eth0" && n2.ifaces[1].name == "old" && n2.ifaces[1].leaseTime == LEASE;
    assert "eth0" != "old" by {
      assert |"eth0"| == 4 && |"old"| == 3;
    }
    assert Find(n2, "old", 0) == Find(n2, "old", 1) == Some(1);
    var n3 := Apply(n2, e2);
    assert n3.ifaces[1] == n2.ifaces[1];
    events := [e0] + ([e1] + ([e2] + ([e3] + [])));
    RunFour(n0, e0, e1, e2, e3);
  }

  lemma RunCons(n: Net, e: Event, rest: seq<Event>)
    requires Counted(n)
    ensures Run(n, [e] + rest) == Run(Apply(n, e), rest)
  {
    assert ([e] + rest)[1..] == rest;
  }

  lemma RunFour(n: Net, e0: Event, e1: Event, e2: Event, e3: Event)
    requires Counted(n)
    ensures Run(n, [e0] + ([e1] + ([e2] + ([e3] + [])))) == Apply(Apply(Apply(Apply(n, e0), e1), e2), e3)
  {
    var n1 := Apply(n, e0);
    var n2 := Apply(n1, e1);
    RunCons(n, e0, [e1] + ([e2] + ([e3] + [])));
    RunCons(n1, e1, [e2] + ([e3] + []));
    RunCons(n2, e2, [e3] + []);
    RunCons(Apply(n2, e2), e3, []);
  }
}
