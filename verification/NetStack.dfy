/** The interface table as the kernel keeps it, an array of structures updated in place, and the DHCP
    exchange on byte buffers. */
module NetStack {
  import opened Words
  import opened Dhcp
  import opened Lease

  /** What the socket delivers to one exchange: whether each send went through, and the contents of
      the 548-byte buffer after each receive with the length reported, -1 for an error. */
  datatype Wire = Wire(sent1: bool, offer: seq<byte>, offerLen: int, sent2: bool, ack: seq<byte>, ackLen: int)

  predicate Delivered(buf: seq<byte>, recvd: int) {
    |buf| == PACKET && recvd <= PACKET && (recvd >= 0 ==> Scan(buf, recvd, OPTIONS, 0, 0) != Overrun)
  }

  /** The received buffers, none of which the scan reads past. */
  predicate WireOk(w: Wire) {
    Delivered(w.offer, w.offerLen) && Delivered(w.ack, w.ackLen)
  }

  /** The outcome of an exchange: everything comes from the acknowledgement. */
  function ExchangeOutcome(w: Wire): Option<Config>
    requires WireOk(w)
  {
    if !w.sent1 || w.offerLen < 0 || !w.sent2 || w.ackLen < 0 then None
    else
      var s := Scan(w.ack, w.ackLen, OPTIONS, 0, 0);
      Some(Config(WordIn(w.ack, 16), s.subnet, s.router))
  }

  /** What a completed exchange brings, in terms of the acknowledgement's bytes: the address from byte 16,
      the netmask from the last four-byte option 1, the gateway from the last four-byte option 3; zero
      where there is no such option. */
  lemma AcknowledgedConfig(w: Wire, addr: u32, opts: seq<DhcpOption>)
    requires w.sent1 && w.offerLen >= 0 && w.sent2 && Delivered(w.offer, w.offerLen)
    requires |w.ack| == 548 && Carries(w.ack, 16, Le4(addr))
    requires AllPrintable(opts) && Carries(w.ack, 240, PrintOptions(opts) + [255])
    requires 240 + |PrintOptions(opts)| < w.ackLen <= 548
    ensures WireOk(w) && ExchangeOutcome(w).Some?
    ensures var c := ExchangeOutcome(w).value;
            c.ip == addr &&
            (forall i :: IsLastWord(opts, i, 1) ==> c.netmask == WordIn(opts[i].data, 0)) &&
            (forall i :: IsLastWord(opts, i, 3) ==> c.gateway == WordIn(opts[i].data, 0)) &&
            ((forall i :: 0 <= i < |opts| ==> !IsWord(opts[i], 1)) ==> c.netmask == 0) &&
            ((forall i :: 0 <= i < |opts| ==> !IsWord(opts[i], 3)) ==> c.gateway == 0)
  {
    ScanInvertsPrint(w.ack, w.ackLen, 240, opts, 0, 0);
    LastWordIsLast(opts, 1, 0);
    LastWordIsLast(opts, 3, 0);
    AddressAt(w.ack, addr);
  }

  /** And what it makes of the entry it was made for. */
  lemma AcknowledgedEntry(n: Net, i: nat, w: Wire, addr: u32, opts: seq<DhcpOption>)
    requires Counted(n) && i < n.count
    requires w.sent1 && w.offerLen >= 0 && w.sent2 && Delivered(w.offer, w.offerLen)
    requires |w.ack| == 548 && Carries(w.ack, 16, Le4(addr))
    requires AllPrintable(opts) && Carries(w.ack, 240, PrintOptions(opts) + [255])
    requires 240 + |PrintOptions(opts)| < w.ackLen <= 548
    ensures WireOk(w)
    ensures var f, r := n.ifaces[i], Apply(n, DhcpRequest(i, ExchangeOutcome(w)));
            OnlyAt(n, r, i) && r.ifaces[i].name == f.name && r.ifaces[i].mac == f.mac && r.ifaces[i].up &&
            r.ifaces[i].leaseTime == 3600 && r.ifaces[i].leaseTimer == 3600 && r.ifaces[i].ip == addr &&
            (forall k :: IsLastWord(opts, k, 1) ==> r.ifaces[i].netmask == WordIn(opts[k].data, 0)) &&
            (forall k :: IsLastWord(opts, k, 3) ==> r.ifaces[i].gateway == WordIn(opts[k].data, 0))
  {
    AcknowledgedConfig(w, addr, opts);
    RequestEffect(n, i, ExchangeOutcome(w).value);
  }

  lemma AddressAt(buf: seq<byte>, addr: u32)
    requires |buf| == 548 && Carries(buf, 16, Le4(addr))
    ensures WordIn(buf, 16) == addr
  {
    assert Holds(Bytes(buf), 16, Le4(addr)) by {
      forall i | 0 <= i < 4 ensures Bytes(buf)(16 + i) == Le4(addr)[i] {
        CarriesAt(buf, 16, Le4(addr), i);
      }
    }
    Le4Word(Bytes(buf), 16, addr);
  }

  /** An exchange brings nothing if and only if a packet was not sent or not received. */
  lemma ExchangeFailsIff(w: Wire)
    requires WireOk(w)
    ensures ExchangeOutcome(w) == None <==> !w.sent1 || w.offerLen < 0 || !w.sent2 || w.ackLen < 0
  {
  }

  method Receive(buf: array<byte>, contents: seq<byte>)
    requires buf.Length == PACKET == |contents|
    modifies buf
    ensures buf[..] == contents
  {
    forall i | 0 <= i < PACKET {
      buf[i] := contents[i];
    }
  }

  /** The bytes of the options of the request that answers an offer. */
  function RequestOptions(w: Wire): seq<byte>
    requires WireOk(w) && w.offerLen >= 0
  {
    [53, 1, 3, 50, 4] + Le4(WordIn(w.offer, 16)) + [54, 4] + Le4(Scan(w.offer, w.offerLen, 240, 0, 0).router) + [255]
  }

  /** `net_dhcp_request` on the wire: its outcome, and the packets it tries to send. The request names
      the address and the router of the offer. */
  method Exchange(w: Wire, xid: u32, mac: Mac) returns (outcome: Option<Config>, sent: seq<seq<byte>>)
    requires WireOk(w)
    ensures outcome == ExchangeOutcome(w)
    ensures |sent| == (if w.sent1 && w.offerLen >= 0 then 2 else 1)
    ensures IsPacket(sent[0], xid, mac, [53, 1, 1, 55, 2, 1, 3, 255])
    ensures |sent| == 2 ==> IsPacket(sent[1], xid, mac, RequestOptions(w))
  {
    var buf := new byte[PACKET](_ => 0);
    BuildDiscover(buf, xid, mac);
    sent := [buf[..]];
    if !w.sent1 || w.offerLen < 0 {
      return None, sent;
    }
    Receive(buf, w.offer);
    var yiaddr := WordIn(buf[..], 16);
    var subnet, router := ScanOptions(buf, w.offerLen);
    Receive(buf, seq(PACKET, _ => 0));
    BuildRequest(buf, xid, mac, yiaddr, router);
    sent := sent + [buf[..]];
    if !w.sent2 || w.ackLen < 0 {
      return None, sent;
    }
    Receive(buf, w.ack);
    yiaddr := WordIn(buf[..], 16);
    subnet, router := ScanOptions(buf, w.ackLen);
    outcome := Some(Config(yiaddr, subnet, router));
  }

  class InterfaceTable {
    const ifaces: array<Iface>
    var count: nat

    /** `net_stack_init` */
    constructor ()
      ensures Valid() && fresh(ifaces) && View() == Boot()
    {
      var entries := new Iface[MAX_IFACES](_ => BLANK);
      entries[0] := BLANK.(name := "eth0", mac := ETH0_MAC);
      ifaces := entries;
      count := 1;
      new;
      assert ifaces[..] == Boot().ifaces;
    }

    ghost predicate Valid()
      reads this
    {
      ifaces.Length == MAX_IFACES && count <= MAX_IFACES
    }

    ghost function View(): Net
      requires Valid()
      reads this, ifaces
    {
      Net(ifaces[..], count)
    }

    /** `net_dhcp_request(&ifaces[i])` once the exchange is over. */
    method Request(i: nat, outcome: Option<Config>)
      requires Valid() && i < count
      modifies ifaces
      ensures Valid() && View() == Apply(old(View()), DhcpRequest(i, outcome))
    {
      if outcome.Some? {
        var c := outcome.value;
        ifaces[i] := ifaces[i].(ip := c.ip, netmask := c.netmask, gateway := c.gateway, up := true);
        ifaces[i] := ifaces[i].(leaseTime := LEASE, leaseTimer := LEASE);
      }
      assert ifaces[..] == old(ifaces[..])[i := Leased(old(ifaces[i]), outcome)];
    }

    /** `net_dhcp_request(&ifaces[i])` */
    method RequestLease(i: nat, w: Wire, xid: u32) returns (code: int)
      requires Valid() && i < count && WireOk(w)
      modifies ifaces
      ensures Valid() && View() == Apply(old(View()), DhcpRequest(i, ExchangeOutcome(w)))
      ensures code == if ExchangeOutcome(w) == None then -1 else 0
    {
      var outcome, sent := Exchange(w, xid, ifaces[i].mac);
      Request(i, outcome);
      code := if outcome == None then -1 else 0;
    }

    method TickEntry(i: nat, outcome: Option<Config>)
      requires Valid() && i < count
      modifies ifaces
      ensures Valid() && ifaces[i] == TickOne(old(ifaces[i]), outcome)
      ensures forall j :: 0 <= j < MAX_IFACES && j != i ==> ifaces[j] == old(ifaces[j])
    {
      if ifaces[i].up && ifaces[i].leaseTime > 0 {
        ifaces[i] := ifaces[i].(leaseTimer := ifaces[i].leaseTimer - 1);
        if ifaces[i].leaseTimer == RENEW_AT {
          Request(i, outcome);
        } else if ifaces[i].leaseTimer <= 0 {
          ifaces[i] := ifaces[i].(up := false);
        }
      }
    }

    /** The loop of `net_stack_tick`. */
    method TickTable(outcomes: seq<Option<Config>>)
      requires Valid()
      modifies ifaces
      ensures Valid() && View() == Apply(old(View()), Tick(outcomes))
    {
      for i := 0 to count
        invariant Valid()
        invariant forall j :: 0 <= j < i ==> ifaces[j] == TickOne(old(ifaces[j]), OutcomeAt(outcomes, j))
        invariant forall j :: i <= j < MAX_IFACES ==> ifaces[j] == old(ifaces[j])
      {
        TickEntry(i, OutcomeAt(outcomes, i));
      }
      assert ifaces[..] == TickAll(old(View()), outcomes).ifaces;
    }

    method FindEntry(name: string) returns (r: Option<nat>)
      requires Valid()
      ensures r == Find(View(), name, 0)
    {
      var i := 0;
      while i < count
        invariant i <= count && Find(View(), name, i) == Find(View(), name, 0)
      {
        if ifaces[i].name == name {
          return Some(i);
        }
        i := i + 1;
      }
      return None;
    }

    /** `net_if_set_up` */
    method Switch(name: string, up: bool) returns (code: int)
      requires Valid()
      modifies ifaces
      ensures Valid() && View() == Apply(old(View()), SetUp(name, up))
      ensures code == if Find(old(View()), name, 0).Some? then 0 else -1
    {
      var r := FindEntry(name);
      if r == None {
        return -1;
      }
      ifaces[r.value] := ifaces[r.value].(up := up);
      return 0;
    }

    /** `net_if_configure` */
    method Assign(name: string, c: Config) returns (code: int)
      requires Valid()
      modifies ifaces
      ensures Valid() && View() == Apply(old(View()), Configure(name, c))
      ensures code == if Find(old(View()), name, 0).Some? then 0 else -1
    {
      var r := FindEntry(name);
      if r == None {
        return -1;
      }
      ifaces[r.value] := ifaces[r.value].(ip := c.ip, netmask := c.netmask, gateway := c.gateway);
      return 0;
    }

    /** `net_if_hotplug_add` */
    method Add(name: string, mac: Mac) returns (code: int)
      requires Valid()
      modifies this, ifaces
      ensures Valid() && View() == Apply(old(View()), HotplugAdd(name, mac))
      ensures code == if old(count) >= MAX_IFACES then -1 else 0
    {
      if count >= MAX_IFACES {
        return -1;
      }
      ifaces[count] := ifaces[count].(name := name, mac := mac, ip := 0, netmask := 0, gateway := 0, up := false);
      count := count + 1;
      return 0;
    }

    /** `net_if_hotplug_remove` */
    method Remove(name: string) returns (code: int)
      requires Valid()
      modifies this, ifaces
      ensures Valid() && View() == Apply(old(View()), HotplugRemove(name))
      ensures code == if Find(old(View()), name, 0).Some? then 0 else -1
    {
      var r := FindEntry(name);
      if r == None {
        return -1;
      }
      for j := r.value to count - 1
        invariant count == old(count)
        invariant forall k :: 0 <= k < MAX_IFACES ==> ifaces[k] == if r.value <= k < j then old(ifaces[k + 1])
                  else old(ifaces[k])
      {
        ifaces[j] := ifaces[j + 1];
      }
      assert ifaces[..] == ShiftDown(old(ifaces[..]), r.value, count);
      count := count - 1;
      return 0;
    }
  }
}
