/** The DHCP client of the network stack: the options it sends and its scan over the options it
    receives (RFC 2132, section 2). */
module Dhcp {
  import opened Words

  const PACKET: nat := 548
  const OPTIONS: nat := 240
  const END: byte := 255
  const SUBNET: byte := 1
  const ROUTER: byte := 3

  datatype DhcpOption = DhcpOption(code: byte, data: seq<byte>)

  predicate Printable(o: DhcpOption) {
    o.code != END && |o.data| < 256
  }

  predicate AllPrintable(opts: seq<DhcpOption>) {
    forall i :: 0 <= i < |opts| ==> Printable(opts[i])
  }

  /** Code, length, value. */
  function PrintOption(o: DhcpOption): seq<byte>
    requires Printable(o)
  {
    [o.code, |o.data|] + o.data
  }

  function PrintOptions(opts: seq<DhcpOption>): seq<byte>
    requires AllPrintable(opts)
  {
    if opts == [] then [] else PrintOption(opts[0]) + PrintOptions(opts[1..])
  }

  // ----- what the scan is for -----

  predicate IsWord(o: DhcpOption, code: byte) {
    o.code == code && |o.data| == 4
  }

  /** Option i is the last with this code that is four bytes long. */
  predicate IsLastWord(opts: seq<DhcpOption>, i: int, code: byte) {
    0 <= i < |opts| && IsWord(opts[i], code) && forall j :: i < j < |opts| ==> !IsWord(opts[j], code)
  }

  /** The value of the last option with this code that is four bytes long. */
  function LastWord(opts: seq<DhcpOption>, code: byte, default: u32): u32 {
    if opts == [] then default
    else LastWord(opts[1..], code, if IsWord(opts[0], code) then WordIn(opts[0].data, 0) else default)
  }

  lemma {:induction false} LastWordIsLast(opts: seq<DhcpOption>, code: byte, default: u32)
    ensures (forall i :: 0 <= i < |opts| ==> !IsWord(opts[i], code)) ==> LastWord(opts, code, default) == default
    ensures forall i :: IsLastWord(opts, i, code) ==> LastWord(opts, code, default) == WordIn(opts[i].data, 0)
    decreases |opts|
  {
    if opts != [] {
      var rest := opts[1..];
      var d := if IsWord(opts[0], code) then WordIn(opts[0].data, 0) else default;
      LastWordIsLast(rest, code, d);
      assert forall i :: 0 <= i < |rest| ==> rest[i] == opts[i + 1];
      forall i | IsLastWord(opts, i, code)
        ensures LastWord(opts, code, default) == WordIn(opts[i].data, 0)
      {
        if i > 0 {
          assert IsLastWord(rest, i - 1, code);
        }
      }
    }
  }

  // ----- the scan -----

  datatype Scanned = Parsed(subnet: u32, router: u32) | Overrun

  /** Where the scan goes on after what it sees at p. */
  function Cursor(buf: seq<byte>, p: nat): nat
    requires p + 1 < |buf|
  {
    p + 2 + buf[p + 1]
  }

  /** The scan loop from p on. Overrun means that it reads past the 548 bytes of its buffer. */
  function Scan(buf: seq<byte>, recvd: nat, p: nat, subnet: u32, router: u32): Scanned
    requires recvd <= |buf|
    decreases recvd - p
  {
    if p >= recvd || buf[p] == END then Parsed(subnet, router)
    else if p + 1 >= |buf| then Overrun
    else
      var opt, len := buf[p], buf[p + 1];
      var word := (opt == SUBNET || opt == ROUTER) && len == 4;
      if word && p + 6 > |buf| then Overrun
      else
        Scan(buf, recvd, Cursor(buf, p),
             if word && opt == SUBNET then WordIn(buf, p + 2) else subnet,
             if word && opt == ROUTER then WordIn(buf, p + 2) else router)
  }

  lemma OptionParts(buf: seq<byte>, p: nat, o: DhcpOption)
    requires Printable(o) && Carries(buf, p, PrintOption(o))
    ensures p + 2 + |o.data| <= |buf| && buf[p] == o.code && buf[p + 1] == |o.data| && Carries(buf, p + 2, o.data)
  {
    var head: seq<byte> := [o.code, |o.data|];
    CarriesConcat(buf, p, head, o.data);
    CarriesAt(buf, p, head, 0);
    CarriesAt(buf, p, head, 1);
  }

  /** One option: the loop takes note of it and goes on behind it. */
  lemma OptionScanned(buf: seq<byte>, recvd: nat, p: nat, o: DhcpOption, subnet: u32, router: u32)
    requires Printable(o) && Carries(buf, p, PrintOption(o)) && p < recvd <= |buf|
    ensures Scan(buf, recvd, p, subnet, router) ==
            Scan(buf, recvd, p + 2 + |o.data|,
                 if IsWord(o, SUBNET) then WordIn(o.data, 0) else subnet,
                 if IsWord(o, ROUTER) then WordIn(o.data, 0) else router)
  {
    OptionParts(buf, p, o);
    if |o.data| == 4 {
      WordOfSlice(buf, p + 2, o.data);
    }
  }

  /** The scan inverts the printer: on every option list that is closed by 255 within what was
      received it stays in bounds and returns the last four-byte subnet mask and router. */
  lemma {:induction false} ScanInvertsPrint(buf: seq<byte>, recvd: nat, p: nat, opts: seq<DhcpOption>, subnet: u32,
          router: u32)
    requires AllPrintable(opts) && Carries(buf, p, PrintOptions(opts) + [END])
    requires p + |PrintOptions(opts)| < recvd <= |buf|
    ensures Scan(buf, recvd, p, subnet, router) ==
            Parsed(LastWord(opts, SUBNET, subnet), LastWord(opts, ROUTER, router))
    decreases |opts|
  {
    if opts == [] {
      CarriesAt(buf, p, PrintOptions(opts) + [END], 0);
    } else {
      var o, rest := opts[0], opts[1..];
      CarriesThree(buf, p, PrintOption(o), PrintOptions(rest), [END]);
      OptionScanned(buf, recvd, p, o, subnet, router);
      ScanInvertsPrint(buf, recvd, p + |PrintOption(o)|, rest,
                       if IsWord(o, SUBNET) then WordIn(o.data, 0) else subnet,
                       if IsWord(o, ROUTER) then WordIn(o.data, 0) else router);
    }
  }

  // ----- the pad option -----

  /** What may stand in the option field: an option with its length, or a single 0 byte. */
  datatype Field = Full(option: DhcpOption) | Pad

  function PrintField(f: Field): seq<byte>
    requires f.Full? ==> Printable(f.option)
  {
    match f
    case Full(o) => PrintOption(o)
    case Pad => [0]
  }

  predicate PrintableFields(fs: seq<Field>) {
    forall i :: 0 <= i < |fs| ==> fs[i].Full? ==> Printable(fs[i].option)
  }

  function PrintFields(fs: seq<Field>): seq<byte>
    requires PrintableFields(fs)
  {
    if fs == [] then [] else PrintField(fs[0]) + PrintFields(fs[1..])
  }

  /** Where the fields printed from p on begin, and where the last one ends. */
  function Boundaries(fs: seq<Field>, p: nat): Positions
    requires PrintableFields(fs)
  {
    Then(p, if fs == [] then Done else Boundaries(fs[1..], p + |PrintField(fs[0])|))
  }

  /** The positions at which the scan looks for an option code, from p on. */
  function Visited(buf: seq<byte>, recvd: nat, p: nat): Positions
    requires recvd <= |buf|
    decreases recvd - p
  {
    if p >= recvd then Done
    else Then(p, if buf[p] == END || p + 1 >= |buf| then Done else Visited(buf, recvd, Cursor(buf, p)))
  }

  /** What the options at these positions, up to the first 255, say of the two values. */
  function Collect(buf: seq<byte>, ps: Positions, subnet: u32, router: u32): Scanned
    decreases ps
  {
    match ps
    case Done => Parsed(subnet, router)
    case Then(q, more) =>
      if !(0 <= q && q + 6 <= |buf|) || buf[q] == END || buf[q + 1] != 4 then Collect(buf, more, subnet, router)
      else
        Collect(buf, more,
                if buf[q] == SUBNET then WordIn(buf, q + 2) else subnet,
                if buf[q] == ROUTER then WordIn(buf, q + 2) else router)
  }

  /** These positions are all there is to the scan: its result is what the options there say. */
  lemma {:induction false} ScanCollectsVisited(buf: seq<byte>, recvd: nat, p: nat, subnet: u32, router: u32)
    requires recvd <= |buf| && Scan(buf, recvd, p, subnet, router) != Overrun
    ensures Scan(buf, recvd, p, subnet, router) == Collect(buf, Visited(buf, recvd, p), subnet, router)
    decreases recvd - p
  {
    if p < recvd && buf[p] != END {
      var word := (buf[p] == SUBNET || buf[p] == ROUTER) && buf[p + 1] == 4;
      ScanCollectsVisited(buf, recvd, Cursor(buf, p),
                          if word && buf[p] == SUBNET then WordIn(buf, p + 2) else subnet,
                          if word && buf[p] == ROUTER then WordIn(buf, p + 2) else router);
    }
  }

  /** What the scan reads of an option at q, if it is not the closing 255, does not lie in the buffer. */
  predicate SticksOut(buf: seq<byte>, q: int) {
    0 <= q < |buf| && buf[q] != END &&
    (q + 1 >= |buf| || ((buf[q] == SUBNET || buf[q] == ROUTER) && buf[q + 1] == 4 && q + 6 > |buf|))
  }

  /** The buffers that the scan reads past: those in which it comes to an option that sticks out. */
  lemma {:induction false} ScanOverrunsIff(buf: seq<byte>, recvd: nat, p: nat, subnet: u32, router: u32)
    requires recvd <= |buf|
    ensures Scan(buf, recvd, p, subnet, router) == Overrun <==>
            exists q :: Among(q, Visited(buf, recvd, p)) && SticksOut(buf, q)
    decreases recvd - p
  {
    if p < recvd && buf[p] != END {
      assert Among(p, Visited(buf, recvd, p));
      if !SticksOut(buf, p) {
        var word := (buf[p] == SUBNET || buf[p] == ROUTER) && buf[p + 1] == 4;
        ScanOverrunsIff(buf, recvd, Cursor(buf, p),
                        if word && buf[p] == SUBNET then WordIn(buf, p + 2) else subnet,
                        if word && buf[p] == ROUTER then WordIn(buf, p + 2) else router);
        VisitedNext(buf, recvd, p);
      }
    }
  }

  lemma VisitedNext(buf: seq<byte>, recvd: nat, p: nat)
    requires p < recvd <= |buf| && buf[p] != END && p + 1 < |buf|
    ensures forall q :: Among(q, Visited(buf, recvd, p)) <==> q == p || Among(q, Visited(buf, recvd, Cursor(buf, p)))
  {
  }

  /** One step of the scan leads to the end of a field if and only if the field is not a pad. */
  lemma FieldPassedIffFull(buf: seq<byte>, p: nat, f: Field)
    requires (f.Full? ==> Printable(f.option)) && Carries(buf, p, PrintField(f)) && p + 1 < |buf|
    ensures buf[p] != END && (Cursor(buf, p) == p + |PrintField(f)| <==> f.Full?)
  {
    if f.Full? {
      OptionParts(buf, p, f.option);
    } else {
      CarriesAt(buf, p, [0], 0);
    }
  }

  predicate NoPad(fs: seq<Field>) {
    fs == [] || (fs[0].Full? && NoPad(fs[1..]))
  }

  lemma FieldsBegin(buf: seq<byte>, p: nat, fs: seq<Field>, first: seq<byte>, rest: seq<byte>, tail: seq<byte>)
    requires PrintableFields(fs) && fs != [] && first == PrintField(fs[0]) && rest == PrintFields(fs[1..])
    requires Carries(buf, p, PrintFields(fs) + tail)
    ensures |PrintFields(fs)| == |first| + |rest|
    ensures Carries(buf, p, first) && Carries(buf, p + |first|, rest + tail)
  {
    CarriesThree(buf, p, first, rest, tail);
  }

  /** The exact extent of the scan: over every option field printed and closed by 255 within what was
      received, it looks for option codes exactly where the fields begin if and only if there is no pad
      among them. */
  lemma {:induction false} ScanFollowsIffNoPad(buf: seq<byte>, recvd: nat, p: nat, fs: seq<Field>, tail: seq<byte>)
    requires PrintableFields(fs) && tail != [] && tail[0] == END && Carries(buf, p, PrintFields(fs) + tail)
    requires p + |PrintFields(fs)| < recvd <= |buf|
    ensures Visited(buf, recvd, p) == Boundaries(fs, p) <==> NoPad(fs)
    decreases |fs|
  {
    if fs == [] {
      VisitedEnd(buf, recvd, p, tail);
    } else {
      var end := p + |PrintField(fs[0])|;
      FieldsBegin(buf, p, fs, PrintField(fs[0]), PrintFields(fs[1..]), tail);
      ScanFollowsIffNoPad(buf, recvd, end, fs[1..], tail);
      FirstField(buf, recvd, p, end, fs);
    }
  }

  lemma VisitedEnd(buf: seq<byte>, recvd: nat, p: nat, tail: seq<byte>)
    requires tail != [] && tail[0] == END && Carries(buf, p, PrintFields([]) + tail) && p < recvd <= |buf|
    ensures Visited(buf, recvd, p) == Then(p, Done)
  {
    assert PrintFields([]) + tail == tail;
    CarriesAt(buf, p, tail, 0);
  }

  lemma FirstField(buf: seq<byte>, recvd: nat, p: nat, end: nat, fs: seq<Field>)
    requires PrintableFields(fs) && fs != [] && Carries(buf, p, PrintField(fs[0])) && end < recvd <= |buf|
    requires end == p + |PrintField(fs[0])|
    ensures Visited(buf, recvd, p) == Boundaries(fs, p) <==>
            fs[0].Full? && Visited(buf, recvd, end) == Boundaries(fs[1..], end)
  {
    FieldPassedIffFull(buf, p, fs[0]);
  }

  /** The pad option is a single 0 byte without a length, which the scan does not know. A subnet mask
      behind a pad is lost: code 1 is taken for the length of option 0. */
  lemma PadHidesSubnet(buf: seq<byte>, recvd: nat)
    requires |buf| == PACKET && OPTIONS + 8 <= recvd <= |buf|
    requires Carries(buf, OPTIONS, [0] + (PrintOption(DhcpOption(SUBNET, [255, 255, 255, 0])) + [END]))
    ensures Scan(buf, recvd, OPTIONS, 0, 0) == Scan(buf, recvd, OPTIONS + 3, 0, 0) == Parsed(0, 0)
  {
    var p := OPTIONS;
    var bs: seq<byte> := [0, 1, 4, 255, 255, 255, 0, 255];
    assert [0] + (PrintOption(DhcpOption(SUBNET, [255, 255, 255, 0])) + [END]) == bs;
    CarriesAt(buf, p, bs, 0);
    CarriesAt(buf, p, bs, 1);
    CarriesAt(buf, p, bs, 3);
    ScanSkips(buf, recvd, p, p + 3);
  }

  lemma ScanSkips(buf: seq<byte>, recvd: nat, p: nat, q: nat)
    requires recvd <= |buf| && p + 1 < recvd && buf[p] == 0 && q == p + 2 + buf[p + 1]
    ensures Scan(buf, recvd, p, 0, 0) == Scan(buf, recvd, q, 0, 0)
  {
  }

  // ----- the options the client sends -----

  const DISCOVER: seq<DhcpOption> := [DhcpOption(53, [1]), DhcpOption(55, [SUBNET, ROUTER])]

  function Request(yiaddr: u32, router: u32): seq<DhcpOption> {
    [DhcpOption(53, [3]), DhcpOption(50, Le4(yiaddr)), DhcpOption(54, Le4(router))]
  }

  lemma PrintOne(o: DhcpOption)
    requires Printable(o)
    ensures PrintOptions([o]) == PrintOption(o)
  {
    assert [o][1..] == [];
  }

  lemma PrintMore(o: DhcpOption, rest: seq<DhcpOption>)
    requires Printable(o) && AllPrintable(rest)
    ensures AllPrintable([o] + rest) && PrintOptions([o] + rest) == PrintOption(o) + PrintOptions(rest)
  {
    assert ([o] + rest)[1..] == rest;
  }

  lemma DiscoverBytes()
    ensures AllPrintable(DISCOVER) && PrintOptions(DISCOVER) == [53, 1, 1] + [55, 2, 1, 3]
  {
    var a, b := DhcpOption(53, [1]), DhcpOption(55, [SUBNET, ROUTER]);
    PrintOne(b);
    PrintMore(a, [b]);
    assert DISCOVER == [a] + [b];
  }

  lemma RequestBytes(yiaddr: u32, router: u32)
    ensures AllPrintable(Request(yiaddr, router))
    ensures PrintOptions(Request(yiaddr, router)) == [53, 1, 3] + ([50, 4] + Le4(yiaddr)) + ([54, 4] + Le4(router))
  {
    var a, b, c := DhcpOption(53, [3]), DhcpOption(50, Le4(yiaddr)), DhcpOption(54, Le4(router));
    PrintOne(c);
    PrintMore(b, [c]);
    PrintMore(a, [b] + [c]);
    assert Request(yiaddr, router) == [a] + ([b] + [c]);
  }

  method PutBytes(buf: array<byte>, p: nat, bs: seq<byte>) returns (q: nat)
    requires p + |bs| <= buf.Length
    modifies buf
    ensures q == p + |bs| && Carries(buf[..], p, bs)
    ensures forall i :: 0 <= i < buf.Length && !(p <= i < q) ==> buf[i] == old(buf[i])
  {
    for k := 0 to |bs|
      invariant forall i :: 0 <= i < k ==> buf[p + i] == bs[i]
      invariant forall i :: 0 <= i < buf.Length && !(p <= i < p + k) ==> buf[i] == old(buf[i])
    {
      buf[p + k] := bs[k];
    }
    q := p + |bs|;
  }

  lemma CarriesKept(before: seq<byte>, after: seq<byte>, p: nat, bs: seq<byte>, q: nat)
    requires |before| == |after| && Carries(before, p, bs) && p + |bs| <= q
    requires forall i :: 0 <= i < q && i < |before| ==> after[i] == before[i]
    ensures Carries(after, p, bs)
  {
    assert after[p..p + |bs|] == before[p..p + |bs|];
  }

  /** Two runs of bytes next to each other. */
  method PutBoth(buf: array<byte>, p: nat, xs: seq<byte>, ys: seq<byte>) returns (q: nat)
    requires p + |xs| + |ys| <= buf.Length
    modifies buf
    ensures q == p + |xs| + |ys| && Carries(buf[..], p, xs + ys)
    ensures forall i :: 0 <= i < buf.Length && !(p <= i < q) ==> buf[i] == old(buf[i])
  {
    q := PutBytes(buf, p, xs);
    ghost var mid := buf[..];
    q := PutBytes(buf, q, ys);
    CarriesKept(mid, buf[..], p, xs, p + |xs|);
    CarriesConcat(buf[..], p, xs, ys);
  }

  /** The options of DHCPDISCOVER, written from byte 240 on, are the printed list closed by 255. */
  method WriteDiscoverOptions(buf: array<byte>) returns (p: nat)
    requires buf.Length == PACKET
    modifies buf
    ensures AllPrintable(DISCOVER) && Carries(buf[..], OPTIONS, PrintOptions(DISCOVER) + [END])
    ensures p == 248 && forall i :: 0 <= i < PACKET && !(OPTIONS <= i < p) ==> buf[i] == old(buf[i])
  {
    DiscoverBytes();
    p := PutBoth(buf, OPTIONS, [53, 1, 1], [55, 2, 1, 3]);
    ghost var mid := buf[..];
    p := PutBytes(buf, p, [END]);
    CarriesKept(mid, buf[..], OPTIONS, [53, 1, 1] + [55, 2, 1, 3], OPTIONS + 7);
    CarriesConcat(buf[..], OPTIONS, [53, 1, 1] + [55, 2, 1, 3], [END]);
  }

  /** The options of DHCPREQUEST, for every address and router. */
  method WriteRequestOptions(buf: array<byte>, yiaddr: u32, router: u32) returns (p: nat)
    requires buf.Length == PACKET
    modifies buf
    ensures AllPrintable(Request(yiaddr, router))
    ensures Carries(buf[..], OPTIONS, PrintOptions(Request(yiaddr, router)) + [END])
    ensures p == 256 && forall i :: 0 <= i < PACKET && !(OPTIONS <= i < p) ==> buf[i] == old(buf[i])
  {
    RequestBytes(yiaddr, router);
    ghost var a, b, c := [53, 1, 3], [50, 4] + Le4(yiaddr), [54, 4] + Le4(router);
    p := PutBytes(buf, OPTIONS, [53, 1, 3]);
    ghost var buf1 := buf[..];
    p := PutBoth(buf, p, [50, 4], Le4(yiaddr));
    ghost var buf2 := buf[..];
    CarriesKept(buf1, buf2, OPTIONS, a, OPTIONS + 3);
    CarriesConcat(buf2, OPTIONS, a, b);
    p := PutBoth(buf, p, [54, 4], Le4(router));
    ghost var buf3 := buf[..];
    CarriesKept(buf2, buf3, OPTIONS, a + b, OPTIONS + 9);
    CarriesConcat(buf3, OPTIONS, a + b, c);
    p := PutBytes(buf, p, [END]);
    CarriesKept(buf3, buf[..], OPTIONS, a + b + c, OPTIONS + 15);
    CarriesConcat(buf[..], OPTIONS, a + b + c, [END]);
  }

  // ----- whole packets -----

  /** The first 240 bytes: a request over Ethernet with its transaction number, the client's hardware
      address, and the magic number in front of the options. */
  function HeaderByte(xid: u32, mac: seq<byte>, i: nat): byte
    requires |mac| == 6
  {
    if i == 0 || i == 1 then 1
    else if i == 2 then 6
    else if i == 4 then xid / 0x100_0000
    else if i == 5 then xid / 0x1_0000 % 0x100
    else if i == 6 then xid / 0x100 % 0x100
    else if i == 7 then xid % 0x100
    else if 28 <= i < 34 then mac[i - 28]
    else if i == 236 || i == 239 then 99
    else if i == 237 then 130
    else if i == 238 then 83
    else 0
  }

  /** A packet of 548 bytes with this header, these option bytes, and zeros behind them. */
  ghost predicate IsPacket(buf: seq<byte>, xid: u32, mac: seq<byte>, options: seq<byte>) {
    |mac| == 6 && |buf| == 548 && Carries(buf, 240, options) &&
    (forall i :: 0 <= i < 240 ==> buf[i] == HeaderByte(xid, mac, i)) &&
    forall i :: 240 + |options| <= i < 548 ==> buf[i] == 0
  }

  method WriteHeader(buf: array<byte>, xid: u32, mac: seq<byte>)
    requires buf.Length == PACKET && |mac| == 6 && forall i :: 0 <= i < PACKET ==> buf[i] == 0
    modifies buf
    ensures forall i :: 0 <= i < 240 ==> buf[i] == HeaderByte(xid, mac, i)
    ensures forall i :: 240 <= i < PACKET ==> buf[i] == 0
  {
    buf[0], buf[1], buf[2] := 1, 1, 6;
    buf[4], buf[5] := xid / 0x100_0000, xid / 0x1_0000 % 0x100;
    buf[6], buf[7] := xid / 0x100 % 0x100, xid % 0x100;
    buf[236], buf[237], buf[238], buf[239] := 99, 130, 83, 99;
    for k := 0 to 6
      invariant forall i :: 0 <= i < 240 && !(28 + k <= i < 34) ==> buf[i] == HeaderByte(xid, mac, i)
      invariant forall i :: 240 <= i < PACKET ==> buf[i] == 0
    {
      buf[28 + k] := mac[k];
    }
  }

  /** DHCPDISCOVER: options 53 with value 1 and 55 asking for 1 and 3. */
  method BuildDiscover(buf: array<byte>, xid: u32, mac: seq<byte>)
    requires buf.Length == PACKET && |mac| == 6 && forall i :: 0 <= i < PACKET ==> buf[i] == 0
    modifies buf
    ensures IsPacket(buf[..], xid, mac, [53, 1, 1, 55, 2, 1, 3, 255])
  {
    WriteHeader(buf, xid, mac);
    var p := WriteDiscoverOptions(buf);
    DiscoverBytes();
    assert PrintOptions(DISCOVER) + [END] == [53, 1, 1, 55, 2, 1, 3, 255];
  }

  /** DHCPREQUEST: options 53 with value 3, 50 with the address, and 54 with the router. */
  method BuildRequest(buf: array<byte>, xid: u32, mac: seq<byte>, yiaddr: u32, router: u32)
    requires buf.Length == PACKET && |mac| == 6 && forall i :: 0 <= i < PACKET ==> buf[i] == 0
    modifies buf
    ensures IsPacket(buf[..], xid, mac, [53, 1, 3, 50, 4] + Le4(yiaddr) + [54, 4] + Le4(router) + [255])
  {
    WriteHeader(buf, xid, mac);
    var p := WriteRequestOptions(buf, yiaddr, router);
    RequestBytes(yiaddr, router);
    RequestIs(Le4(yiaddr), Le4(router));
  }

  lemma RequestIs(a: seq<byte>, b: seq<byte>)
    ensures [53, 1, 3] + ([50, 4] + a) + ([54, 4] + b) + [255] == [53, 1, 3, 50, 4] + a + [54, 4] + b + [255]
  {
  }

  /** The scan loop, on every buffer it does not read past. */
  method ScanOptions(buf: array<byte>, recvd: nat) returns (subnet: u32, router: u32)
    requires buf.Length == PACKET && recvd <= PACKET && Scan(buf[..], recvd, OPTIONS, 0, 0) != Overrun
    ensures Scan(buf[..], recvd, OPTIONS, 0, 0) == Parsed(subnet, router)
  {
    subnet, router := 0, 0;
    var p := OPTIONS;
    while p < recvd && buf[p] != END
      invariant Scan(buf[..], recvd, p, subnet, router) == Scan(buf[..], recvd, OPTIONS, 0, 0)
      decreases recvd - p
    {
      var opt := buf[p];
      p := p + 1;
      var len := buf[p];
      p := p + 1;
      if opt == SUBNET && len == 4 {
        subnet := WordIn(buf[..], p);
      }
      if opt == ROUTER && len == 4 {
        router := WordIn(buf[..], p);
      }
      p := p + len;
    }
  }
}
