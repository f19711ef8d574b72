/** The DNS client of the network stack: the query it builds and its walk over a response
    (RFC 1035, sections 3.1 and 4.1). */
module Dns {
  import opened Words

  const DOT: byte := 46
  const BUFFER: nat := 512
  const HEADER: nat := 12

  type Label = seq<byte>

  // ----- names -----

  /** Where the first dot of h is, or its end. */
  function FirstDot(h: seq<byte>): (n: nat)
    ensures n <= |h|
  {
    if h == [] || h[0] == DOT then 0 else 1 + FirstDot(h[1..])
  }

  function LengthByte(n: nat): seq<byte> {
    [n % 256]
  }

  /** What the encoder's loop writes for a host name: a length byte and the label, for each label.
      The length is an `int` stored into a byte. */
  function EncodeLabels(h: seq<byte>): seq<byte>
    decreases |h|
  {
    if h == [] then []
    else
      var len := FirstDot(h);
      LengthByte(len) + h[..len] + (if len < |h| then EncodeLabels(h[len + 1..]) else [])
  }

  /** The labels of a host name. A dot at the end adds none. */
  function SplitName(h: seq<byte>): seq<Label>
    decreases |h|
  {
    if h == [] then []
    else
      var len := FirstDot(h);
      [h[..len]] + (if len < |h| then SplitName(h[len + 1..]) else [])
  }

  predicate ValidLabel(l: Label) {
    1 <= |l| <= 63
  }

  predicate ValidLabels(ls: seq<Label>) {
    forall i :: 0 <= i < |ls| ==> ValidLabel(ls[i])
  }

  /** Labels whose length fits a byte, as the encoder needs it. */
  predicate ByteLabels(ls: seq<Label>) {
    forall i :: 0 <= i < |ls| ==> |ls[i]| < 256
  }

  predicate NoEmptyLabel(ls: seq<Label>) {
    forall i :: 0 <= i < |ls| ==> ls[i] != []
  }

  /** The uncompressed form of a name, without its final zero. */
  function PrintLabels(ls: seq<Label>): seq<byte>
    requires ByteLabels(ls)
  {
    if ls == [] then [] else [|ls[0]|] + ls[0] + PrintLabels(ls[1..])
  }

  /** An independent reader of uncompressed names: the labels, and where the name ends. */
  function ReadName(buf: seq<byte>, p: nat): Option<(seq<Label>, nat)>
    decreases |buf| - p
  {
    if p >= |buf| then None
    else if buf[p] == 0 then Some(([], p + 1))
    else if buf[p] > 63 || p + 1 + buf[p] > |buf| then None
    else
      match ReadName(buf, p + 1 + buf[p])
      case None => None
      case Some((rest, end)) => Some(([buf[p + 1..p + 1 + buf[p]]] + rest, end))
  }

  lemma {:induction false} ReadNameValid(buf: seq<byte>, p: nat)
    ensures ReadName(buf, p).Some? ==> ValidLabels(ReadName(buf, p).value.0)
    decreases |buf| - p
  {
    if p < |buf| && 0 < buf[p] <= 63 && p + 1 + buf[p] <= |buf| {
      ReadNameValid(buf, p + 1 + buf[p]);
    }
  }

  lemma PrintFirst(ls: seq<Label>)
    requires ByteLabels(ls) && ls != []
    ensures PrintLabels(ls) + [0] == [|ls[0]|] + (ls[0] + (PrintLabels(ls[1..]) + [0]))
  {
  }

  /** The first label of a printed name, and the rest behind it. */
  lemma NameParts(buf: seq<byte>, p: nat, l: Label, rest: seq<byte>)
    requires |l| < 256 && Carries(buf, p, [|l|] + (l + rest))
    ensures p + 1 + |l| <= |buf| && buf[p] == |l| && buf[p + 1..p + 1 + |l|] == l
    ensures Carries(buf, p + 1 + |l|, rest)
  {
    CarriesConcat(buf, p, [|l|], l + rest);
    CarriesConcat(buf, p + 1, l, rest);
    CarriesAt(buf, p, [|l|], 0);
  }

  lemma ReadFirst(buf: seq<byte>, p: nat, l: Label, rest: seq<Label>, end: nat)
    requires 0 < |l| <= 63 && p + 1 + |l| <= |buf| && buf[p] == |l| && buf[p + 1..p + 1 + |l|] == l
    requires ReadName(buf, p + 1 + |l|) == Some((rest, end))
    ensures ReadName(buf, p) == Some(([l] + rest, end))
  {
  }

  lemma {:induction false} ReadInvertsPrint(buf: seq<byte>, p: nat, ls: seq<Label>)
    requires ValidLabels(ls) && Carries(buf, p, PrintLabels(ls) + [0])
    ensures ReadName(buf, p) == Some((ls, p + |PrintLabels(ls)| + 1))
    decreases |ls|
  {
    if ls == [] {
      CarriesAt(buf, p, PrintLabels(ls) + [0], 0);
    } else {
      PrintFirst(ls);
      NameParts(buf, p, ls[0], PrintLabels(ls[1..]) + [0]);
      ReadInvertsPrint(buf, p + 1 + |ls[0]|, ls[1..]);
      ReadFirst(buf, p, ls[0], ls[1..], p + |PrintLabels(ls)| + 1);
      assert ls == [ls[0]] + ls[1..];
    }
  }

  lemma LengthFits(n: nat)
    requires n < 256
    ensures LengthByte(n) == [n]
  {
  }

  function EncodeRest(h: seq<byte>, len: nat): seq<byte>
    requires len <= |h|
  {
    if len < |h| then EncodeLabels(h[len + 1..]) else []
  }

  lemma EncodeFirst(h: seq<byte>, len: nat)
    requires h != [] && len == FirstDot(h)
    ensures EncodeLabels(h) == LengthByte(len) + h[..len] + EncodeRest(h, len)
  {
  }

  lemma PrintCons(l: Label, rest: seq<Label>)
    requires |l| < 256 && ByteLabels(rest)
    ensures ByteLabels([l] + rest) && PrintLabels([l] + rest) == [|l|] + l + PrintLabels(rest)
  {
    assert ([l] + rest)[1..] == rest;
  }

  /** The encoder writes the printed form of the labels, if their lengths fit. */
  lemma {:induction false} EncodePrintsLabels(h: seq<byte>)
    requires ByteLabels(SplitName(h))
    ensures EncodeLabels(h) == PrintLabels(SplitName(h))
    decreases |h|
  {
    if h != [] {
      var len := FirstDot(h);
      var rest := if len < |h| then SplitName(h[len + 1..]) else [];
      assert SplitName(h) == [h[..len]] + rest;
      assert |SplitName(h)[0]| < 256;
      EncodeFirst(h, len);
      LengthFits(len);
      assert forall i :: 0 <= i < |rest| ==> rest[i] == SplitName(h)[i + 1];
      PrintCons(h[..len], rest);
      if len < |h| {
        EncodePrintsLabels(h[len + 1..]);
      }
    }
  }

  /** Name round trip, and its exact extent: a reader of the encoded name gets the labels back if and
      only if all of them are 1 to 63 bytes long. */
  lemma NameRoundTripIff(h: seq<byte>)
    ensures var wire := EncodeLabels(h) + [0];
            ReadName(wire, 0) == Some((SplitName(h), |wire|)) <==> ValidLabels(SplitName(h))
  {
    var wire := EncodeLabels(h) + [0];
    if ValidLabels(SplitName(h)) {
      EncodePrintsLabels(h);
      assert Carries(wire, 0, wire);
      ReadInvertsPrint(wire, 0, SplitName(h));
    }
    ReadNameValid(wire, 0);
  }

  /** Host names are labels joined by dots. */
  function Join(ls: seq<Label>): seq<byte> {
    if |ls| == 0 then [] else if |ls| == 1 then ls[0] else ls[0] + [DOT] + Join(ls[1..])
  }

  lemma {:induction false} FirstDotOfLabel(l: Label, rest: seq<byte>)
    requires DOT !in l && (rest == [] || rest[0] == DOT)
    ensures FirstDot(l + rest) == |l|
    decreases |l|
  {
    if l == [] {
      assert l + rest == rest;
    } else {
      assert (l + rest)[1..] == l[1..] + rest;
      FirstDotOfLabel(l[1..], rest);
    }
  }

  /** Splitting undoes joining. */
  lemma SplitFirst(l: Label, rest: seq<byte>)
    requires DOT !in l && l != []
    ensures SplitName(l + ([DOT] + rest)) == [l] + SplitName(rest)
    ensures SplitName(l) == [l]
  {
    var h := l + ([DOT] + rest);
    FirstDotOfLabel(l, [DOT] + rest);
    assert h[..|l|] == l && h[|l| + 1..] == rest;
    FirstDotOfLabel(l, []);
    assert l + [] == l && l[..|l|] == l;
  }

  lemma JoinFirst(ls: seq<Label>)
    requires |ls| > 1
    ensures Join(ls) == ls[0] + ([DOT] + Join(ls[1..]))
  {
  }

  predicate DotFree(ls: seq<Label>) {
    forall i :: 0 <= i < |ls| ==> DOT !in ls[i]
  }

  lemma {:induction false} SplitInvertsJoin(ls: seq<Label>)
    requires ValidLabels(ls) && DotFree(ls)
    ensures SplitName(Join(ls)) == ls
    decreases |ls|
  {
    if |ls| == 1 {
      SplitFirst(ls[0], []);
    } else if |ls| > 1 {
      var rest := ls[1..];
      SplitInvertsJoin(rest);
      SplitFirst(ls[0], Join(rest));
      JoinFirst(ls);
      assert ls == [ls[0]] + rest;
    }
  }

  // ----- the skip loop -----

  /** Hops from length byte to length byte, and past the zero that ends the name; None if that reads
      past the buffer. */
  function SkipName(buf: seq<byte>, p: nat): (q: Option<nat>)
    ensures q.Some? ==> p < q.value <= |buf|
    decreases |buf| - p
  {
    if p >= |buf| then None
    else if buf[p] == 0 then Some(p + 1)
    else SkipName(buf, p + buf[p] + 1)
  }

  /** The first label of a printed list, and the others behind it. */
  lemma PrintedStep(buf: seq<byte>, p: nat, ls: seq<Label>, rest: seq<byte>)
    requires ByteLabels(ls) && ls != [] && Carries(buf, p, PrintLabels(ls) + rest)
    ensures p < |buf| && buf[p] == |ls[0]| && Carries(buf, p + 1 + |ls[0]|, PrintLabels(ls[1..]) + rest)
    ensures |PrintLabels(ls)| == 1 + |ls[0]| + |PrintLabels(ls[1..])|
  {
    PrintUnfolds(ls);
    NameAndRest(buf, p, ls[0], PrintLabels(ls[1..]), rest);
  }

  lemma PrintUnfolds(ls: seq<Label>)
    requires ByteLabels(ls) && ls != []
    ensures PrintLabels(ls) == [|ls[0]|] + ls[0] + PrintLabels(ls[1..])
  {
  }

  lemma NameAndRest(buf: seq<byte>, p: nat, l: Label, more: seq<byte>, rest: seq<byte>)
    requires |l| < 256 && Carries(buf, p, [|l|] + l + more + rest)
    ensures p < |buf| && buf[p] == |l| && Carries(buf, p + 1 + |l|, more + rest)
  {
    Reassociate(l, more, rest);
    NameParts(buf, p, l, more + rest);
  }

  /** The loop hops over labels, whatever comes behind them, unless one is empty. */
  lemma {:induction false} SkipLabels(buf: seq<byte>, p: nat, ls: seq<Label>, rest: seq<byte>)
    requires ByteLabels(ls) && NoEmptyLabel(ls) && Carries(buf, p, PrintLabels(ls) + rest)
    ensures SkipName(buf, p) == SkipName(buf, p + |PrintLabels(ls)|) && Carries(buf, p + |PrintLabels(ls)|, rest)
    decreases |ls|
  {
    if ls == [] {
      assert PrintLabels(ls) + rest == rest;
    } else {
      PrintedStep(buf, p, ls, rest);
      SkipHops(buf, p, p + 1 + |ls[0]|);
      SkipLabels(buf, p + 1 + |ls[0]|, ls[1..], rest);
    }
  }

  /** At an empty label it stops, as if the name ended there. */
  lemma {:induction false} SkipStopsEarly(buf: seq<byte>, p: nat, ls: seq<Label>, rest: seq<byte>)
    requires ByteLabels(ls) && !NoEmptyLabel(ls) && Carries(buf, p, PrintLabels(ls) + rest)
    ensures SkipName(buf, p).Some? && SkipName(buf, p).value <= p + |PrintLabels(ls)|
    decreases |ls|
  {
    PrintedStep(buf, p, ls, rest);
    if ls[0] == [] {
      SkipStops(buf, p);
    } else {
      SkipHops(buf, p, p + 1 + |ls[0]|);
      SkipStopsEarly(buf, p + 1 + |ls[0]|, ls[1..], rest);
    }
  }

  lemma Reassociate(l: Label, more: seq<byte>, rest: seq<byte>)
    requires |l| < 256
    ensures [|l|] + l + more + rest == [|l|] + (l + (more + rest))
  {
  }

  lemma SkipLandsAfterName(buf: seq<byte>, p: nat, ls: seq<Label>)
    requires ByteLabels(ls) && NoEmptyLabel(ls) && Carries(buf, p, PrintLabels(ls) + [0])
    ensures SkipName(buf, p) == Some(p + |PrintLabels(ls)| + 1)
  {
    SkipLabels(buf, p, ls, [0]);
    CarriesAt(buf, p + |PrintLabels(ls)|, [0], 0);
    SkipStops(buf, p + |PrintLabels(ls)|);
  }

  lemma SkipHops(buf: seq<byte>, p: nat, q: nat)
    requires p < |buf| && buf[p] != 0 && q == p + buf[p] + 1
    ensures SkipName(buf, p) == SkipName(buf, q)
  {
  }

  lemma SkipStops(buf: seq<byte>, p: nat)
    requires p < |buf| && buf[p] == 0
    ensures SkipName(buf, p) == Some(p + 1)
  {
  }

  // ----- the query -----

  const QUESTION_TAIL: seq<byte> := [0, 1, 0, 1]

  function QueryHeader(id: nat): seq<byte>
    requires id < 0x10000
  {
    [id / 256, id % 256, 1, 0, 0, 1, 0, 0, 0, 0, 0, 0]
  }

  function Query(id: nat, h: seq<byte>): seq<byte>
    requires id < 0x10000
  {
    QueryHeader(id) + EncodeLabels(h) + [0] + QUESTION_TAIL
  }

  lemma QueryParts(id: nat, h: seq<byte>)
    requires id < 0x10000
    ensures Carries(Query(id, h), HEADER, EncodeLabels(h) + ([0] + QUESTION_TAIL))
    ensures |Query(id, h)| == HEADER + |EncodeLabels(h)| + 5
  {
    var head, labels := QueryHeader(id), EncodeLabels(h);
    assert Query(id, h) == head + (labels + ([0] + QUESTION_TAIL));
    assert Query(id, h)[HEADER..] == labels + ([0] + QUESTION_TAIL);
  }

  /** In the query as built, the skip loop started behind the header stops at QTYPE, four bytes before
      the end, if and only if no label is empty; otherwise it stops short of it. */
  lemma QuerySkips(id: nat, h: seq<byte>)
    requires id < 0x10000 && ByteLabels(SplitName(h))
    ensures SkipName(Query(id, h), HEADER) == Some(|Query(id, h)| - 4) <==> NoEmptyLabel(SplitName(h))
    ensures SkipName(Query(id, h), HEADER).Some? && SkipName(Query(id, h), HEADER).value <= |Query(id, h)| - 4
  {
    var q, ls := Query(id, h), SplitName(h);
    QueryParts(id, h);
    EncodePrintsLabels(h);
    if NoEmptyLabel(ls) {
      SkipLabels(q, HEADER, ls, [0] + QUESTION_TAIL);
      CarriesAt(q, HEADER + |PrintLabels(ls)|, [0] + QUESTION_TAIL, 0);
      SkipStops(q, HEADER + |PrintLabels(ls)|);
    } else {
      SkipStopsEarly(q, HEADER, ls, [0] + QUESTION_TAIL);
    }
  }

  /** The two bytes at p, in network order. */
  function ShortAt(buf: seq<byte>, p: nat): nat
    requires p + 2 <= |buf|
  {
    Short(buf[p], buf[p + 1])
  }

  lemma HeaderAsks(id: nat, q: seq<byte>)
    requires id < 0x10000 && |q| > 16 && q[..12] == QueryHeader(id)
    ensures ShortAt(q, 0) == id && q[2] == 1 && q[3] == 0
    ensures ShortAt(q, 4) == 1 && ShortAt(q, 6) == 0 && ShortAt(q, 8) == 0 && ShortAt(q, 10) == 0
  {
    assert forall i :: 0 <= i < 12 ==> q[i] == q[..12][i];
  }

  lemma TailAsks(q: seq<byte>, p: nat)
    requires |q| == p + 4 && q[p..] == QUESTION_TAIL
    ensures ShortAt(q, p) == 1 && ShortAt(q, p + 2) == 1
  {
    assert forall i :: 0 <= i < 4 ==> q[p + i] == q[p..][i];
  }

  lemma QueryEnds(head: seq<byte>, labels: seq<byte>, tail: seq<byte>)
    requires |head| == 12 && |tail| == 4
    ensures var q := head + labels + [0] + tail;
            q[..12] == head && |q| == 17 + |labels| && q[12..|q| - 4] == labels + [0] && q[|q| - 4..] == tail
  {
    var q := head + labels + [0] + tail;
    assert q == head + (labels + [0]) + tail;
  }

  /** What the query asks, to an independent reader: one question and nothing else, recursion desired,
      with the given number, for the labels of the host name, type A and class IN. */
  lemma QueryAsksForAddress(id: nat, h: seq<byte>)
    requires id < 0x10000 && ValidLabels(SplitName(h))
    ensures var q := Query(id, h);
            |q| > 16 && ShortAt(q, 0) == id && q[2] == 1 && q[3] == 0 &&
            ShortAt(q, 4) == 1 && ShortAt(q, 6) == 0 && ShortAt(q, 8) == 0 && ShortAt(q, 10) == 0 &&
            ReadName(q, 12) == Some((SplitName(h), |q| - 4)) &&
            ShortAt(q, |q| - 4) == 1 && ShortAt(q, |q| - 2) == 1
  {
    var q := Query(id, h);
    QueryEnds(QueryHeader(id), EncodeLabels(h), QUESTION_TAIL);
    HeaderAsks(id, q);
    TailAsks(q, |q| - 4);
    EncodePrintsLabels(h);
    ReadInvertsPrint(q, 12, SplitName(h));
  }

  // ----- responses -----

  function Be16(v: nat): (bs: seq<byte>)
    requires v < 0x10000
    ensures |bs| == 2
  {
    [v / 256, v % 256]
  }

  /** Two bytes in network order. */
  function Short(hi: byte, lo: byte): nat {
    256 * hi + lo
  }

  lemma ShortOfBe16(v: nat)
    requires v < 0x10000
    ensures Short(Be16(v)[0], Be16(v)[1]) == v
  {
  }

  /** An owner name: a compression pointer, an uncompressed name, or labels that end in a pointer. */
  datatype Owner =
    | Pointer(hi: byte, lo: byte)
    | Plain(labels: seq<Label>)
    | Mixed(labels: seq<Label>, hi: byte, lo: byte)

  datatype Answer = Answer(owner: Owner, kind: nat, class_: nat, ttl: seq<byte>, rdata: seq<byte>)

  /** Labels that the loops can hop over and do not take for a pointer. Those of RFC 1035, of 1 to 63
      bytes, are among them. */
  predicate Hoppable(ls: seq<Label>) {
    ByteLabels(ls) && NoEmptyLabel(ls) && (ls != [] ==> |ls[0]| < 0xC0)
  }

  predicate ValidOwner(o: Owner) {
    (o.Plain? || o.Mixed? ==> Hoppable(o.labels)) && (o.Mixed? ==> o.labels != []) &&
    (o.Pointer? || o.Mixed? ==> o.hi >= 0xC0)
  }

  predicate ValidAnswer(a: Answer) {
    ValidOwner(a.owner) && a.kind < 0x10000 && a.class_ < 0x10000 && |a.ttl| == 4 && |a.rdata| < 0x10000
  }

  function PrintOwner(o: Owner): seq<byte>
    requires ValidOwner(o)
  {
    match o
    case Pointer(hi, lo) => [hi, lo]
    case Plain(labels) => PrintLabels(labels) + [0]
    case Mixed(labels, hi, lo) => PrintLabels(labels) + [hi, lo]
  }

  /** Type, class, time to live and length of the data. */
  function PrintFixed(a: Answer): (bs: seq<byte>)
    requires ValidAnswer(a)
    ensures |bs| == 10
  {
    Be16(a.kind) + (Be16(a.class_) + a.ttl + Be16(|a.rdata|))
  }

  function PrintAnswer(a: Answer): seq<byte>
    requires ValidAnswer(a)
  {
    PrintOwner(a.owner) + (PrintFixed(a) + a.rdata)
  }

  predicate ValidAnswers(xs: seq<Answer>) {
    forall i :: 0 <= i < |xs| ==> ValidAnswer(xs[i])
  }

  function PrintAnswers(xs: seq<Answer>): seq<byte>
    requires ValidAnswers(xs)
  {
    if xs == [] then [] else PrintAnswer(xs[0]) + PrintAnswers(xs[1..])
  }

  predicate IsAddress(a: Answer) {
    a.kind == 1 && |a.rdata| == 4
  }

  /** What the resolver promises: the address in the first record that is one. */
  function FirstAddress(xs: seq<Answer>): Option<u32> {
    if xs == [] then None
    else if IsAddress(xs[0]) then Some(WordIn(xs[0].rdata, 0))
    else FirstAddress(xs[1..])
  }

  // ----- the walk over a response -----

  datatype Outcome = Found(addr: u32) | NoRecord | Overrun

  /** Skips an owner name as the answer loop does: two bytes if it starts like a pointer. */
  function SkipOwner(buf: seq<byte>, p: nat): Option<nat> {
    if p >= |buf| then None
    else if buf[p] >= 0xC0 then Some(p + 2)
    else SkipName(buf, p)
  }

  /** The answer loop, with `left` answers to go. Overrun means that it reads past the buffer. */
  function WalkAnswers(buf: seq<byte>, p: nat, left: nat): Outcome
    decreases left
  {
    if left == 0 then NoRecord
    else
      match SkipOwner(buf, p)
      case None => Overrun
      case Some(q) =>
        if q + 10 > |buf| then Overrun
        else
          var kind, rdlen := Short(buf[q], buf[q + 1]), Short(buf[q + 8], buf[q + 9]);
          if kind == 1 && rdlen == 4 then
            if q + 14 > |buf| then Overrun else Found(WordIn(buf, q + 10))
          else WalkAnswers(buf, q + 10 + rdlen, left - 1)
  }

  function Walk(buf: seq<byte>): Outcome {
    if |buf| < 8 then Overrun
    else
      match SkipName(buf, HEADER)
      case None => Overrun
      case Some(p) => WalkAnswers(buf, p + 4, buf[7])
  }

  predicate Whole(o: Owner) {
    !o.Mixed?
  }

  lemma MixedSkipped(buf: seq<byte>, p: nat, labels: seq<Label>, hi: byte, lo: byte)
    requires Hoppable(labels) && labels != [] && hi >= 0xC0 && Carries(buf, p, PrintLabels(labels) + [hi, lo])
    ensures SkipOwner(buf, p) == None || SkipOwner(buf, p).value > p + |PrintLabels(labels)| + hi
  {
    var q := p + |PrintLabels(labels)|;
    CarriesAt(buf, p, PrintLabels(labels) + [hi, lo], 0);
    SkipLabels(buf, p, labels, [hi, lo]);
    CarriesAt(buf, q, [hi, lo], 0);
    HopIsFar(buf, q, hi);
  }

  lemma HopIsFar(buf: seq<byte>, q: nat, hi: byte)
    requires q < |buf| && buf[q] == hi && hi > 0
    ensures SkipName(buf, q).Some? ==> SkipName(buf, q).value > q + hi
  {
    SkipHops(buf, q, q + hi + 1);
  }

  /** The loop finds the end of an owner name if and only if the name does not end in a pointer after
      some labels: over such a pointer it hops as if it were one more label. */
  lemma OwnerSkippedIffWhole(buf: seq<byte>, p: nat, o: Owner)
    requires ValidOwner(o) && Carries(buf, p, PrintOwner(o))
    ensures SkipOwner(buf, p) == Some(p + |PrintOwner(o)|) <==> Whole(o)
  {
    match o
    case Pointer(hi, lo) => CarriesAt(buf, p, [hi, lo], 0);
    case Plain(labels) =>
      CarriesAt(buf, p, PrintLabels(labels) + [0], 0);
      SkipLandsAfterName(buf, p, labels);
    case Mixed(labels, hi, lo) => MixedSkipped(buf, p, labels, hi, lo);
  }

  lemma FixedParts(buf: seq<byte>, q: nat, a: Answer)
    requires ValidAnswer(a) && Carries(buf, q, PrintFixed(a))
    ensures q + 10 <= |buf| && Short(buf[q], buf[q + 1]) == a.kind && Short(buf[q + 8], buf[q + 9]) == |a.rdata|
  {
    var bs := PrintFixed(a);
    ShortOfBe16(a.kind);
    ShortOfBe16(|a.rdata|);
    CarriesAt(buf, q, bs, 0);
    CarriesAt(buf, q, bs, 1);
    CarriesAt(buf, q, bs, 8);
    CarriesAt(buf, q, bs, 9);
    FixedBytes(Be16(a.kind), Be16(a.class_), a.ttl, Be16(|a.rdata|));
  }

  lemma FixedBytes(kind: seq<byte>, class_: seq<byte>, ttl: seq<byte>, len: seq<byte>)
    requires |kind| == 2 && |class_| == 2 && |ttl| == 4 && |len| == 2
    ensures var bs := kind + (class_ + ttl + len);
            bs[0] == kind[0] && bs[1] == kind[1] && bs[8] == len[0] && bs[9] == len[1]
  {
  }

  lemma AnswerLength(a: Answer)
    requires ValidAnswer(a)
    ensures |PrintAnswer(a)| == |PrintOwner(a.owner)| + 10 + |a.rdata|
  {
  }

  lemma AnswerParts(buf: seq<byte>, p: nat, q: nat, a: Answer)
    requires ValidAnswer(a) && Whole(a.owner) && Carries(buf, p, PrintAnswer(a)) && q == p + |PrintOwner(a.owner)|
    ensures SkipOwner(buf, p) == Some(q) && Carries(buf, q, PrintFixed(a)) && Carries(buf, q + 10, a.rdata)
  {
    CarriesConcat(buf, p, PrintOwner(a.owner), PrintFixed(a) + a.rdata);
    CarriesConcat(buf, q, PrintFixed(a), a.rdata);
    OwnerSkippedIffWhole(buf, p, a.owner);
  }

  lemma WalkOne(buf: seq<byte>, p: nat, q: nat, kind: nat, rdlen: nat, left: nat)
    requires left > 0 && SkipOwner(buf, p) == Some(q) && q + 10 + rdlen <= |buf|
    requires Short(buf[q], buf[q + 1]) == kind && Short(buf[q + 8], buf[q + 9]) == rdlen
    ensures kind == 1 && rdlen == 4 ==> WalkAnswers(buf, p, left) == Found(WordIn(buf, q + 10))
    ensures !(kind == 1 && rdlen == 4) ==> WalkAnswers(buf, p, left) == WalkAnswers(buf, q + 10 + rdlen, left - 1)
  {
  }

  /** What the loop reads of one answer, whose name ends at q and whose data end at next. */
  lemma AnswerFields(buf: seq<byte>, p: nat, q: nat, next: nat, a: Answer)
    requires ValidAnswer(a) && Whole(a.owner) && Carries(buf, p, PrintAnswer(a))
    requires q == p + |PrintOwner(a.owner)| && next == p + |PrintAnswer(a)|
    ensures SkipOwner(buf, p) == Some(q) && q + 10 + |a.rdata| == next <= |buf|
    ensures Short(buf[q], buf[q + 1]) == a.kind && Short(buf[q + 8], buf[q + 9]) == |a.rdata|
    ensures Carries(buf, q + 10, a.rdata)
  {
    AnswerLength(a);
    AnswerParts(buf, p, q, a);
    FixedParts(buf, q, a);
  }

  /** One answer: the loop either returns its address or goes on behind it. */
  lemma AnswerWalked(buf: seq<byte>, p: nat, next: nat, a: Answer, left: nat)
    requires ValidAnswer(a) && Whole(a.owner) && Carries(buf, p, PrintAnswer(a)) && left > 0
    requires next == p + |PrintAnswer(a)|
    ensures IsAddress(a) ==> WalkAnswers(buf, p, left) == Found(WordIn(a.rdata, 0))
    ensures !IsAddress(a) ==> WalkAnswers(buf, p, left) == WalkAnswers(buf, next, left - 1)
  {
    var q := p + |PrintOwner(a.owner)|;
    AnswerFields(buf, p, q, next, a);
    FieldsWalked(buf, p, q, next, a.kind, a.rdata, left);
  }

  lemma FieldsWalked(buf: seq<byte>, p: nat, q: nat, next: nat, kind: nat, rdata: seq<byte>, left: nat)
    requires left > 0 && SkipOwner(buf, p) == Some(q) && q + 10 + |rdata| == next <= |buf|
    requires Short(buf[q], buf[q + 1]) == kind && Short(buf[q + 8], buf[q + 9]) == |rdata|
    requires Carries(buf, q + 10, rdata)
    ensures kind == 1 && |rdata| == 4 ==> WalkAnswers(buf, p, left) == Found(WordIn(rdata, 0))
    ensures !(kind == 1 && |rdata| == 4) ==> WalkAnswers(buf, p, left) == WalkAnswers(buf, next, left - 1)
  {
    WalkOne(buf, p, q, kind, |rdata|, left);
    if |rdata| == 4 {
      WordOfSlice(buf, q + 10, rdata);
    }
  }

  function OutcomeOf(r: Option<u32>): Outcome {
    match r
    case Some(addr) => Found(addr)
    case None => NoRecord
  }

  /** Every answer up to the first address has an owner name that the loop can skip. */
  predicate WholeUpToAddress(xs: seq<Answer>) {
    xs == [] || (Whole(xs[0].owner) && (IsAddress(xs[0]) || WholeUpToAddress(xs[1..])))
  }

  lemma {:induction false} AnswersWalked(buf: seq<byte>, p: nat, xs: seq<Answer>, left: nat)
    requires ValidAnswers(xs) && WholeUpToAddress(xs) && Carries(buf, p, PrintAnswers(xs))
    requires left == |xs|
    ensures WalkAnswers(buf, p, left) == OutcomeOf(FirstAddress(xs))
    decreases |xs|
  {
    if xs != [] {
      var next := p + |PrintAnswer(xs[0])|;
      CarriesConcat(buf, p, PrintAnswer(xs[0]), PrintAnswers(xs[1..]));
      AnswerWalked(buf, p, next, xs[0], left);
      if !IsAddress(xs[0]) {
        AnswersWalked(buf, next, xs[1..], left - 1);
      }
    }
  }

  /** A response with one question: header, question name, type and class, answers. */
  function PrintResponse(header: seq<byte>, question: seq<Label>, tail: seq<byte>, xs: seq<Answer>): seq<byte>
    requires ValidLabels(question) && ValidAnswers(xs)
  {
    header + ((PrintLabels(question) + [0]) + (tail + PrintAnswers(xs)))
  }

  /** The walk inverts the printer: on every response with one question and up to 255 answers whose
      owner names, up to the first A record, are a pointer or uncompressed, it returns the address of
      that record, or reports that there is none; whatever follows the response in the buffer. */
  lemma WalkInvertsPrint(buf: seq<byte>, header: seq<byte>, question: seq<Label>, tail: seq<byte>, xs: seq<Answer>)
    requires ValidLabels(question) && ValidAnswers(xs) && |header| == HEADER && |tail| == 4
    requires |xs| <= 255 && header[7] == |xs| && WholeUpToAddress(xs)
    requires Carries(buf, 0, PrintResponse(header, question, tail, xs))
    ensures Walk(buf) == OutcomeOf(FirstAddress(xs))
  {
    ResponseParts(buf, header, question, tail, xs);
    AnswersFound(buf, HEADER + |PrintLabels(question)| + 1, xs);
  }

  lemma AnswersFound(buf: seq<byte>, p: nat, xs: seq<Answer>)
    requires |buf| >= HEADER && buf[7] == |xs| && SkipName(buf, HEADER) == Some(p)
    requires ValidAnswers(xs) && WholeUpToAddress(xs) && Carries(buf, p + 4, PrintAnswers(xs))
    ensures Walk(buf) == OutcomeOf(FirstAddress(xs))
  {
    WalkBegins(buf, p, |xs|);
    AnswersWalked(buf, p + 4, xs, |xs|);
  }

  /** Where the question ends and the answers begin. */
  lemma ResponseParts(buf: seq<byte>, header: seq<byte>, question: seq<Label>, tail: seq<byte>, xs: seq<Answer>)
    requires ValidLabels(question) && ValidAnswers(xs) && |header| == HEADER && |tail| == 4
    requires Carries(buf, 0, PrintResponse(header, question, tail, xs))
    ensures |buf| >= HEADER && buf[7] == header[7]
    ensures SkipName(buf, HEADER) == Some(HEADER + |PrintLabels(question)| + 1)
    ensures Carries(buf, HEADER + |PrintLabels(question)| + 5, PrintAnswers(xs))
  {
    ResponsePieces(buf, header, PrintLabels(question) + [0], tail, PrintAnswers(xs));
    SkipLandsAfterName(buf, HEADER, question);
  }

  lemma ResponsePieces(buf: seq<byte>, header: seq<byte>, name: seq<byte>, tail: seq<byte>, answers: seq<byte>)
    requires |header| == HEADER && |tail| == 4 && Carries(buf, 0, header + (name + (tail + answers)))
    ensures |buf| >= HEADER && buf[7] == header[7]
    ensures Carries(buf, HEADER, name) && Carries(buf, HEADER + |name| + 4, answers)
  {
    CarriesConcat(buf, 0, header, name + (tail + answers));
    CarriesConcat(buf, HEADER, name, tail + answers);
    CarriesConcat(buf, HEADER + |name|, tail, answers);
    CarriesAt(buf, 0, header, 7);
  }

  lemma WalkBegins(buf: seq<byte>, p: nat, n: nat)
    requires |buf| >= HEADER && buf[7] == n && SkipName(buf, HEADER) == Some(p)
    ensures Walk(buf) == WalkAnswers(buf, p + 4, n)
  {
  }

  // ----- exactly when the walk follows the records -----

  /** Where the type fields of the answers are that a resolver has to look at, the first being at p. */
  function TypeFields(xs: seq<Answer>, p: nat): Positions
    requires ValidAnswers(xs)
  {
    if xs == [] then Done
    else
      Then(p + |PrintOwner(xs[0].owner)|,
           if IsAddress(xs[0]) then Done else TypeFields(xs[1..], p + |PrintAnswer(xs[0])|))
  }

  /** Where the answer loop reads a type field, with `left` answers to go. */
  function TypesRead(buf: seq<byte>, p: nat, left: nat): Positions
    decreases left
  {
    if left == 0 then Done
    else
      match SkipOwner(buf, p)
      case None => Done
      case Some(q) =>
        if q + 10 > |buf| then Then(q, Done)
        else
          var kind, rdlen := Short(buf[q], buf[q + 1]), Short(buf[q + 8], buf[q + 9]);
          Then(q, if kind == 1 && rdlen == 4 then Done else TypesRead(buf, q + 10 + rdlen, left - 1))
  }

  /** The outcome of looking at the records whose type fields are at these positions. */
  function FirstAt(buf: seq<byte>, ps: Positions): Outcome
    decreases ps
  {
    match ps
    case Done => NoRecord
    case Then(q, more) =>
      if q < 0 || q + 10 > |buf| then Overrun
      else if !(Short(buf[q], buf[q + 1]) == 1 && Short(buf[q + 8], buf[q + 9]) == 4) then FirstAt(buf, more)
      else if q + 14 > |buf| then Overrun
      else Found(WordIn(buf, q + 10))
  }

  /** These positions are all there is to the walk: its outcome is that of the records there. */
  lemma {:induction false} WalkIsFirstRead(buf: seq<byte>, p: nat, left: nat)
    requires WalkAnswers(buf, p, left) != Overrun
    ensures WalkAnswers(buf, p, left) == FirstAt(buf, TypesRead(buf, p, left))
    decreases left
  {
    if left > 0 {
      var q := SkipOwner(buf, p).value;
      WalkReads(buf, p, q, left);
      var kind, rdlen := Short(buf[q], buf[q + 1]), Short(buf[q + 8], buf[q + 9]);
      ReadOne(buf, p, q, kind, rdlen, left);
      if kind == 1 && rdlen == 4 {
        WalkFinds(buf, p, q, left);
      } else {
        WalkGoesOn(buf, p, q, kind, rdlen, left);
        WalkIsFirstRead(buf, q + 10 + rdlen, left - 1);
        FirstGoesOn(buf, q, TypesRead(buf, q + 10 + rdlen, left - 1));
      }
    }
  }

  lemma FirstGoesOn(buf: seq<byte>, q: nat, more: Positions)
    requires q + 10 <= |buf| && !(Short(buf[q], buf[q + 1]) == 1 && Short(buf[q + 8], buf[q + 9]) == 4)
    ensures FirstAt(buf, Then(q, more)) == FirstAt(buf, more)
  {
  }

  /** Where the answer loop begins to read an answer, with `left` of them to go. */
  function AnswersBegun(buf: seq<byte>, p: nat, left: nat): Positions
    decreases left
  {
    if left == 0 then Done
    else
      match SkipOwner(buf, p)
      case None => Then(p, Done)
      case Some(q) =>
        if q + 10 > |buf| then Then(p, Done)
        else
          var kind, rdlen := Short(buf[q], buf[q + 1]), Short(buf[q + 8], buf[q + 9]);
          Then(p, if kind == 1 && rdlen == 4 then Done else AnswersBegun(buf, q + 10 + rdlen, left - 1))
  }

  /** What the loop reads of an answer at p does not lie in the buffer: its name, its fixed fields, or
      the address it holds. */
  predicate SticksOut(buf: seq<byte>, p: int) {
    0 <= p &&
    match SkipOwner(buf, p)
    case None => true
    case Some(q) =>
      q + 10 > |buf| || (Short(buf[q], buf[q + 1]) == 1 && Short(buf[q + 8], buf[q + 9]) == 4 && q + 14 > |buf|)
  }

  /** The buffers that the walk reads past: those in which it comes to an answer that sticks out. */
  lemma {:induction false} WalkOverrunsIff(buf: seq<byte>, p: nat, left: nat)
    ensures WalkAnswers(buf, p, left) == Overrun <==>
            exists s :: Among(s, AnswersBegun(buf, p, left)) && SticksOut(buf, s)
    decreases left
  {
    if left > 0 {
      assert Among(p, AnswersBegun(buf, p, left));
      if !SticksOut(buf, p) {
        var q := SkipOwner(buf, p).value;
        WalkOverrunsIff(buf, q + 10 + Short(buf[q + 8], buf[q + 9]), left - 1);
        BegunNext(buf, p, q, left);
      } else {
        SticksOutOverruns(buf, p, left);
      }
    }
  }

  lemma SticksOutOverruns(buf: seq<byte>, p: nat, left: nat)
    requires left > 0 && SticksOut(buf, p)
    ensures WalkAnswers(buf, p, left) == Overrun
  {
  }

  lemma BegunNext(buf: seq<byte>, p: nat, q: nat, left: nat)
    requires left > 0 && !SticksOut(buf, p) && SkipOwner(buf, p) == Some(q) && q + 10 <= |buf|
    ensures var rdlen := Short(buf[q + 8], buf[q + 9]);
            if Short(buf[q], buf[q + 1]) == 1 && rdlen == 4 then
              AnswersBegun(buf, p, left) == Then(p, Done) && WalkAnswers(buf, p, left).Found?
            else
              AnswersBegun(buf, p, left) == Then(p, AnswersBegun(buf, q + 10 + rdlen, left - 1)) &&
              WalkAnswers(buf, p, left) == WalkAnswers(buf, q + 10 + rdlen, left - 1)
  {
  }

  lemma ReadOne(buf: seq<byte>, p: nat, q: nat, kind: nat, rdlen: nat, left: nat)
    requires left > 0 && SkipOwner(buf, p) == Some(q) && q + 10 <= |buf|
    requires Short(buf[q], buf[q + 1]) == kind && Short(buf[q + 8], buf[q + 9]) == rdlen
    ensures kind == 1 && rdlen == 4 ==> TypesRead(buf, p, left) == Then(q, Done)
    ensures !(kind == 1 && rdlen == 4) ==> TypesRead(buf, p, left) == Then(q, TypesRead(buf, q + 10 + rdlen, left - 1))
  {
  }

  /** One answer, whose type field is at q, with an owner name that the loop can skip. */
  lemma WholeAnswerRead(buf: seq<byte>, p: nat, q: nat, next: nat, a: Answer, left: nat)
    requires ValidAnswer(a) && Whole(a.owner) && Carries(buf, p, PrintAnswer(a)) && left > 0
    requires q == p + |PrintOwner(a.owner)| && next == p + |PrintAnswer(a)|
    ensures TypesRead(buf, p, left) == Then(q, if IsAddress(a) then Done else TypesRead(buf, next, left - 1))
  {
    AnswerFields(buf, p, q, next, a);
    ReadOne(buf, p, q, a.kind, |a.rdata|, left);
  }

  lemma MixedAnswerRead(buf: seq<byte>, p: nat, q: nat, a: Answer, left: nat)
    requires ValidAnswer(a) && !Whole(a.owner) && Carries(buf, p, PrintAnswer(a)) && left > 0
    requires q == p + |PrintOwner(a.owner)|
    ensures TypesRead(buf, p, left) == Done || TypesRead(buf, p, left).at != q
  {
    CarriesConcat(buf, p, PrintOwner(a.owner), PrintFixed(a) + a.rdata);
    OwnerSkippedIffWhole(buf, p, a.owner);
  }

  lemma TypeFieldsCons(xs: seq<Answer>, p: nat, q: nat, next: nat)
    requires ValidAnswers(xs) && xs != [] && q == p + |PrintOwner(xs[0].owner)| && next == p + |PrintAnswer(xs[0])|
    ensures TypeFields(xs, p) == Then(q, if IsAddress(xs[0]) then Done else TypeFields(xs[1..], next))
  {
  }

  lemma {:induction false} TypesReadIffWhole(buf: seq<byte>, p: nat, xs: seq<Answer>, left: nat)
    requires ValidAnswers(xs) && Carries(buf, p, PrintAnswers(xs)) && left == |xs|
    ensures TypesRead(buf, p, left) == TypeFields(xs, p) <==> WholeUpToAddress(xs)
    decreases |xs|
  {
    if xs != [] {
      var a, q, next := xs[0], p + |PrintOwner(xs[0].owner)|, p + |PrintAnswer(xs[0])|;
      CarriesConcat(buf, p, PrintAnswer(a), PrintAnswers(xs[1..]));
      TypeFieldsCons(xs, p, q, next);
      if !Whole(a.owner) {
        MixedAnswerRead(buf, p, q, a, left);
      } else {
        WholeAnswerRead(buf, p, q, next, a, left);
        if !IsAddress(a) {
          TypesReadIffWhole(buf, next, xs[1..], left - 1);
        }
      }
    }
  }

  /** The exact extent of the walk, over whole responses: it reads type fields exactly where the records
      have them, up to the first A record, if and only if no owner name up to there ends in a pointer
      behind labels. */
  lemma WalkFollowsIffWhole(buf: seq<byte>, header: seq<byte>, question: seq<Label>, tail: seq<byte>, xs: seq<Answer>)
    requires ValidLabels(question) && ValidAnswers(xs) && |header| == HEADER && |tail| == 4 && header[7] == |xs|
    requires Carries(buf, 0, PrintResponse(header, question, tail, xs))
    ensures var p := HEADER + |PrintLabels(question)| + 5;
            SkipName(buf, HEADER) == Some(p - 4) &&
            (TypesRead(buf, p, buf[7]) == TypeFields(xs, p) <==> WholeUpToAddress(xs))
  {
    ResponseParts(buf, header, question, tail, xs);
    TypesReadIffWhole(buf, HEADER + |PrintLabels(question)| + 5, xs, |xs|);
  }

  // ----- where the walk is wrong -----

  const MIXED: Answer := Answer(Mixed([[97]], 0xC0, 0x0C), 1, 1, [0, 0, 0, 60], [1, 2, 3, 4])
  const ROOT_HEADER: seq<byte> := [0, 0, 0x81, 0x80, 0, 1, 0, 1, 0, 0, 0, 0]

  /** Names that end in a pointer after some labels are legal (section 4.1.4), but the loop hops over
      the pointer as if it were a label. Here is a valid response with an A record that the resolver
      reports as having none. */
  lemma MixedOwnerMissed(buf: seq<byte>)
    requires ValidAnswers([MIXED])
    requires |buf| == BUFFER && Carries(buf, 0, PrintResponse(ROOT_HEADER, [], QUESTION_TAIL, [MIXED]))
    requires forall i :: |PrintResponse(ROOT_HEADER, [], QUESTION_TAIL, [MIXED])| <= i < |buf| ==> buf[i] == 0
    ensures ValidAnswer(MIXED) && FirstAddress([MIXED]) == Some(WordIn([1, 2, 3, 4], 0))
    ensures Walk(buf) == NoRecord
  {
    MixedBytes();
    var bs := PrintResponse(ROOT_HEADER, [], QUESTION_TAIL, [MIXED]);
    CarriesAt(buf, 0, bs, 7);
    CarriesAt(buf, 0, bs, 12);
    CarriesAt(buf, 0, bs, 17);
    CarriesAt(buf, 0, bs, 19);
    PointerHoppedOver(buf, 17);
  }

  lemma PointerHoppedOver(buf: seq<byte>, p: nat)
    requires |buf| == BUFFER && p == 17 && buf[7] == 1 && buf[12] == 0 && buf[p] == 1 && buf[p + 2] == 0xC0
    requires forall i :: 35 <= i < |buf| ==> buf[i] == 0
    ensures Walk(buf) == NoRecord
  {
    var q := p + 196;
    SkipHops(buf, p, p + 2);
    SkipHops(buf, p + 2, q - 1);
    SkipStops(buf, q - 1);
    assert SkipOwner(buf, p) == Some(q);
    assert Short(buf[q], buf[q + 1]) == 0 && Short(buf[q + 8], buf[q + 9]) == 0;
    LastAnswerMissed(buf, p, q);
  }

  lemma LastAnswerMissed(buf: seq<byte>, p: nat, q: nat)
    requires |buf| > HEADER && buf[7] == 1 && buf[12] == 0 && p == 17
    requires SkipOwner(buf, p) == Some(q) && q + 10 <= |buf| && Short(buf[q], buf[q + 1]) == 0 &&
             Short(buf[q + 8], buf[q + 9]) == 0
    ensures Walk(buf) == NoRecord
  {
    var left: nat := buf[7];
    SkipStops(buf, HEADER);
    WalkOne(buf, p, q, 0, 0, left);
    assert WalkAnswers(buf, q + 10, left - 1) == NoRecord;
  }

  lemma MixedBytes()
    ensures ValidAnswers([MIXED])
    ensures var bs := PrintResponse(ROOT_HEADER, [], QUESTION_TAIL, [MIXED]);
            |bs| == 35 && bs[7] == 1 && bs[12] == 0 && bs[17] == 1 && bs[19] == 0xC0
  {
    var name := PrintLabels([[97]]);
    assert name == [1] + [97] + [] by {
      assert [[97]][1..] == [];
    }
    assert PrintOwner(MIXED.owner) == [1, 97, 0xC0, 0x0C];
    assert [MIXED][1..] == [];
    assert PrintAnswers([MIXED]) == PrintAnswer(MIXED) + [];
  }

  // ----- the resolver's buffers -----

  /** Copies src into the buffer from p on. */
  method CopyInto(buf: array<byte>, p: nat, src: seq<byte>)
    requires p + |src| <= buf.Length
    modifies buf
    ensures buf[..p + |src|] == old(buf[..p]) + src
  {
    for k := 0 to |src|
      invariant buf[..p + k] == old(buf[..p]) + src[..k]
    {
      buf[p + k] := src[k];
    }
  }

  /** The query for a host name, wherever it fits in the 512 bytes. */
  method BuildQuery(hostname: seq<byte>, id: nat) returns (buf: array<byte>, qlen: nat)
    requires id < 0x10000 && |Query(id, hostname)| <= BUFFER
    ensures fresh(buf) && buf.Length == BUFFER && qlen <= BUFFER
    ensures buf[..qlen] == Query(id, hostname)
  {
    buf := new byte[BUFFER](_ => 0);
    buf[0], buf[1] := id / 256, id % 256;
    buf[2], buf[5] := 1, 1;
    var p := HEADER;
    assert buf[..p] == QueryHeader(id);
    p := EncodeHost(buf, p, hostname);
    CopyInto(buf, p, [0]);
    p := p + 1;
    CopyInto(buf, p, QUESTION_TAIL);
    qlen := p + 4;
  }

  /** The encoder's loop. */
  method EncodeHost(buf: array<byte>, start: nat, hostname: seq<byte>) returns (p: nat)
    requires start + |EncodeLabels(hostname)| <= buf.Length
    modifies buf
    ensures p == start + |EncodeLabels(hostname)|
    ensures buf[..p] == old(buf[..start]) + EncodeLabels(hostname)
  {
    p := start;
    var h := hostname;
    while h != []
      invariant p + |EncodeLabels(h)| == start + |EncodeLabels(hostname)|
      invariant p <= buf.Length && buf[..p] + EncodeLabels(h) == old(buf[..start]) + EncodeLabels(hostname)
      decreases |h|
    {
      var len := FirstDot(h);
      EncodeFirst(h, len);
      ghost var before, rest := buf[..p], EncodeRest(h, len);
      CopyInto(buf, p, LengthByte(len));
      p := p + 1;
      CopyInto(buf, p, h[..len]);
      p := p + len;
      ConcatThree(before, LengthByte(len), h[..len], rest);
      assert buf[..p] == before + LengthByte(len) + h[..len];
      h := h[len..];
      if h != [] {
        h := h[1..];
      }
    }
    assert buf[..p] + [] == buf[..p];
  }

  /** The parser, on every buffer it does not read past. */
  method ParseResponse(buf: array<byte>) returns (code: int, addr: u32)
    requires Walk(buf[..]) != Overrun
    ensures code == 0 ==> Walk(buf[..]) == Found(addr)
    ensures code != 0 ==> code == -1 && Walk(buf[..]) == NoRecord
  {
    var p := SkipNameLoop(buf, HEADER);
    WalkBegins(buf[..], p, buf[7]);
    code, addr := ParseAnswers(buf, p + 4, buf[7]);
  }

  /** The loop over the answers. */
  method ParseAnswers(buf: array<byte>, start: nat, count: nat) returns (code: int, addr: u32)
    requires WalkAnswers(buf[..], start, count) != Overrun
    ensures code == 0 ==> WalkAnswers(buf[..], start, count) == Found(addr)
    ensures code != 0 ==> code == -1 && WalkAnswers(buf[..], start, count) == NoRecord
  {
    var p := start;
    ghost var walk, left := WalkAnswers(buf[..], start, count), count;
    for i := 0 to count
      invariant left + i == count && WalkAnswers(buf[..], p, left) == walk
    {
      var found;
      found, addr, p := ParseAnswer(buf, p, left);
      if found {
        return 0, addr;
      }
      left := left - 1;
    }
    return -1, 0;
  }

  /** One iteration over the answers, with `left` of them to go. */
  method ParseAnswer(buf: array<byte>, start: nat, ghost left: nat) returns (found: bool, addr: u32, p: nat)
    requires left > 0 && WalkAnswers(buf[..], start, left) != Overrun
    ensures found ==> WalkAnswers(buf[..], start, left) == Found(addr)
    ensures !found ==> WalkAnswers(buf[..], start, left) == WalkAnswers(buf[..], p, left - 1)
  {
    p := start;
    if buf[p] >= 0xC0 {
      p := p + 2;
    } else {
      p := SkipNameLoop(buf, p);
    }
    found, addr, p := ParseRecord(buf, start, p, left);
  }

  lemma WalkReads(buf: seq<byte>, p: nat, q: nat, left: nat)
    requires left > 0 && SkipOwner(buf, p) == Some(q) && WalkAnswers(buf, p, left) != Overrun
    ensures q + 10 <= |buf|
  {
  }

  lemma WalkFinds(buf: seq<byte>, p: nat, q: nat, left: nat)
    requires left > 0 && SkipOwner(buf, p) == Some(q) && WalkAnswers(buf, p, left) != Overrun
    requires q + 10 <= |buf| && Short(buf[q], buf[q + 1]) == 1 && Short(buf[q + 8], buf[q + 9]) == 4
    ensures q + 14 <= |buf| && WalkAnswers(buf, p, left) == Found(WordIn(buf, q + 10))
  {
  }

  lemma WalkGoesOn(buf: seq<byte>, p: nat, q: nat, kind: nat, rdlen: nat, left: nat)
    requires left > 0 && SkipOwner(buf, p) == Some(q) && q + 10 <= |buf|
    requires Short(buf[q], buf[q + 1]) == kind && Short(buf[q + 8], buf[q + 9]) == rdlen && !(kind == 1 && rdlen == 4)
    ensures WalkAnswers(buf, p, left) == WalkAnswers(buf, q + 10 + rdlen, left - 1)
  {
  }

  method ParseRecord(buf: array<byte>, ghost start: nat, q: nat, ghost left: nat)
          returns (found: bool, addr: u32, p: nat)
    requires left > 0 && SkipOwner(buf[..], start) == Some(q) && WalkAnswers(buf[..], start, left) != Overrun
    ensures found ==> WalkAnswers(buf[..], start, left) == Found(addr)
    ensures !found ==> WalkAnswers(buf[..], start, left) == WalkAnswers(buf[..], p, left - 1)
  {
    WalkReads(buf[..], start, q, left);
    p := q;
    var kind := Short(buf[p], buf[p + 1]);
    p := p + 2;
    p := p + 2;
    p := p + 4;
    var rdlen := Short(buf[p], buf[p + 1]);
    p := p + 2;
    found, addr := false, 0;
    if kind == 1 && rdlen == 4 {
      WalkFinds(buf[..], start, q, left);
      found, addr := true, WordIn(buf[..], p);
    } else {
      WalkGoesOn(buf[..], start, q, kind, rdlen, left);
      p := p + rdlen;
    }
  }

  method SkipNameLoop(buf: array<byte>, start: nat) returns (p: nat)
    requires SkipName(buf[..], start).Some?
    ensures SkipName(buf[..], start) == Some(p)
  {
    p := start;
    while buf[p] != 0
      invariant SkipName(buf[..], p) == SkipName(buf[..], start)
      decreases buf.Length - p
    {
      p := p + buf[p] + 1;
    }
    p := p + 1;
  }
}
