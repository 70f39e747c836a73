/** The receive side of a TCP connection as net.c implements it, on values. */
module TcpSpec {
  import opened CongestionControl

  type Byte = bv8

  const BUF_SIZE: nat := 65536

  datatype State =
    | Closed | Listen | SynSent | SynReceived | Established | FinWait1 | FinWait2
    | CloseWait | Closing | LastAck | TimeWait

  /** The states in which tcp_rx takes payload. */
  predicate Accepting(s: State) {
    s == Established || s == FinWait1 || s == FinWait2
  }

  predicate FinSeen(s: State) {
    s == CloseWait || s == Closing || s == TimeWait || s == LastAck
  }

  function AfterFin(s: State): (r: State) {
    match s
    case Established => CloseWait
    case FinWait1 => Closing
    case FinWait2 => TimeWait
    case _ => s
  }

  /** The fields of tcp_socket_t that the receive path uses; `ring` is what the receive buffer holds. */
  datatype Tcb = Tcb(state: State, irs: nat, rcvNxt: nat, rcvWnd: nat,
                     iss: nat, sndUna: nat, sndNxt: nat, sndWnd: nat,
                     cc: Congestion, ring: seq<Byte>)

  datatype Segment = Segment(seqNo: nat, ackNo: nat, syn: bool, ack: bool, fin: bool, window: nat,
                             payload: seq<Byte>)

  /** A header this side sends; every one carries an acknowledgment. */
  datatype Reply = Reply(syn: bool, fin: bool, seqNo: nat, ackNo: nat, window: nat)

  /** Field widths. */
  predicate Fits(seg: Segment) {
    seg.seqNo < WRAP && seg.ackNo < WRAP && seg.window < 65536 && |seg.payload| < 65536
  }

  predicate Ok(t: Tcb) {
    && t.irs < WRAP && t.rcvNxt < WRAP && t.rcvWnd <= BUF_SIZE && t.iss < WRAP
    && t.sndUna < WRAP && t.sndNxt < WRAP && t.sndWnd < 65536
    && Bounded(t.cc) && |t.ring| <= BUF_SIZE
  }

  function Succ(n: nat): (r: nat) {
    (n + 1) % WRAP
  }

  /** The sequence number of byte `n` of a stream numbered from `base`. */
  function Number(base: nat, n: nat): (r: nat) {
    (base + n) % WRAP
  }

  function ReplyOf(t: Tcb, syn: bool, fin: bool): (r: Reply) {
    Reply(syn, fin, t.sndNxt, t.rcvNxt, if t.rcvWnd > 65535 then 65535 else t.rcvWnd)
  }

  /** tcp_process_ack.  The comparison is on plain 32-bit values, so an acknowledgment behind snd_una is
      ignored and one equal to it counts as a duplicate. */
  function ProcessAck(t: Tcb, ack: nat): (r: Tcb)
    requires Ok(t) && ack < WRAP
  {
    if ack > t.sndUna then t.(sndUna := ack, cc := OnAck(t.cc, ack - t.sndUna))
    else if ack == t.sndUna then t.(cc := OnAck(t.cc, 0))
    else t
  }

  lemma {:induction false} ProcessAckOk(t: Tcb, ack: nat)
    requires Ok(t) && ack < WRAP
    ensures Ok(ProcessAck(t, ack))
    ensures var t' := ProcessAck(t, ack); t'.ring == t.ring && t'.rcvNxt == t.rcvNxt && t'.state == t.state
  {
    if ack > t.sndUna {
      StepKeepsBounded(t.cc, NewAck(ack - t.sndUna));
    } else {
      StepKeepsBounded(t.cc, DupAck);
    }
  }

  /** How much of the payload is taken. */
  function Taken(t: Tcb, seg: Segment): (k: nat)
    requires |t.ring| <= BUF_SIZE
    ensures k <= |seg.payload| && |t.ring| + k <= BUF_SIZE
  {
    if seg.seqNo != t.rcvNxt then 0
    else if |seg.payload| > BUF_SIZE - |t.ring| then BUF_SIZE - |t.ring| else |seg.payload|
  }

  /** In-order payload goes into the ring as far as there is room, and is acknowledged. */
  function AcceptData(t: Tcb, seg: Segment): (r: (Tcb, seq<Reply>))
    requires Ok(t)
  {
    if |seg.payload| > 0 && seg.seqNo == t.rcvNxt then
      var k := Taken(t, seg);
      var t' := t.(ring := t.ring + seg.payload[..k], rcvNxt := (t.rcvNxt + k) % WRAP);
      (t', [ReplyOf(t', false, false)])
    else (t, [])
  }

  /** A FIN is counted whatever its sequence number. */
  function AcceptFin(t: Tcb): (r: (Tcb, seq<Reply>)) {
    var t' := t.(rcvNxt := Succ(t.rcvNxt));
    (t'.(state := AfterFin(t.state)), [ReplyOf(t', false, false)])
  }

  /** tcp_rx for the socket the segment belongs to. */
  function Rx(t: Tcb, seg: Segment, clock: nat): (r: (Tcb, seq<Reply>))
    requires Ok(t) && Fits(seg) && clock < WRAP
  {
    match t.state
    case SynSent =>
      if !seg.syn then (t, [])
      else
        var t1 := t.(irs := seg.seqNo, rcvNxt := Succ(seg.seqNo));
        var t2 := (if seg.ack then ProcessAck(t1.(sndUna := seg.ackNo), seg.ackNo) else t1).(sndWnd := seg.window);
        (t2.(sndNxt := Succ(t2.iss), state := SynReceived), [ReplyOf(t2, true, false)])
    case SynReceived =>
      if !seg.ack then (t, [])
      else (ProcessAck(t.(sndUna := seg.ackNo), seg.ackNo).(state := Established), [])
    case Listen =>
      if !seg.syn then (t, [])
      else
        var t1 := t.(irs := seg.seqNo, rcvNxt := Succ(seg.seqNo),
                     iss := clock, sndUna := clock, sndNxt := Succ(clock));
        (t1.(state := SynReceived), [ReplyOf(t1, true, false)])
    case Established | FinWait1 | FinWait2 =>
      var t1 := if seg.ack then ProcessAck(t, seg.ackNo).(sndWnd := seg.window) else t;
      ProcessAckOk(t, seg.ackNo);
      var (t2, r2) := AcceptData(t1, seg);
      if !seg.fin then (t2, r2)
      else
        var (t3, r3) := AcceptFin(t2);
        (t3, r2 + r3)
    case LastAck => (if seg.ack then t.(state := Closed) else t, [])
    case Closing => (if seg.ack then t.(state := TimeWait) else t, [])
    case _ => (t, [])
  }

  lemma {:induction false} RxOk(t: Tcb, seg: Segment, clock: nat)
    requires Ok(t) && Fits(seg) && clock < WRAP
    ensures Ok(Rx(t, seg, clock).0)
  {
    if seg.ack {
      ProcessAckOk(t, seg.ackNo);
      ProcessAckOk(t.(sndUna := seg.ackNo), seg.ackNo);
      ProcessAckOk(t.(irs := seg.seqNo, rcvNxt := Succ(seg.seqNo), sndUna := seg.ackNo), seg.ackNo);
    }
  }

  /** tcp_recv once it no longer waits. */
  function Recv(t: Tcb, len: nat): (r: (Tcb, seq<Byte>, seq<Reply>))
    requires |t.ring| <= BUF_SIZE
  {
    var k := if len > |t.ring| then |t.ring| else len;
    var t' := t.(ring := t.ring[k..], rcvWnd := BUF_SIZE - (|t.ring| - k));
    (t', t.ring[..k], if k > 0 then [ReplyOf(t', false, false)] else [])
  }

  /** tcp_close up to its wait. */
  function Close(t: Tcb): (r: (Tcb, seq<Reply>)) {
    if t.state == Established then (t.(state := FinWait1), [ReplyOf(t, false, true)])
    else if t.state == CloseWait then (t.(state := LastAck), [ReplyOf(t, false, true)])
    else (t, [])
  }

  // ---- safety over every run

  /** A connection and what it has handed to the application. */
  datatype Conf = Conf(tcb: Tcb, delivered: seq<Byte>)

  /** `pos` says where in the peer's stream a segment was cut; this side never sees it. */
  datatype Event = Deliver(seg: Segment, pos: nat, clock: nat) | Read(len: nat) | Shut

  predicate EventFits(e: Event) {
    e.Deliver? ==> Fits(e.seg) && e.clock < WRAP
  }

  function Step(c: Conf, e: Event): (r: Conf)
    requires Ok(c.tcb) && EventFits(e)
  {
    match e
    case Deliver(seg, _, clock) => c.(tcb := Rx(c.tcb, seg, clock).0)
    case Read(len) => Conf(Recv(c.tcb, len).0, c.delivered + Recv(c.tcb, len).1)
    case Shut => c.(tcb := Close(c.tcb).0)
  }

  lemma {:induction false} StepOk(c: Conf, e: Event)
    requires Ok(c.tcb) && EventFits(e)
    ensures Ok(Step(c, e).tcb)
  {
    if e.Deliver? {
      RxOk(c.tcb, e.seg, e.clock);
    }
  }

  function Run(c: Conf, events: seq<Event>): (r: Conf)
    requires Ok(c.tcb) && forall k :: 0 <= k < |events| ==> EventFits(events[k])
    decreases |events|
  {
    if events == [] then c
    else
      StepOk(c, events[0]);
      Run(Step(c, events[0]), events[1..])
  }

  /** How many bytes of the stream were accepted so far. */
  function Accepted(c: Conf): (r: nat) {
    |c.delivered| + |c.tcb.ring|
  }

  /** The payload, if there is any, is some piece of the peer's stream, numbered from `base`: it may be old,
      duplicated, or ahead of a lost one.  A segment without payload may have any number. */
  predicate FromPeer(e: Event, stream: seq<Byte>, base: nat) {
    e.Deliver? && |e.seg.payload| > 0 ==>
      && e.pos + |e.seg.payload| <= |stream|
      && e.seg.payload == stream[e.pos..e.pos + |e.seg.payload|]
      && e.seg.seqNo == Number(base, e.pos)
  }

  /** No segment outlives a wrap of the sequence numbers. */
  predicate Recent(c: Conf, e: Event) {
    e.Deliver? && |e.seg.payload| > 0 ==> e.pos < Accepted(c) + WRAP && Accepted(c) < e.pos + WRAP
  }

  predicate RecentRun(c: Conf, events: seq<Event>)
    requires Ok(c.tcb) && forall k :: 0 <= k < |events| ==> EventFits(events[k])
    decreases |events|
  {
    events == [] ||
      (Recent(c, events[0]) && (StepOk(c, events[0]); RecentRun(Step(c, events[0]), events[1..])))
  }

  /** What was delivered and what the ring holds are together a prefix of the stream; while payload is taken,
      rcv_nxt is the number of the next byte, and after a FIN the one behind it. */
  predicate PrefixSafe(c: Conf, stream: seq<Byte>, base: nat) {
    && Accepted(c) <= |stream|
    && c.delivered + c.tcb.ring == stream[..Accepted(c)]
    && c.tcb.state != Listen && c.tcb.state != SynSent
    && (c.tcb.state == SynReceived || Accepting(c.tcb.state) ==> c.tcb.rcvNxt == Number(base, Accepted(c)))
    && (FinSeen(c.tcb.state) ==> c.tcb.rcvNxt == Number(base, Accepted(c) + 1))
  }

  /** Two positions have the same number exactly when they are a whole number of wraps apart. */
  lemma {:induction false} SameNumber(base: nat, pos: nat, acc: nat)
    ensures Number(base, pos) == Number(base, acc) <==> (pos - acc) % WRAP == 0
  {
    var p, a := base + pos, base + acc;
    Digits(p);
    Digits(a);
    Digits(p - a);
    if (pos - acc) % WRAP == 0 {
      SmallMultiple(p % WRAP - a % WRAP, p / WRAP - a / WRAP, (p - a) / WRAP);
    } else if p % WRAP == a % WRAP {
      SmallMultiple((p - a) % WRAP, (p - a) / WRAP, p / WRAP - a / WRAP);
    }
  }

  lemma {:induction false} Digits(x: int)
    ensures x == x / WRAP * WRAP + x % WRAP && 0 <= x % WRAP < WRAP
  {
  }

  /** A difference of two multiples that is smaller than the unit is zero. */
  lemma {:induction false} SmallMultiple(d: int, p: int, q: int)
    requires p * WRAP + d == q * WRAP && 0 < d + WRAP < 2 * WRAP
    ensures d == 0
  {
    assert d == (q - p) * WRAP;
  }

  /** Within one wrap of the sequence numbers, equal numbers are equal positions. */
  lemma {:induction false} SameNumberSamePosition(base: nat, pos: nat, acc: nat)
    requires Number(base, pos) == Number(base, acc) && pos < acc + WRAP && acc < pos + WRAP
    ensures pos == acc
  {
    SameNumber(base, pos, acc);
    Digits(pos - acc);
  }

  lemma {:induction false} AddModulo(x: nat, k: nat)
    ensures (x % WRAP + k) % WRAP == Number(x, k)
  {
    assert x == x / WRAP * WRAP + x % WRAP;
    assert x + k == x / WRAP * WRAP + (x % WRAP + k);
    ModuloShift(x % WRAP + k, x / WRAP);
  }

  lemma {:induction false} ModuloShift(x: nat, q: nat)
    ensures (q * WRAP + x) % WRAP == x % WRAP
  {
    if q > 0 {
      ModuloShift(x, q - 1);
      assert q * WRAP + x == ((q - 1) * WRAP + x) + WRAP;
    }
  }

  /** The payload part of tcp_rx keeps safety. */
  lemma {:induction false} AcceptKeepsPrefix(c: Conf, e: Event, stream: seq<Byte>, base: nat)
    requires Ok(c.tcb) && PrefixSafe(c, stream, base) && Accepting(c.tcb.state)
    requires e.Deliver? && EventFits(e) && FromPeer(e, stream, base) && Recent(c, e)
    ensures PrefixSafe(c.(tcb := AcceptData(c.tcb, e.seg).0), stream, base)
  {
    var t := c.tcb;
    var seg := e.seg;
    if |seg.payload| > 0 && seg.seqNo == t.rcvNxt {
      var acc := Accepted(c);
      SameNumberSamePosition(base, e.pos, acc);
      var k := Taken(t, seg);
      assert seg.payload[..k] == stream[acc..acc + k];
      assert c.delivered + (t.ring + seg.payload[..k]) == stream[..acc] + stream[acc..acc + k] == stream[..acc + k];
      AddModulo(base + acc, k);
      assert Number(base + acc, k) == Number(base, acc + k);
    }
  }

  /** A FIN puts rcv_nxt one further. */
  lemma {:induction false} FinKeepsPrefix(c: Conf, stream: seq<Byte>, base: nat)
    requires PrefixSafe(c, stream, base) && Accepting(c.tcb.state)
    ensures PrefixSafe(c.(tcb := AcceptFin(c.tcb).0), stream, base)
  {
    hide Number, Succ;
    NumberNext(base, Accepted(c));
  }

  lemma {:induction false} NumberNext(base: nat, n: nat)
    ensures Succ(Number(base, n)) == Number(base, n + 1)
  {
    AddModulo(base + n, 1);
  }

  /** A segment in a state that takes payload, up to its FIN. */
  lemma {:induction false} BeforeFin(c: Conf, e: Event, stream: seq<Byte>, base: nat) returns (c2: Conf)
    requires Ok(c.tcb) && PrefixSafe(c, stream, base) && Accepting(c.tcb.state)
    requires e.Deliver? && EventFits(e) && FromPeer(e, stream, base) && Recent(c, e)
    ensures PrefixSafe(c2, stream, base) && Accepting(c2.tcb.state) && c2.delivered == c.delivered
    ensures var data := if e.seg.payload == [] || e.seg.seqNo != c.tcb.rcvNxt then [] else [ReplyOf(c2.tcb, false, false)];
            Rx(c.tcb, e.seg, e.clock) ==
              if e.seg.fin then (AcceptFin(c2.tcb).0, data + AcceptFin(c2.tcb).1) else (c2.tcb, data)
  {
    hide Number, FromPeer, PrefixSafe;
    var t1 := if e.seg.ack then ProcessAck(c.tcb, e.seg.ackNo).(sndWnd := e.seg.window) else c.tcb;
    ProcessAckOk(c.tcb, e.seg.ackNo);
    SameSafety(c, t1, stream, base);
    AcceptKeepsPrefix(c.(tcb := t1), e, stream, base);
    c2 := c.(tcb := AcceptData(t1, e.seg).0);
  }

  /** Safety looks at the ring, the state and rcv_nxt only. */
  lemma {:induction false} SameSafety(c: Conf, t: Tcb, stream: seq<Byte>, base: nat)
    requires PrefixSafe(c, stream, base)
    requires t.ring == c.tcb.ring && t.state == c.tcb.state && t.rcvNxt == c.tcb.rcvNxt
    ensures PrefixSafe(c.(tcb := t), stream, base)
  {
  }

  lemma {:induction false} DeliverKeepsPrefix(c: Conf, e: Event, stream: seq<Byte>, base: nat)
    requires Ok(c.tcb) && PrefixSafe(c, stream, base) && Accepting(c.tcb.state)
    requires e.Deliver? && EventFits(e) && FromPeer(e, stream, base) && Recent(c, e)
    ensures PrefixSafe(Step(c, e), stream, base)
  {
    hide Number, FromPeer, PrefixSafe, Recent, Rx, AcceptFin;
    var c2 := BeforeFin(c, e, stream, base);
    FinKeepsPrefix(c2, stream, base);
    assert Step(c, e) == if e.seg.fin then c2.(tcb := AcceptFin(c2.tcb).0) else c2;
  }

  lemma {:induction false} Regroup(d: seq<Byte>, r: seq<Byte>, k: nat)
    requires k <= |r|
    ensures (d + r[..k]) + r[k..] == d + r
  {
    assert r == r[..k] + r[k..];
  }

  lemma {:induction false} ReadKeepsPrefix(c: Conf, len: nat, stream: seq<Byte>, base: nat)
    requires Ok(c.tcb) && PrefixSafe(c, stream, base)
    ensures PrefixSafe(Step(c, Read(len)), stream, base)
  {
    hide Number, Ok;
    Regroup(c.delivered, c.tcb.ring, if len > |c.tcb.ring| then |c.tcb.ring| else len);
  }

  lemma {:induction false} StepKeepsPrefix(c: Conf, e: Event, stream: seq<Byte>, base: nat)
    requires Ok(c.tcb) && PrefixSafe(c, stream, base)
    requires EventFits(e) && FromPeer(e, stream, base) && Recent(c, e)
    ensures PrefixSafe(Step(c, e), stream, base)
  {
    hide Number, FromPeer, Recent;
    if e.Deliver? && Accepting(c.tcb.state) {
      DeliverKeepsPrefix(c, e, stream, base);
    } else if e.Read? {
      ReadKeepsPrefix(c, e.len, stream, base);
    }
  }

  /** For any loss, duplication, reordering and interleaving with reads: the bytes handed to the
      application, followed by those in the ring, are a prefix of what the peer sent. */
  lemma {:induction false} RunKeepsPrefix(c: Conf, events: seq<Event>, stream: seq<Byte>, base: nat)
    requires Ok(c.tcb) && PrefixSafe(c, stream, base)
    requires forall k :: 0 <= k < |events| ==> EventFits(events[k]) && FromPeer(events[k], stream, base)
    requires RecentRun(c, events)
    ensures PrefixSafe(Run(c, events), stream, base)
    decreases |events|
  {
    if events != [] {
      StepOk(c, events[0]);
      StepKeepsPrefix(c, events[0], stream, base);
      RunKeepsPrefix(Step(c, events[0]), events[1..], stream, base);
    }
  }

  /** What is acknowledged is what is held: after a segment every reply names the byte behind those accepted,
      or the one behind a FIN, and payload in order is always answered. */
  lemma {:induction false} AcknowledgesHeld(c: Conf, e: Event, stream: seq<Byte>, base: nat)
    requires Ok(c.tcb) && PrefixSafe(c, stream, base) && Accepting(c.tcb.state)
    requires e.Deliver? && EventFits(e) && FromPeer(e, stream, base) && Recent(c, e)
    ensures var held := Accepted(Step(c, e));
            var data := if e.seg.payload == [] || e.seg.seqNo != c.tcb.rcvNxt then [] else [Number(base, held)];
            Acknowledged(Rx(c.tcb, e.seg, e.clock).1) == data + if e.seg.fin then [Number(base, held + 1)] else []
  {
    hide Number, FromPeer, Recent, Rx;
    var c2 := BeforeFin(c, e, stream, base);
    FinKeepsPrefix(c2, stream, base);
    AcknowledgedConcat(if e.seg.payload == [] || e.seg.seqNo != c.tcb.rcvNxt then [] else [ReplyOf(c2.tcb, false, false)],
                       AcceptFin(c2.tcb).1);
  }

  /** The acknowledgment numbers of some replies. */
  function Acknowledged(replies: seq<Reply>): (r: seq<nat>) {
    if replies == [] then [] else [replies[0].ackNo] + Acknowledged(replies[1..])
  }

  lemma {:induction false} AcknowledgedConcat(a: seq<Reply>, b: seq<Reply>)
    ensures Acknowledged(a + b) == Acknowledged(a) + Acknowledged(b)
  {
    if a == [] {
      assert a + b == b;
    } else {
      AcknowledgedConcat(a[1..], b);
      assert (a + b)[0] == a[0] && (a + b)[1..] == a[1..] + b;
      assert Acknowledged(a + b) == [a[0].ackNo] + Acknowledged(a[1..] + b);
    }
  }

  /** A connection starts safe, with the base one past the number of the peer's SYN. */
  lemma {:induction false} HandshakeStarts(t: Tcb, seg: Segment, clock: nat, stream: seq<Byte>)
    requires Ok(t) && Fits(seg) && clock < WRAP && seg.syn && t.ring == []
    requires t.state == Listen || t.state == SynSent
    ensures PrefixSafe(Conf(Rx(t, seg, clock).0, []), stream, Succ(seg.seqNo))
    ensures Rx(t, seg, clock).0.state == SynReceived && |Rx(t, seg, clock).1| == 1
    ensures var reply := Rx(t, seg, clock).1[0];
            && reply.syn && !reply.fin && reply.ackNo == Succ(seg.seqNo)
            && reply.seqNo == if t.state == Listen then (clock + 1) % WRAP else t.sndNxt
    ensures var t' := Rx(t, seg, clock).0;
            && (t.state == Listen ==>
                  t' == t.(state := SynReceived, irs := seg.seqNo, rcvNxt := t'.rcvNxt,
                           iss := clock, sndUna := clock, sndNxt := (clock + 1) % WRAP))
            && (t.state == SynSent ==>
                  t' == t.(state := SynReceived, irs := seg.seqNo, rcvNxt := t'.rcvNxt, sndWnd := seg.window,
                           sndNxt := (t.iss + 1) % WRAP, sndUna := if seg.ack then seg.ackNo else t.sndUna,
                           cc := if seg.ack then OnAck(t.cc, 0) else t.cc))
  {
    RxOk(t, seg, clock);
  }

  /** Without the bound on a segment's age the claim is false: a byte one wrap ahead is taken for the next
      one. */
  lemma {:induction false} WrapBreaksPrefix(t: Tcb)
    requires Ok(t) && t.state == Established && t.ring == [] && t.rcvNxt == 0
    ensures var stream := seq(WRAP + 1, (i: nat) => if i < WRAP then 0 as Byte else 1 as Byte);
            var e := Deliver(Segment(0, 0, false, false, false, 0, stream[WRAP..WRAP + 1]), WRAP, 0);
            && PrefixSafe(Conf(t, []), stream, 0)
            && EventFits(e) && FromPeer(e, stream, 0)
            && !PrefixSafe(Step(Conf(t, []), e), stream, 0)
  {
    var stream := seq(WRAP + 1, (i: nat) => if i < WRAP then 0 as Byte else 1 as Byte);
    var e := Deliver(Segment(0, 0, false, false, false, 0, stream[WRAP..WRAP + 1]), WRAP, 0);
    assert e.seg.payload == [1 as Byte];
    var c := Step(Conf(t, []), e);
    assert c.tcb.ring == [1 as Byte];
    assert (c.delivered + c.tcb.ring)[0] != stream[..1][0];
  }

  // ---- the peer's FIN

  /** No more payload is taken. */
  predicate Ended(s: State) {
    FinSeen(s) || s == Closed
  }

  /** A FIN ends the input whatever its number: without payload, or with payload out of order, it takes nothing
      and leaves the ring as it is. */
  lemma {:induction false} FinEndsInput(t: Tcb, seg: Segment, clock: nat)
    requires Ok(t) && Fits(seg) && clock < WRAP && Accepting(t.state)
    requires seg.fin && (seg.payload == [] || seg.seqNo != t.rcvNxt)
    ensures var t' := Rx(t, seg, clock).0;
            t'.state == AfterFin(t.state) && Ended(t'.state) && t'.ring == t.ring && t'.rcvNxt == Succ(t.rcvNxt)
  {
    ProcessAckOk(t, seg.ackNo);
  }

  lemma {:induction false} StepAfterEnd(c: Conf, e: Event)
    requires Ok(c.tcb) && EventFits(e) && Ended(c.tcb.state)
    ensures Ended(Step(c, e).tcb.state) && Step(c, e).delivered + Step(c, e).tcb.ring == c.delivered + c.tcb.ring
  {
    hide Ok;
    if e.Read? {
      Regroup(c.delivered, c.tcb.ring, if e.len > |c.tcb.ring| then |c.tcb.ring| else e.len);
    }
  }

  /** Behind a FIN nothing more is accepted, over any run. */
  lemma {:induction false} NothingAfterEnd(c: Conf, events: seq<Event>)
    requires Ok(c.tcb) && Ended(c.tcb.state) && forall k :: 0 <= k < |events| ==> EventFits(events[k])
    ensures Ended(Run(c, events).tcb.state)
    ensures Run(c, events).delivered + Run(c, events).tcb.ring == c.delivered + c.tcb.ring
    decreases |events|
  {
    if events != [] {
      StepOk(c, events[0]);
      StepAfterEnd(c, events[0]);
      NothingAfterEnd(Step(c, events[0]), events[1..]);
    }
  }

  /** How much a segment adds. */
  lemma {:induction false} StepAccepts(c: Conf, e: Event)
    requires Ok(c.tcb) && e.Deliver? && EventFits(e) && Accepting(c.tcb.state)
    ensures Accepted(Step(c, e)) == Accepted(c) + Taken(c.tcb, e.seg)
    ensures e.seg.fin ==> Ended(Step(c, e).tcb.state)
  {
    ProcessAckOk(c.tcb, e.seg.ackNo);
  }

  /** The peer's last segment, which carries the FIN, ends the stream.  The whole stream is ever accepted, in
      this step or any later one, if and only if it was already, or the segment is the next one and fits. */
  lemma {:induction false} FinLosesNothingExactly(c: Conf, e: Event, stream: seq<Byte>, base: nat, events: seq<Event>)
    requires Ok(c.tcb) && PrefixSafe(c, stream, base) && Accepting(c.tcb.state)
    requires e.Deliver? && EventFits(e) && FromPeer(e, stream, base)
    requires e.seg.fin && e.pos + |e.seg.payload| == |stream| && e.seg.seqNo == Number(base, e.pos)
    requires e.pos < Accepted(c) + WRAP && Accepted(c) < e.pos + WRAP
    requires forall k :: 0 <= k < |events| ==> EventFits(events[k])
    ensures Ok(Step(c, e).tcb)
    ensures Accepted(Run(Step(c, e), events)) == |stream| <==>
              Accepted(c) == |stream|
              || (e.seg.seqNo == c.tcb.rcvNxt && |e.seg.payload| <= BUF_SIZE - |c.tcb.ring|)
  {
    hide Rx, Number, Ok, ProcessAck;
    StepOk(c, e);
    StepAccepts(c, e);
    NothingAfterEnd(Step(c, e), events);
    var end := Run(Step(c, e), events);
    assert |end.delivered + end.tcb.ring| == Accepted(end);
    assert |Step(c, e).delivered + Step(c, e).tcb.ring| == Accepted(Step(c, e));
    if e.seg.seqNo == c.tcb.rcvNxt {
      SameNumberSamePosition(base, e.pos, Accepted(c));
    }
  }

  /** For one: a FIN that overtakes the data.  The peer's last segment is an empty one behind a stream of which
      nothing has arrived; after it nothing of the stream is ever accepted. */
  lemma {:induction false} EarlyFinLosesStream(t: Tcb, stream: seq<Byte>, base: nat, events: seq<Event>)
    requires Ok(t) && t.state == Established && t.ring == [] && t.rcvNxt == Number(base, 0)
    requires 0 < |stream| < WRAP && forall k :: 0 <= k < |events| ==> EventFits(events[k])
    ensures var e := Deliver(Segment(Number(base, |stream|), 0, false, false, true, 0, []), |stream|, 0);
            && PrefixSafe(Conf(t, []), stream, base) && EventFits(e) && FromPeer(e, stream, base)
            && Recent(Conf(t, []), e) && Ok(Step(Conf(t, []), e).tcb)
            && Run(Step(Conf(t, []), e), events).delivered == []
  {
    var e := Deliver(Segment(Number(base, |stream|), 0, false, false, true, 0, []), |stream|, 0);
    var c := Conf(t, []);
    StepOk(c, e);
    FinEndsInput(t, e.seg, 0);
    NothingAfterEnd(Step(c, e), events);
  }

  // ---- nothing is lost without loss

  /** The segments of a stream cut into chunks, each read out before the next arrives. */
  function InOrder(chunks: seq<seq<Byte>>, pos: nat, base: nat): (r: seq<Event>)
    decreases |chunks|
  {
    if chunks == [] then []
    else [Deliver(Segment(Number(base, pos), 0, false, false, false, 0, chunks[0]), pos, 0), Read(BUF_SIZE)]
         + InOrder(chunks[1..], pos + |chunks[0]|, base)
  }

  function Concat(chunks: seq<seq<Byte>>): (r: seq<Byte>) {
    if chunks == [] then [] else chunks[0] + Concat(chunks[1..])
  }

  lemma {:induction false} InOrderFits(chunks: seq<seq<Byte>>, pos: nat, base: nat)
    requires forall i :: 0 <= i < |chunks| ==> |chunks[i]| < 65536
    ensures forall k :: 0 <= k < |InOrder(chunks, pos, base)| ==> EventFits(InOrder(chunks, pos, base)[k])
    decreases |chunks|
  {
    if chunks != [] {
      InOrderFits(chunks[1..], pos + |chunks[0]|, base);
    }
  }

  /** When segments arrive in order and are read out, everything is delivered, however the stream was cut. */
  lemma {:induction false} InOrderDeliversAll(c: Conf, chunks: seq<seq<Byte>>, pos: nat, base: nat)
    requires Ok(c.tcb) && c.tcb.state == Established && c.tcb.ring == [] && c.tcb.rcvNxt == Number(base, pos)
    requires forall i :: 0 <= i < |chunks| ==> |chunks[i]| < 65536
    ensures forall k :: 0 <= k < |InOrder(chunks, pos, base)| ==> EventFits(InOrder(chunks, pos, base)[k])
    ensures Run(c, InOrder(chunks, pos, base)).delivered == c.delivered + Concat(chunks)
    ensures Run(c, InOrder(chunks, pos, base)).tcb.state == Established
    decreases |chunks|
  {
    hide Rx, Recv, Step, Number, Ok;
    InOrderFits(chunks, pos, base);
    var events := InOrder(chunks, pos, base);
    if chunks != [] {
      var rest := InOrder(chunks[1..], pos + |chunks[0]|, base);
      assert events[1..][1..] == rest;
      var c2 := ChunkDelivered(c, chunks[0], pos, base);
      InOrderDeliversAll(c2, chunks[1..], pos + |chunks[0]|, base);
      assert Run(c, events) == Run(c2, rest);
    }
  }

  /** One chunk arrives in order and is read. */
  lemma {:induction false} ChunkDelivered(c: Conf, chunk: seq<Byte>, pos: nat, base: nat) returns (c2: Conf)
    requires Ok(c.tcb) && c.tcb.state == Established && c.tcb.ring == [] && c.tcb.rcvNxt == Number(base, pos)
    requires |chunk| < 65536
    ensures var e := Deliver(Segment(Number(base, pos), 0, false, false, false, 0, chunk), pos, 0);
            && EventFits(e) && Ok(Step(c, e).tcb) && c2 == Step(Step(c, e), Read(BUF_SIZE))
    ensures Ok(c2.tcb) && c2.tcb.state == Established && c2.tcb.ring == []
    ensures c2.tcb.rcvNxt == Number(base, pos + |chunk|) && c2.delivered == c.delivered + chunk
  {
    var e := Deliver(Segment(Number(base, pos), 0, false, false, false, 0, chunk), pos, 0);
    StepOk(c, e);
    var c1 := Step(c, e);
    assert c1.tcb.ring == chunk;
    StepOk(c1, Read(BUF_SIZE));
    c2 := Step(c1, Read(BUF_SIZE));
    AddModulo(base + pos, |chunk|);
    assert Number(base + pos, |chunk|) == Number(base, pos + |chunk|);
  }

  // ---- a connection from its handshake on

  predicate Opening(s: State) {
    s == Listen || s == SynSent || s == SynReceived
  }

  lemma {:induction false} StepBeforeAck(c: Conf, e: Event)
    requires Ok(c.tcb) && EventFits(e) && Opening(c.tcb.state) && (e.Deliver? ==> !e.seg.ack)
    ensures Opening(Step(c, e).tcb.state)
    ensures Step(c, e).delivered + Step(c, e).tcb.ring == c.delivered + c.tcb.ring
  {
    hide Ok;
    if e.Read? {
      Regroup(c.delivered, c.tcb.ring, if e.len > |c.tcb.ring| then |c.tcb.ring| else e.len);
    }
  }

  /** Without an acknowledgment from the peer no connection opens and no byte is accepted, over any run. */
  lemma {:induction false} NothingBeforeAck(c: Conf, events: seq<Event>)
    requires Ok(c.tcb) && Opening(c.tcb.state)
    requires forall k :: 0 <= k < |events| ==> EventFits(events[k]) && (events[k].Deliver? ==> !events[k].seg.ack)
    ensures Opening(Run(c, events).tcb.state)
    ensures Run(c, events).delivered + Run(c, events).tcb.ring == c.delivered + c.tcb.ring
    decreases |events|
  {
    if events != [] {
      StepOk(c, events[0]);
      StepBeforeAck(c, events[0]);
      NothingBeforeAck(Step(c, events[0]), events[1..]);
    }
  }

  /** The acknowledgment of the handshake opens the connection.  Whatever else it carries is dropped without a
      reply. */
  lemma {:induction false} AckOpens(c: Conf, ack: Segment, pos: nat, clock: nat)
    requires Ok(c.tcb) && c.tcb.state == SynReceived && Fits(ack) && ack.ack && clock < WRAP
    ensures var t' := Step(c, Deliver(ack, pos, clock)).tcb;
            && Ok(t') && t'.state == Established && t'.ring == c.tcb.ring && t'.rcvNxt == c.tcb.rcvNxt
            && t' == c.tcb.(state := Established, sndUna := ack.ackNo, cc := OnAck(c.tcb.cc, 0))
            && Rx(c.tcb, ack, clock).1 == []
  {
    StepOk(c, Deliver(ack, pos, clock));
    ProcessAckOk(c.tcb.(sndUna := ack.ackNo), ack.ackNo);
  }

  /** From a listening socket, or one that has sent its SYN: the peer's SYN, an acknowledgment, and then all of
      the stream in order, which is delivered however it was cut. */
  lemma {:induction false} HandshakeDelivers(c: Conf, syn: Segment, ack: Segment, clock: nat, chunks: seq<seq<Byte>>)
    requires Ok(c.tcb) && (c.tcb.state == Listen || c.tcb.state == SynSent) && c.tcb.ring == []
    requires Fits(syn) && syn.syn && Fits(ack) && ack.ack && clock < WRAP
    requires forall i :: 0 <= i < |chunks| ==> |chunks[i]| < 65536
    ensures var events := [Deliver(syn, 0, clock), Deliver(ack, 0, 0)] + InOrder(chunks, 0, Succ(syn.seqNo));
            && (forall k :: 0 <= k < |events| ==> EventFits(events[k]))
            && Run(c, events).delivered == c.delivered + Concat(chunks)
            && Run(c, events).tcb.state == Established
  {
    hide Ok, Rx, Step, Fits, Number, InOrder;
    var first, second, rest := Deliver(syn, 0, clock), Deliver(ack, 0, 0), InOrder(chunks, 0, Succ(syn.seqNo));
    var events := [first, second] + rest;
    InOrderFits(chunks, 0, Succ(syn.seqNo));
    assert events[1..][1..] == rest && events[1..][0] == second;
    var c1 := AfterSyn(c, syn, clock);
    var c2 := Step(c1, second);
    AckOpens(c1, ack, 0, 0);
    InOrderDeliversAll(c2, chunks, 0, Succ(syn.seqNo));
    AcknowledgedState(c1, ack);
    assert Run(c, events) == Run(c1, events[1..]) == Run(c2, rest);
  }

  lemma {:induction false} AfterSyn(c: Conf, syn: Segment, clock: nat) returns (c1: Conf)
    requires Ok(c.tcb) && (c.tcb.state == Listen || c.tcb.state == SynSent) && c.tcb.ring == []
    requires Fits(syn) && syn.syn && clock < WRAP
    ensures EventFits(Deliver(syn, 0, clock)) && c1 == Step(c, Deliver(syn, 0, clock)) && Ok(c1.tcb)
    ensures c1.tcb.state == SynReceived && c1.tcb.ring == [] && c1.delivered == c.delivered
    ensures c1.tcb.rcvNxt == Number(Succ(syn.seqNo), 0)
  {
    var e := Deliver(syn, 0, clock);
    StepOk(c, e);
    HandshakeStarts(c.tcb, syn, clock, []);
    c1 := Step(c, e);
  }

  lemma {:induction false} AcknowledgedState(c: Conf, ack: Segment)
    requires Ok(c.tcb) && Fits(ack)
    ensures EventFits(Deliver(ack, 0, 0)) && Step(c, Deliver(ack, 0, 0)).delivered == c.delivered
  {
  }

  /** The acknowledgments of a handshake count as duplicates: one for a socket that listened, two for one that
      sent its SYN and got an acknowledgment with the peer's. */
  lemma {:induction false} HandshakeCountsDuplicates(c: Conf, syn: Segment, ack: Segment, clock: nat)
    requires Ok(c.tcb) && (c.tcb.state == Listen || c.tcb.state == SynSent) && c.tcb.cc.dupAcks == 0
    requires Fits(syn) && syn.syn && Fits(ack) && ack.ack && clock < WRAP
    ensures Ok(Step(c, Deliver(syn, 0, clock)).tcb)
    ensures var c2 := Step(Step(c, Deliver(syn, 0, clock)), Deliver(ack, 0, 0));
            c2.tcb.cc == c.tcb.cc.(dupAcks := if c.tcb.state == SynSent && syn.ack then 2 else 1)
  {
    StepOk(c, Deliver(syn, 0, clock));
  }

  // ---- closing

  /** The peer closes first: its FIN, the call of tcp_close, and an acknowledgment.  The FIN this side sends is
      marked as such. */
  lemma {:induction false} PassiveClose(c: Conf, fin: Segment, last: Segment)
    requires Ok(c.tcb) && c.tcb.state == Established && Fits(fin) && fin.fin && Fits(last)
    ensures var c1 := Step(c, Deliver(fin, 0, 0));
            && Ok(c1.tcb) && c1.tcb.state == CloseWait
            && var c2 := Step(c1, Shut);
               && Ok(c2.tcb) && c2.tcb.state == LastAck
               && |Close(c1.tcb).1| == 1 && Close(c1.tcb).1[0].fin && !Close(c1.tcb).1[0].syn
               && Close(c1.tcb).1[0].ackNo == c1.tcb.rcvNxt && Close(c1.tcb).1[0].seqNo == c1.tcb.sndNxt
               && Step(c2, Deliver(last, 0, 0)).tcb == c2.tcb.(state := if last.ack then Closed else LastAck)
  {
    StepOk(c, Deliver(fin, 0, 0));
    ProcessAckOk(c.tcb, fin.ackNo);
    StepOk(Step(c, Deliver(fin, 0, 0)), Shut);
  }

  /** This side closes first: the call of tcp_close, the peer's FIN, and an acknowledgment. */
  lemma {:induction false} ActiveClose(c: Conf, fin: Segment, last: Segment)
    requires Ok(c.tcb) && c.tcb.state == Established && Fits(fin) && fin.fin && Fits(last)
    ensures var c1 := Step(c, Shut);
            && Ok(c1.tcb) && c1.tcb == c.tcb.(state := FinWait1)
            && |Close(c.tcb).1| == 1 && Close(c.tcb).1[0].fin && !Close(c.tcb).1[0].syn
            && Close(c.tcb).1[0].ackNo == c.tcb.rcvNxt && Close(c.tcb).1[0].seqNo == c.tcb.sndNxt
            && var c2 := Step(c1, Deliver(fin, 0, 0));
               && Ok(c2.tcb) && c2.tcb.state == Closing
               && Step(c2, Deliver(last, 0, 0)).tcb == c2.tcb.(state := if last.ack then TimeWait else Closing)
  {
    StepOk(c, Shut);
    var c1 := Step(c, Shut);
    StepOk(c1, Deliver(fin, 0, 0));
    ProcessAckOk(c1.tcb, fin.ackNo);
  }

  /** The state FIN_WAIT_2 is never reached, over any run. */
  lemma {:induction false} NeverFinWait2(c: Conf, events: seq<Event>)
    requires Ok(c.tcb) && c.tcb.state != FinWait2 && forall k :: 0 <= k < |events| ==> EventFits(events[k])
    ensures Run(c, events).tcb.state != FinWait2
    decreases |events|
  {
    if events != [] {
      StepOk(c, events[0]);
      NotToFinWait2(c, events[0]);
      NeverFinWait2(Step(c, events[0]), events[1..]);
    }
  }

  lemma {:induction false} NotToFinWait2(c: Conf, e: Event)
    requires Ok(c.tcb) && c.tcb.state != FinWait2 && EventFits(e)
    ensures Step(c, e).tcb.state != FinWait2
  {
    if e.Deliver? && e.seg.ack {
      ProcessAckOk(c.tcb, e.seg.ackNo);
      ProcessAckOk(c.tcb.(sndUna := e.seg.ackNo), e.seg.ackNo);
    }
  }

  /** A connection that is closing, closed, or has not been opened ignores everything but the acknowledgment it
      waits for. */
  lemma {:induction false} Ignored(t: Tcb, seg: Segment, clock: nat)
    requires Ok(t) && Fits(seg) && clock < WRAP && !Accepting(t.state) && !Opening(t.state)
    ensures !seg.ack || (t.state != LastAck && t.state != Closing) ==> Rx(t, seg, clock) == (t, [])
    ensures Rx(t, seg, clock).1 == []
  {
  }

  // ---- acknowledgments and windows

  /** Of the payload that is next in order as much is taken as the ring has room for, and of any other none;
      each byte taken and a FIN move the next number by one. */
  lemma {:induction false} PayloadTaken(t: Tcb, seg: Segment, clock: nat)
    requires Ok(t) && Fits(seg) && clock < WRAP
    requires t.state == Established || t.state == FinWait1 || t.state == FinWait2
    ensures var t', room := Rx(t, seg, clock).0, 65536 - |t.ring|;
            var k := if seg.seqNo != t.rcvNxt then 0 else if |seg.payload| <= room then |seg.payload| else room;
            && t'.ring == t.ring + seg.payload[..k]
            && t'.rcvNxt == (t.rcvNxt + k + (if seg.fin then 1 else 0)) % 0x1_0000_0000
            && t'.state == (if !seg.fin then t.state else if t.state == Established then CloseWait
                            else if t.state == FinWait1 then Closing else TimeWait)
  {
    hide Rx, AcceptData, Number;
    var t1 := ThroughAck(t, seg, clock);
    DataTaken(t1, seg);
    var room := 65536 - |t.ring|;
    var k := if seg.seqNo != t.rcvNxt then 0 else if |seg.payload| <= room then |seg.payload| else room;
    NumberNext(t.rcvNxt, k);
    NumberIs(t.rcvNxt, k);
    NumberIs(t.rcvNxt, k + 1);
  }

  lemma {:induction false} NumberIs(base: nat, n: nat)
    ensures Number(base, n) == (base + n) % 0x1_0000_0000
  {
  }

  /** The acknowledgment of a segment touches neither the ring nor the numbers of the receive side. */
  lemma {:induction false} ThroughAck(t: Tcb, seg: Segment, clock: nat) returns (t1: Tcb)
    requires Ok(t) && Fits(seg) && clock < WRAP && Accepting(t.state)
    ensures Ok(t1) && t1.ring == t.ring && t1.rcvNxt == t.rcvNxt && t1.state == t.state
    ensures var t2 := AcceptData(t1, seg).0; Rx(t, seg, clock).0 == if seg.fin then AcceptFin(t2).0 else t2
  {
    hide AcceptData, AcceptFin, ProcessAck;
    ProcessAckOk(t, seg.ackNo);
    t1 := if seg.ack then ProcessAck(t, seg.ackNo).(sndWnd := seg.window) else t;
  }

  lemma {:induction false} DataTaken(t: Tcb, seg: Segment)
    requires Ok(t)
    ensures var t', room := AcceptData(t, seg).0, 65536 - |t.ring|;
            var k := if seg.seqNo != t.rcvNxt then 0 else if |seg.payload| <= room then |seg.payload| else room;
            t'.ring == t.ring + seg.payload[..k] && t'.rcvNxt == Number(t.rcvNxt, k) && t'.state == t.state
  {
  }

  /** The replies in an open connection carry neither SYN nor FIN, this side's next number, and the window last
      computed. */
  lemma {:induction false} PlainReplies(t: Tcb, seg: Segment, clock: nat)
    requires Ok(t) && Fits(seg) && clock < WRAP && Accepting(t.state)
    ensures forall r :: r in Rx(t, seg, clock).1 ==>
              !r.syn && !r.fin && r.seqNo == t.sndNxt && r.window == if t.rcvWnd > 65535 then 65535 else t.rcvWnd
    ensures Rx(t, seg, clock).0.sndNxt == t.sndNxt && Rx(t, seg, clock).0.rcvWnd == t.rcvWnd
    ensures Rx(t, seg, clock).0.sndWnd == if seg.ack then seg.window else t.sndWnd
  {
  }

  /** What an acknowledgment in an open connection does: the oldest unacknowledged number becomes the larger one, as
      plain numbers; bytes newly acknowledged leave the flight and end a series of duplicates; the same number once
      more counts as a duplicate; a smaller one, even one behind a wrap, does nothing. */
  lemma {:induction false} AckEffect(t: Tcb, seg: Segment, clock: nat)
    requires Ok(t) && Fits(seg) && clock < WRAP && Accepting(t.state)
    ensures var t' := Rx(t, seg, clock).0;
            && (!seg.ack || seg.ackNo < t.sndUna ==> t'.sndUna == t.sndUna && t'.cc == t.cc)
            && (seg.ack && seg.ackNo == t.sndUna ==>
                  t'.sndUna == t.sndUna && t'.cc.dupAcks == (t.cc.dupAcks + 1) % WRAP && t'.cc.flight == t.cc.flight)
            && (seg.ack && seg.ackNo > t.sndUna ==>
                  && t'.sndUna == seg.ackNo && t'.cc.dupAcks == 0
                  && t'.cc.flight == (t.cc.flight - (seg.ackNo - t.sndUna)) % WRAP)
  {
    ProcessAckOk(t, seg.ackNo);
  }

  /** The window sent with the acknowledgment of data is the one computed at the last read: it can exceed the room
      that is left. */
  lemma {:induction false} StaleWindow(t: Tcb, seg: Segment, clock: nat)
    requires Ok(t) && Fits(seg) && clock < WRAP && t.state == Established && t.ring == [] && t.rcvWnd == BUF_SIZE
    requires |seg.payload| > 1 && seg.seqNo == t.rcvNxt
    ensures var (t', replies) := Rx(t, seg, clock);
            |replies| > 0 && replies[0].window == 65535 > BUF_SIZE - |t'.ring|
  {
    ProcessAckOk(t, seg.ackNo);
  }

  /** The window tcp_recv advertises is never more than the room left in the ring. */
  lemma {:induction false} AdvertisedFits(t: Tcb, len: nat)
    requires Ok(t)
    ensures var (t', got, replies) := Recv(t, len);
            && (forall r :: r in replies ==> r.window <= BUF_SIZE - |t'.ring|)
            && (forall r :: r in replies ==>
                  !r.syn && !r.fin && r.seqNo == t.sndNxt && r.ackNo == t.rcvNxt
                  && (r.window == BUF_SIZE - |t'.ring| || (t'.ring == [] && r.window == 65535)))
            && t'.rcvWnd == BUF_SIZE - |t'.ring| && got + t'.ring == t.ring
            && |got| == (if len < |t.ring| then len else |t.ring|)
            && (replies == [] <==> got == [])
  {
  }
}
