/** The congestion window of net.c, in 32-bit arithmetic. */
module CongestionControl {
  import opened Arith

  const WRAP: nat := 0x1_0000_0000
  const MSS: nat := 1460
  const MAX_CWND: nat := MSS * MSS + 1
  const MAX_SSTHRESH: nat := MAX_CWND / 2

  /** The fields of tcp_cc_t that ACKs and timeouts change. */
  datatype Congestion = Congestion(cwnd: nat, ssthresh: nat, flight: nat, dupAcks: nat)

  const INITIAL := Congestion(MSS, 65535, 0, 0)

  /** A new ACK: slow start below ssthresh, congestion avoidance from there on. */
  function Grown(c: Congestion): (r: Congestion)
    requires c.cwnd > 0
  {
    if c.cwnd < c.ssthresh then c.(cwnd := (c.cwnd + MSS) % WRAP)
    else
      var cwnd := (c.cwnd + MSS * MSS / c.cwnd) % WRAP;
      c.(cwnd := if cwnd < MSS then MSS else cwnd)
  }

  /** Fast retransmit. */
  function Halved(c: Congestion): (r: Congestion) {
    var ssthresh := if c.cwnd / 2 < 2 * MSS then 2 * MSS else c.cwnd / 2;
    c.(ssthresh := ssthresh, cwnd := (ssthresh + 3 * MSS) % WRAP)
  }

  /** tcp_process_ack on the congestion fields, when the ACK covers `acked` bytes more than the last, or none. */
  function OnAck(c: Congestion, acked: nat): (r: Congestion)
    requires c.cwnd > 0
  {
    if acked > 0 then
      Grown(c.(flight := (c.flight - acked) % WRAP)).(dupAcks := 0)
    else
      var c' := c.(dupAcks := (c.dupAcks + 1) % WRAP);
      if c'.dupAcks == 3 then Halved(c') else c'
  }

  /** The retransmit timer. */
  function OnTimeout(c: Congestion): (r: Congestion) {
    c.(ssthresh := c.cwnd / 2, cwnd := MSS)
  }

  // ---- bounds over every run

  datatype Event = NewAck(acked: nat) | DupAck | Timeout

  predicate Possible(e: Event) {
    e.NewAck? ==> 0 < e.acked < WRAP
  }

  function Step(c: Congestion, e: Event): (r: Congestion)
    requires c.cwnd > 0
  {
    match e
    case NewAck(acked) => OnAck(c, acked)
    case DupAck => OnAck(c, 0)
    case Timeout => OnTimeout(c)
  }

  predicate Bounded(c: Congestion) {
    && MSS <= c.cwnd <= MAX_CWND
    && MSS / 2 <= c.ssthresh <= MAX_SSTHRESH
    && c.flight < WRAP && c.dupAcks < WRAP
  }

  lemma {:induction false} SumBound(n: nat, c: nat)
    requires 1 <= c <= n + 1
    ensures c + n / c <= n + 1
    ensures n / c > 0 <==> c <= n
  {
    var q := n / c;
    assert n == c * q + n % c;
    if q > 0 {
      Product(q - 1, c - 1);
      assert (q - 1) * (c - 1) == c * q - q - c + 1;
    }
  }

  /** The increment of congestion avoidance never carries the window past MSS * MSS + 1. */
  lemma {:induction false} AvoidanceStaysBelow(cwnd: nat)
    requires MSS <= cwnd <= MAX_CWND
    ensures cwnd + MSS * MSS / cwnd <= MAX_CWND
    ensures MSS * MSS / cwnd > 0 <==> cwnd <= MSS * MSS
  {
    SumBound(MSS * MSS, cwnd);
  }

  /** A new ACK in exact arithmetic: nothing wraps and the lower clamp is never taken.  The window grows
      unless it has passed MSS * MSS. */
  lemma {:induction false} NewAckExact(c: Congestion)
    requires Bounded(c)
    ensures Grown(c).cwnd == if c.cwnd < c.ssthresh then c.cwnd + 1460 else c.cwnd + 1460 * 1460 / c.cwnd
    ensures Bounded(Grown(c))
    ensures Grown(c).cwnd > c.cwnd <==> c.cwnd <= MSS * MSS
  {
    hide Grown;
    AvoidanceStaysBelow(c.cwnd);
    GrownIs(c);
  }

  lemma {:induction false} GrownIs(c: Congestion)
    requires Bounded(c)
    ensures Grown(c) == c.(cwnd := c.cwnd + if c.cwnd < c.ssthresh then MSS else MSS * MSS / c.cwnd)
  {
    var q := MSS * MSS / c.cwnd;
    AvoidanceStaysBelow(c.cwnd);
    SmallMod(c.cwnd + MSS);
    SmallMod(c.cwnd + q);
  }

  lemma {:induction false} SmallMod(x: nat)
    ensures x < WRAP ==> x % WRAP == x
  {
  }

  lemma {:induction false} StepKeepsBounded(c: Congestion, e: Event)
    requires Bounded(c) && Possible(e)
    ensures Bounded(Step(c, e))
  {
    if e.NewAck? {
      NewAckExact(c.(flight := (c.flight - e.acked) % WRAP));
    }
  }

  function Run(c: Congestion, events: seq<Event>): (r: Congestion)
    requires Bounded(c) && forall k :: 0 <= k < |events| ==> Possible(events[k])
    decreases |events|
  {
    if events == [] then c
    else
      StepKeepsBounded(c, events[0]);
      Run(Step(c, events[0]), events[1..])
  }

  /** Over every run from a new socket, in any order of events, window and threshold stay in bounds, so the
      division by the window is always defined. */
  lemma {:induction false} RunKeepsBounded(c: Congestion, events: seq<Event>)
    requires Bounded(c) && forall k :: 0 <= k < |events| ==> Possible(events[k])
    ensures Bounded(INITIAL) && Bounded(Run(c, events))
    decreases |events|
  {
    if events != [] {
      StepKeepsBounded(c, events[0]);
      RunKeepsBounded(Step(c, events[0]), events[1..]);
    }
  }

  // ---- what the phases do

  /** `n` new ACKs. */
  function Acks(c: Congestion, n: nat): (r: Congestion)
    requires Bounded(c)
    decreases n
  {
    if n == 0 then c else
      StepKeepsBounded(c, NewAck(1));
      Acks(Step(c, NewAck(1)), n - 1)
  }

  /** In slow start each ACK adds one segment, until the threshold is reached. */
  lemma {:induction false} SlowStart(c: Congestion, n: nat)
    requires Bounded(c) && (n == 0 || c.cwnd + (n - 1) * MSS < c.ssthresh)
    ensures Acks(c, n).cwnd == c.cwnd + n * MSS && Acks(c, n).ssthresh == c.ssthresh
    decreases n
  {
    if n > 0 {
      StepKeepsBounded(c, NewAck(1));
      SlowStart(Step(c, NewAck(1)), n - 1);
    }
  }

  /** After a timeout slow start runs to half the old window: that is reached after exactly
      ceil(ssthresh / MSS) - 1 ACKs. */
  lemma {:induction false} TimeoutThenSlowStart(c: Congestion, n: nat)
    requires Bounded(c) && n == (c.cwnd / 2 + MSS - 1) / MSS - 1
    ensures OnTimeout(c) == Congestion(1460, c.cwnd / 2, c.flight, c.dupAcks)
    ensures Acks(OnTimeout(c), n).cwnd >= c.cwnd / 2 == Acks(OnTimeout(c), n).ssthresh
    ensures n > 0 ==> Acks(OnTimeout(c), n - 1).cwnd < c.cwnd / 2
  {
    StepKeepsBounded(c, Timeout);
    SlowStart(OnTimeout(c), n);
    if n > 0 {
      SlowStart(OnTimeout(c), n - 1);
    }
  }

  /** Only the third duplicate in a row cuts the window, and it does so once. */
  lemma {:induction false} ThirdDuplicate(c: Congestion, n: nat)
    requires Bounded(c) && c.dupAcks == 0 && n < WRAP
    ensures var c' := Run(c, seq(n, (_: nat) => DupAck));
            if n < 3 then c' == c.(dupAcks := n)
            else
              var half := if c.cwnd < 4 * 1460 then 2 * 1460 else c.cwnd / 2;
              c' == Congestion(half + 3 * 1460, half, c.flight, n)
  {
    Duplicates(c, n);
  }

  /** An acknowledgment of new bytes ends a series of duplicates, however long it was, and takes the bytes out of
      the flight; of the duplicates behind it again only the third counts. */
  lemma {:induction false} NewAckEndsDuplicates(c: Congestion, acked: nat, n: nat)
    requires Bounded(c) && 0 < acked < WRAP && n < WRAP
    ensures Bounded(OnAck(c, acked))
    ensures OnAck(c, acked).dupAcks == 0 && OnAck(c, acked).flight == (c.flight - acked) % WRAP
    ensures var c' := Run(OnAck(c, acked), seq(n, (_: nat) => DupAck));
            n < 3 <==> c'.cwnd == OnAck(c, acked).cwnd && c'.ssthresh == OnAck(c, acked).ssthresh && c'.dupAcks < 3
  {
    StepKeepsBounded(c, NewAck(acked));
    ThirdDuplicate(OnAck(c, acked), n);
  }

  lemma {:induction false} Duplicates(c: Congestion, n: nat)
    requires Bounded(c) && c.dupAcks + n < WRAP
    ensures var c' := Run(c, seq(n, (_: nat) => DupAck));
            if c.dupAcks < 3 <= c.dupAcks + n then c' == Halved(c).(dupAcks := c.dupAcks + n)
            else c' == c.(dupAcks := c.dupAcks + n)
    decreases n
  {
    hide Run, Halved;
    if n == 0 {
      NoEvents(c);
    } else {
      StepKeepsBounded(c, DupAck);
      HalvedIgnores(c);
      Duplicates(Step(c, DupAck), n - 1);
      RunDuplicate(c, n);
    }
  }

  lemma {:induction false} NoEvents(c: Congestion)
    requires Bounded(c)
    ensures Run(c, seq(0, (_: nat) => DupAck)) == c
  {
  }

  lemma {:induction false} RunDuplicate(c: Congestion, n: nat)
    requires Bounded(c) && n > 0
    ensures Bounded(Step(c, DupAck))
    ensures Run(c, seq(n, (_: nat) => DupAck)) == Run(Step(c, DupAck), seq(n - 1, (_: nat) => DupAck))
  {
    hide Bounded;
    StepKeepsBounded(c, DupAck);
    assert seq(n, (_: nat) => DupAck)[1..] == seq(n - 1, (_: nat) => DupAck);
  }

  lemma {:induction false} HalvedIgnores(c: Congestion)
    ensures forall d :: Halved(c.(dupAcks := d)) == Halved(c).(dupAcks := d)
  {
  }
}
