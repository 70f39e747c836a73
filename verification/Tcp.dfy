/** The sockets of net.c: tcp_rx, tcp_recv, tcp_close and the retransmit timer over a ring buffer. */
module Tcp {
  import opened Arith
  import opened CongestionControl
  import opened TcpSpec

  /** The slot `i` places behind slot `tail`. */
  function Slot(tail: nat, i: nat): (r: nat) {
    (tail + i) % BUF_SIZE
  }

  lemma {:induction false} SlotFacts(tail: nat, i: nat)
    ensures Slot(tail, i) < BUF_SIZE && (tail < BUF_SIZE ==> Slot(tail, 0) == tail)
    ensures Slot(Slot(tail, 1), i) == Slot(tail, i + 1)
    ensures Slot(Slot(tail, i), 1) == Slot(tail, i + 1)
  {
    ModAdd(tail + 1, i, BUF_SIZE);
    ModAdd(tail + i, 1, BUF_SIZE);
  }

  /** Fewer than BUF_SIZE apart, two offsets land on different slots. */
  lemma {:induction false} Distinct(tail: nat, i: nat, n: nat)
    requires i < n < BUF_SIZE
    ensures Slot(tail, i) != Slot(tail, n)
  {
  }

  /** The `n` bytes of the ring from slot `tail` on. */
  ghost function RingFrom(buf: seq<Byte>, tail: nat, n: nat): (r: seq<Byte>)
    requires |buf| == BUF_SIZE
    ensures |r| == n
  {
    seq(n, (i: nat) => buf[Slot(tail, i)])
  }

  /** Writing the byte behind the last one appends it. */
  lemma {:induction false} RingPush(buf: seq<Byte>, tail: nat, n: nat, b: Byte)
    requires |buf| == BUF_SIZE && n < BUF_SIZE
    ensures Slot(tail, n) < BUF_SIZE
    ensures RingFrom(buf[Slot(tail, n) := b], tail, n + 1) == RingFrom(buf, tail, n) + [b]
  {
    SlotFacts(tail, n);
    var before := RingFrom(buf, tail, n);
    var r := RingFrom(buf[Slot(tail, n) := b], tail, n + 1);
    forall i: nat | i < n ensures r[i] == before[i] {
      SlotFacts(tail, i);
      Distinct(tail, i, n);
    }
  }

  /** Moving the tail on drops the first byte. */
  lemma {:induction false} RingPop(buf: seq<Byte>, tail: nat, n: nat)
    requires |buf| == BUF_SIZE && 0 < n && tail < BUF_SIZE
    ensures RingFrom(buf, tail, n) == [buf[tail]] + RingFrom(buf, Slot(tail, 1), n - 1)
  {
    var r := [buf[tail]] + RingFrom(buf, Slot(tail, 1), n - 1);
    forall i: nat | i < n ensures RingFrom(buf, tail, n)[i] == r[i] {
      SlotFacts(tail, i);
      if i > 0 { SlotFacts(tail, i - 1); }
    }
  }

  class Socket {
    var state: State
    var irs: nat
    var rcvNxt: nat
    var rcvWnd: nat
    var iss: nat
    var sndUna: nat
    var sndNxt: nat
    var sndWnd: nat
    var cc: Congestion
    const rxBuf: array<Byte>
    var rxHead: nat
    var rxTail: nat
    var rxCount: nat

    ghost predicate RingOk()
      reads this
    {
      && rxBuf.Length == BUF_SIZE && rxCount <= BUF_SIZE && rxTail < BUF_SIZE
      && rxHead == Slot(rxTail, rxCount)
    }

    ghost predicate Valid()
      reads this, rxBuf
    {
      RingOk() && Ok(Abs())
    }

    /** The connection this socket represents. */
    ghost function Abs(): (r: Tcb)
      reads this, rxBuf
      requires RingOk()
    {
      Tcb(state, irs, rcvNxt, rcvWnd, iss, sndUna, sndNxt, sndWnd, cc, RingFrom(rxBuf[..], rxTail, rxCount))
    }

    /** tcp_socket. */
    constructor ()
      ensures Valid() && fresh(rxBuf)
      ensures Abs() == Tcb(Closed, 0, 0, BUF_SIZE, 0, 0, 0, 0, INITIAL, [])
    {
      state, irs, rcvNxt, rcvWnd := Closed, 0, 0, BUF_SIZE;
      iss, sndUna, sndNxt, sndWnd := 0, 0, 0, 0;
      cc := INITIAL;
      rxBuf := new Byte[BUF_SIZE];
      rxHead, rxTail, rxCount := 0, 0, 0;
    }

    /** tcp_send_segment with no payload. */
    method Send(syn: bool, fin: bool) returns (r: Reply)
      requires RingOk()
      ensures r == ReplyOf(Abs(), syn, fin)
    {
      var window := if rcvWnd > 65535 then 65535 else rcvWnd;
      r := Reply(syn, fin, sndNxt, rcvNxt, window);
    }

    /** tcp_process_ack. */
    method HandleAck(ack: nat)
      requires Valid() && ack < WRAP
      modifies this`sndUna, this`cc
      ensures Valid() && Abs() == ProcessAck(old(Abs()), ack)
    {
      ProcessAckOk(Abs(), ack);
      if ack > sndUna {
        var acked := ack - sndUna;
        sndUna := ack;
        cc := cc.(flight := (cc.flight - acked) % WRAP);
        if cc.cwnd < cc.ssthresh {
          cc := cc.(cwnd := (cc.cwnd + MSS) % WRAP);
        } else {
          cc := cc.(cwnd := (cc.cwnd + MSS * MSS / cc.cwnd) % WRAP);
          if cc.cwnd < MSS {
            cc := cc.(cwnd := MSS);
          }
        }
        cc := cc.(dupAcks := 0);
      } else if ack == sndUna {
        cc := cc.(dupAcks := (cc.dupAcks + 1) % WRAP);
        if cc.dupAcks == 3 {
          cc := cc.(ssthresh := cc.cwnd / 2);
          if cc.ssthresh < 2 * MSS {
            cc := cc.(ssthresh := 2 * MSS);
          }
          cc := cc.(cwnd := (cc.ssthresh + 3 * MSS) % WRAP);
        }
      }
    }

    /** The retransmit branch of tcp_timer_callback. */
    method RetransmitTimeout()
      requires Valid()
      modifies this`cc
      ensures Valid() && Abs() == old(Abs()).(cc := OnTimeout(old(cc)))
    {
      StepKeepsBounded(cc, Timeout);
      cc := cc.(ssthresh := cc.cwnd / 2);
      cc := cc.(cwnd := MSS);
    }

    /** The byte loop of tcp_rx: the first `k` bytes of the payload go into the ring. */
    method StoreBytes(payload: seq<Byte>, k: nat)
      requires RingOk() && k <= |payload| && rxCount + k <= BUF_SIZE
      modifies this`rxHead, this`rxCount, rxBuf
      ensures RingOk() && rxCount == old(rxCount) + k
      ensures RingFrom(rxBuf[..], rxTail, rxCount) == old(RingFrom(rxBuf[..], rxTail, rxCount)) + payload[..k]
    {
      hide Slot, RingFrom;
      for i := 0 to k
        invariant rxCount == old(rxCount) && rxHead == Slot(rxTail, rxCount + i)
        invariant RingFrom(rxBuf[..], rxTail, rxCount + i) == old(RingFrom(rxBuf[..], rxTail, rxCount)) + payload[..i]
      {
        RingPush(rxBuf[..], rxTail, rxCount + i, payload[i]);
        SlotFacts(rxTail, rxCount + i);
        ghost var was := rxBuf[..];
        rxBuf[rxHead] := payload[i];
        assert rxBuf[..] == was[rxHead := payload[i]];
        rxHead := Slot(rxHead, 1);
      }
      rxCount := rxCount + k;
    }

    /** The payload part of tcp_rx. */
    method HandleData(seg: Segment) returns (replies: seq<Reply>)
      requires Valid() && Fits(seg)
      modifies this`rxHead, this`rxCount, this`rcvNxt, rxBuf
      ensures Valid() && (Abs(), replies) == AcceptData(old(Abs()), seg)
    {
      replies := [];
      if |seg.payload| > 0 && seg.seqNo == rcvNxt {
        var space := BUF_SIZE - rxCount;
        var len := if |seg.payload| > space then space else |seg.payload|;
        StoreBytes(seg.payload, len);
        rcvNxt := (rcvNxt + len) % WRAP;
        var r := Send(false, false);
        replies := [r];
      }
    }

    /** tcp_rx once the socket is found.  `clock` is the time stamp used as initial sequence number. */
    method Receive(seg: Segment, clock: nat) returns (replies: seq<Reply>)
      requires Valid() && Fits(seg) && clock < WRAP
      modifies this, rxBuf
      ensures Valid() && (Abs(), replies) == Rx(old(Abs()), seg, clock)
    {
      hide Slot, RingFrom, ProcessAck, Bounded, AcceptData, AcceptFin, ReplyOf;
      RxOk(Abs(), seg, clock);
      replies := [];
      match state
      case SynSent =>
        replies := ReceiveSynSent(seg);
      case SynReceived =>
        if seg.ack {
          sndUna := seg.ackNo;
          HandleAck(seg.ackNo);
          state := Established;
        }
      case Listen =>
        if seg.syn {
          irs := seg.seqNo;
          rcvNxt := Succ(seg.seqNo);
          iss := clock;
          sndUna := iss;
          sndNxt := Succ(iss);
          var r := Send(true, false);
          replies := [r];
          state := SynReceived;
        }
      case Established | FinWait1 | FinWait2 =>
        replies := ReceiveOpen(seg);
      case LastAck =>
        if seg.ack {
          state := Closed;
        }
      case Closing =>
        if seg.ack {
          state := TimeWait;
        }
      case _ =>
    }

    /** The SYN_SENT state of tcp_rx. */
    method ReceiveSynSent(seg: Segment) returns (replies: seq<Reply>)
      requires Valid() && Fits(seg) && state == SynSent
      modifies this
      ensures Valid() && (Abs(), replies) == Rx(old(Abs()), seg, 0)
    {
      hide Slot, RingFrom, ProcessAck, Bounded, AcceptData, AcceptFin, ReplyOf;
      RxOk(Abs(), seg, 0);
      replies := [];
      if seg.syn {
        irs := seg.seqNo;
        rcvNxt := Succ(seg.seqNo);
        if seg.ack {
          sndUna := seg.ackNo;
          HandleAck(seg.ackNo);
        }
        sndWnd := seg.window;
        var r := Send(true, false);
        replies := [r];
        sndNxt := Succ(iss);
        state := SynReceived;
      }
    }

    /** The states of tcp_rx that take payload. */
    method ReceiveOpen(seg: Segment) returns (replies: seq<Reply>)
      requires Valid() && Fits(seg) && Accepting(state)
      modifies this, rxBuf
      ensures Valid() && (Abs(), replies) == Rx(old(Abs()), seg, 0)
    {
      hide Slot, RingFrom, ProcessAck, Bounded, AcceptData, ReplyOf;
      RxOk(Abs(), seg, 0);
      if seg.ack {
        HandleAck(seg.ackNo);
        sndWnd := seg.window;
      }
      replies := HandleData(seg);
      if seg.fin {
        rcvNxt := Succ(rcvNxt);
        var r := Send(false, false);
        replies := replies + [r];
        if state == Established {
          state := CloseWait;
        } else if state == FinWait1 {
          state := Closing;
        } else if state == FinWait2 {
          state := TimeWait;
        }
      }
    }

    /** The byte loop of tcp_recv. */
    method TakeBytes(k: nat) returns (got: seq<Byte>)
      requires RingOk() && k <= rxCount
      modifies this`rxTail, this`rxCount
      ensures RingOk() && rxCount == old(rxCount) - k && |got| == k
      ensures got + RingFrom(rxBuf[..], rxTail, rxCount) == old(RingFrom(rxBuf[..], rxTail, rxCount))
    {
      hide Slot, RingFrom;
      got := [];
      for i := 0 to k
        invariant rxCount == old(rxCount) && |got| == i
        invariant rxTail < BUF_SIZE && rxHead == Slot(rxTail, rxCount - i)
        invariant got + RingFrom(rxBuf[..], rxTail, rxCount - i) == old(RingFrom(rxBuf[..], rxTail, rxCount))
      {
        RingPop(rxBuf[..], rxTail, rxCount - i);
        SlotFacts(rxTail, 1);
        SlotFacts(rxTail, rxCount - i - 1);
        got := got + [rxBuf[rxTail]];
        rxTail := Slot(rxTail, 1);
      }
      rxCount := rxCount - k;
    }

    /** tcp_recv after its wait: there is data, or the connection is no longer ESTABLISHED. */
    method Read(len: nat) returns (got: seq<Byte>, replies: seq<Reply>)
      requires Valid() && (rxCount > 0 || state != Established)
      modifies this`rxTail, this`rxCount, this`rcvWnd
      ensures Valid() && (Abs(), got, replies) == Recv(old(Abs()), len)
    {
      hide Slot, RingFrom, Bounded;
      ghost var ring := Abs().ring;
      var toRead := if len > rxCount then rxCount else len;
      got := TakeBytes(toRead);
      assert got == ring[..toRead] && RingFrom(rxBuf[..], rxTail, rxCount) == ring[toRead..];
      rcvWnd := BUF_SIZE - rxCount;
      replies := [];
      if toRead > 0 {
        var r := Send(false, false);
        replies := [r];
      }
    }

    /** tcp_close up to its wait. */
    method Shutdown() returns (replies: seq<Reply>)
      requires Valid()
      modifies this`state
      ensures Valid() && (Abs(), replies) == Close(old(Abs()))
    {
      replies := [];
      if state == Established {
        state := FinWait1;
        var r := Send(false, true);
        replies := [r];
      } else if state == CloseWait {
        state := LastAck;
        var r := Send(false, true);
        replies := [r];
      }
    }
  }
}
