/** The DNS query builder of net_dns_resolve and the response walker of udp_rx. */
module Dns {
  import opened DnsSpec
  import opened Wrappers

  const PACKET_SIZE: nat := 512

  lemma {:induction false} LengthIs(s: seq<Byte>, n: nat)
    requires n <= |s| && (forall i :: 0 <= i < n ==> s[i] != DOT) && (n < |s| ==> s[n] == DOT)
    ensures LabelLength(s) == n
  {
    if n > 0 {
      LengthIs(s[1..], n - 1);
    }
  }

  lemma {:induction false} NextLabel(host: seq<Byte>, h: nat, dot: nat)
    requires h < |host| && h <= dot <= |host|
    requires forall i :: h <= i < dot ==> host[i] != DOT
    requires dot < |host| ==> host[dot] == DOT
    ensures var n := (dot - h) % 256;
            && FirstLabel(host[h..]) == [n] + host[h..h + n]
            && AfterLabel(host[h..]) == host[if dot < |host| then dot + 1 else dot..]
            && Labels(host[h..]) == ([n] + host[h..h + n]) + Labels(host[if dot < |host| then dot + 1 else dot..])
  {
    hide LabelLength;
    LengthIs(host[h..], dot - h);
    var n := (dot - h) % 256;
    assert host[h..][..n] == host[h..h + n];
    assert dot < |host| ==> host[h..][dot - h + 1..] == host[dot + 1..];
  }

  /** The packet of net_dns_resolve, built in a buffer of 512 bytes; the source demands that it fits. */
  method BuildQuery(id: nat, host: seq<Byte>) returns (pkt: array<Byte>, off: nat)
    requires id < 0x1_0000 && |Query(id, host)| <= PACKET_SIZE
    ensures fresh(pkt) && off == |Query(id, host)| && off <= pkt.Length && pkt[..off] == Query(id, host)
  {
    pkt := new Byte[PACKET_SIZE];
    PutHeader(pkt, id);
    off := PutLabels(pkt, 12, host);
    assert Query(id, host) == QueryHeader(id) + Labels(host) + [0, 0, 1, 0, 1];
    PutTail(pkt, off);
    off := off + 5;
  }

  method PutHeader(pkt: array<Byte>, id: nat)
    requires pkt.Length >= 12 && id < 0x1_0000
    modifies pkt
    ensures pkt[..12] == QueryHeader(id)
  {
    pkt[0], pkt[1] := id / 256, id % 256;
    pkt[2], pkt[3] := 1, 0;
    pkt[4], pkt[5] := 0, 1;
    pkt[6], pkt[7] := 0, 0;
    pkt[8], pkt[9] := 0, 0;
    pkt[10], pkt[11] := 0, 0;
  }

  /** The root label, QTYPE and QCLASS. */
  method PutTail(pkt: array<Byte>, off: nat)
    requires off + 5 <= pkt.Length
    modifies pkt
    ensures pkt[..off + 5] == old(pkt[..off]) + [0, 0, 1, 0, 1]
  {
    pkt[off] := 0;
    pkt[off + 1], pkt[off + 2] := 0, 1;
    pkt[off + 3], pkt[off + 4] := 0, 1;
    assert pkt[..off] == old(pkt[..off]);
  }

  method FindDot(host: seq<Byte>, h: nat) returns (dot: nat)
    requires h <= |host|
    ensures h <= dot <= |host| && (dot < |host| ==> host[dot] == DOT)
    ensures forall i :: h <= i < dot ==> host[i] != DOT
  {
    dot := h;
    while dot < |host| && host[dot] != DOT
      invariant h <= dot <= |host| && forall i :: h <= i < dot ==> host[i] != DOT
    {
      dot := dot + 1;
    }
  }

  lemma {:induction false} Shift(a: seq<Byte>, b: seq<Byte>, c: seq<Byte>)
    ensures a + (b + c) == (a + b) + c
  {
  }

  /** One pass of the label loop, from position `h` of the name: `text` is what it appends. */
  method PutNext(pkt: array<Byte>, off: nat, host: seq<Byte>, h: nat)
    returns (off': nat, h': nat, ghost text: seq<Byte>)
    requires h < |host| && off + |Labels(host[h..])| <= pkt.Length
    modifies pkt
    ensures h < h' <= |host| && off' == off + |text| <= pkt.Length
    ensures Labels(host[h..]) == text + Labels(host[h'..])
    ensures pkt[..off'] == old(pkt[..off]) + text
  {
    hide Labels;
    var dot := FindDot(host, h);
    NextLabel(host, h, dot);
    var llen := (dot - h) % 256;
    text := [llen] + host[h..h + llen];
    h' := if dot < |host| then dot + 1 else dot;
    assert |Labels(host[h..])| == |text| + |Labels(host[h'..])|;
    PutLabel(pkt, off, llen, host[h..h + llen]);
    off' := off + 1 + llen;
  }

  /** The label loop of the builder. */
  method PutLabels(pkt: array<Byte>, start: nat, host: seq<Byte>) returns (off: nat)
    requires start + |Labels(host)| <= pkt.Length
    modifies pkt
    ensures off == start + |Labels(host)| && pkt[..off] == old(pkt[..start]) + Labels(host)
  {
    hide Labels;
    var h := 0;
    off := start;
    ghost var done: seq<Byte> := [];
    assert host[0..] == host && [] + Labels(host) == Labels(host);
    while h < |host|
      invariant h <= |host| && off == start + |done| <= pkt.Length
      invariant done + Labels(host[h..]) == Labels(host)
      invariant pkt[..off] == old(pkt[..start]) + done
    {
      ghost var text;
      ghost var rest := host[h..];
      assert |Labels(host)| == |done| + |Labels(rest)|;
      off, h, text := PutNext(pkt, off, host, h);
      Shift(done, text, Labels(host[h..]));
      Shift(old(pkt[..start]), done, text);
      done := done + text;
    }
    NoLabels();
    assert host[h..] == [] && done == Labels(host);
  }

  lemma {:induction false} NoLabels()
    ensures Labels([]) == []
  {
  }

  /** One length byte and the bytes of the label. */
  method PutLabel(pkt: array<Byte>, off: nat, llen: Byte, text: seq<Byte>)
    requires |text| == llen && off + 1 + llen <= pkt.Length
    modifies pkt
    ensures pkt[..off + 1 + llen] == old(pkt[..off]) + ([llen] + text)
  {
    pkt[off] := llen;
    for i := 0 to llen
      invariant pkt[..off + 1 + i] == old(pkt[..off]) + ([llen] + text[..i])
    {
      pkt[off + 1 + i] := text[i];
    }
    assert text[..llen] == text;
  }

  /** The loop that skips labels. */
  method SkipLabels(p: seq<Byte>, start: nat) returns (off: nat)
    ensures off == LabelsEnd(p, start)
  {
    off := start;
    while off < |p| && p[off] != 0
      invariant LabelsEnd(p, off) == LabelsEnd(p, start)
      decreases |p| - off
    {
      if p[off] >= 192 {
        off := off + 2;
        return;
      }
      off := off + 1 + p[off];
    }
  }

  /** The question loop of udp_rx. */
  method SkipQuestions(p: seq<Byte>, start: nat, count: nat) returns (off: nat)
    ensures off == QuestionsEnd(p, start, count)
  {
    off := start;
    var q := 0;
    while q < count && off < |p|
      invariant q <= count && QuestionsEnd(p, off, count - q) == QuestionsEnd(p, start, count)
    {
      off := SkipLabels(p, off);
      if off < |p| && p[off] == 0 {
        off := off + 1;
      }
      off := off + 4;
      q := q + 1;
    }
  }

  /** The answer loop of udp_rx. */
  method ReadAnswers(p: seq<Byte>, start: nat, count: nat) returns (r: Option<nat>)
    ensures r == Walk(p, start, count)
  {
    hide U16, Address, LabelsEnd;
    var off: nat := start;
    var a := 0;
    while a < count && off + 10 < |p|
      invariant a <= count && Walk(p, off, count - a) == Walk(p, start, count)
    {
      if p[off] >= 192 {
        off := off + 2;
      } else {
        off := SkipLabels(p, off);
        if off < |p| && p[off] == 0 {
          off := off + 1;
        }
      }
      if off + 10 > |p| {
        break;
      }
      var rtype, rclass, rdlen := U16(p[off], p[off + 1]), U16(p[off + 2], p[off + 3]), U16(p[off + 8], p[off + 9]);
      off := off + 10;
      if rtype == 1 && rclass == 1 && rdlen == 4 && off + 4 <= |p| {
        return Some(Address(p[off], p[off + 1], p[off + 2], p[off + 3]));
      }
      off := off + rdlen;
      a := a + 1;
    }
    r := None;
  }

  /** dns_query_t. */
  datatype Slot = Slot(id: nat, resultIp: nat, resolved: bool, inUse: bool)

  predicate Waits(s: Slot, id: nat) {
    s.inUse && !s.resolved && s.id == id
  }

  /** The first query that waits for this answer, or the number of slots. */
  function FirstWaiting(slots: seq<Slot>, id: nat): (i: nat)
    ensures i <= |slots| && (i < |slots| ==> slots[i].inUse && !slots[i].resolved && slots[i].id == id)
    ensures forall k :: 0 <= k < i ==> !(slots[k].inUse && !slots[k].resolved && slots[k].id == id)
  {
    if slots == [] then 0 else if Waits(slots[0], id) then 0 else 1 + FirstWaiting(slots[1..], id)
  }

  class Resolver {
    const queries: array<Slot>

    constructor ()
      ensures fresh(queries) && queries.Length == 32
      ensures forall i :: 0 <= i < 32 ==> !queries[i].inUse
    {
      queries := new Slot[32](_ => Slot(0, 0, false, false));
    }

    /** udp_rx for a payload from port 53: the first query waiting under this ID is resolved, if the payload
        resolves; nothing else changes. */
    method Receive(p: seq<Byte>)
      modifies queries
      ensures |p| < 12 || p[2] < 128 || p[3] % 16 != 0 ==> queries[..] == old(queries[..])
      ensures forall i :: 0 <= i < queries.Length ==>
                queries[i] == old(queries[i]) ||
                (|p| >= 12 && old(queries[i].inUse && !queries[i].resolved) && old(queries[i].id) == U16(p[0], p[1]) &&
                 queries[i] == old(queries[i]).(resultIp := queries[i].resultIp, resolved := true))
      ensures |p| >= 12 ==>
                var i := FirstWaiting(old(queries[..]), U16(p[0], p[1]));
                queries[..] == if i == queries.Length || Resolve(p) == None then old(queries[..])
                               else old(queries[..])[i := old(queries[i]).(resultIp := Resolve(p).value, resolved := true)]
    {
      if |p| < 12 {
        return;
      }
      var id, ancount := U16(p[0], p[1]), U16(p[6], p[7]);
      if p[2] < 128 || p[3] % 16 != 0 {
        return;
      }
      for i := 0 to queries.Length
        invariant queries[..] == old(queries[..])
        invariant forall k :: 0 <= k < i ==> !Waits(queries[k], id)
      {
        if Waits(queries[i], id) {
          assert FirstWaiting(old(queries[..]), id) == i;
          var off := SkipQuestions(p, 12, U16(p[4], p[5]));
          var r := ReadAnswers(p, off, ancount);
          if r.Some? {
            queries[i] := queries[i].(resultIp := r.value, resolved := true);
          }
          return;
        }
      }
    }
  }
}
