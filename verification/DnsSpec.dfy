/** DNS messages as net.c writes and reads them (sections 3.1 and 4.1 of RFC 1035). */
module DnsSpec {
  import opened Wrappers

  type Byte = b: nat | b < 256

  const DOT: nat := 46

  function U16(hi: nat, lo: nat): (r: nat)
    ensures lo < 256 ==> r / 256 == hi && r % 256 == lo
  {
    hi * 256 + lo
  }

  // ---- the question, as it is built

  /** The index of the first dot, or the length. */
  function LabelLength(host: seq<Byte>): (n: nat)
    ensures n <= |host| && (n < |host| ==> host[n] == DOT)
    ensures forall i :: 0 <= i < n ==> host[i] != DOT
  {
    if host == [] || host[0] == DOT then 0 else 1 + LabelLength(host[1..])
  }

  /** What follows the first label and its dot. */
  function AfterLabel(host: seq<Byte>): (rest: seq<Byte>)
    requires host != []
    ensures |rest| < |host|
  {
    var n := LabelLength(host);
    if n < |host| then host[n + 1..] else []
  }

  /** The first label behind its length, which is cut to a byte, and the label with it. */
  function FirstLabel(host: seq<Byte>): (s: seq<Byte>)
    requires host != []
    ensures |s| == 1 + LabelLength(host) % 256 && s[0] == LabelLength(host) % 256
  {
    var n := LabelLength(host) % 256;
    [n] + host[..n]
  }

  /** The labels of a host name. */
  function Labels(host: seq<Byte>): (s: seq<Byte>)
    decreases |host|
  {
    if host == [] then [] else FirstLabel(host) + Labels(AfterLabel(host))
  }

  /** The labels and the empty root label. */
  function HostName(host: seq<Byte>): (r: seq<Byte>) {
    Labels(host) + [0]
  }

  /** The name, QTYPE A and QCLASS IN. */
  function Question(host: seq<Byte>): (r: seq<Byte>) {
    HostName(host) + [0, 1, 0, 1]
  }

  /** The header of a query: recursion desired, one question. */
  function QueryHeader(id: nat): (s: seq<Byte>)
    requires id < 0x1_0000
    ensures |s| == 12
  {
    [id / 256, id % 256, 1, 0, 0, 1, 0, 0, 0, 0, 0, 0]
  }

  function Query(id: nat, host: seq<Byte>): (r: seq<Byte>)
    requires id < 0x1_0000
  {
    QueryHeader(id) + Question(host)
  }

  /** Every label has a length that the reader takes for one: 1 to 191, which covers the legal 1 to 63. */
  predicate Readable(host: seq<Byte>)
    decreases |host|
  {
    host == [] || (0 < LabelLength(host) % 256 < 192 && Readable(AfterLabel(host)))
  }

  // ---- names, as they are skipped

  /** The label loop: it stops at a zero byte, behind a pointer, or past the end. */
  function LabelsEnd(p: seq<Byte>, off: nat): (e: nat)
    ensures e >= off
    decreases |p| - off
  {
    if off >= |p| || p[off] == 0 then off
    else if p[off] >= 192 then off + 2
    else LabelsEnd(p, off + 1 + p[off])
  }

  /** The loop and the test for the closing zero. */
  function NameEnd(p: seq<Byte>, off: nat): (e: nat)
    ensures e >= off
  {
    var e := LabelsEnd(p, off);
    if e < |p| && p[e] == 0 then e + 1 else e
  }

  /** An answer's name, where a leading pointer is the whole name. */
  function AnswerNameEnd(p: seq<Byte>, off: nat): (e: nat)
    requires off < |p|
    ensures e >= off
  {
    if p[off] >= 192 then off + 2 else NameEnd(p, off)
  }

  function QuestionsEnd(p: seq<Byte>, off: nat, count: nat): (r: nat)
    decreases count
  {
    if count == 0 || off >= |p| then off else QuestionsEnd(p, NameEnd(p, off) + 4, count - 1)
  }

  // ---- pieces of a packet

  /** The bytes `s` stand in `p` at `off`. */
  predicate Has(p: seq<Byte>, off: nat, s: seq<Byte>) {
    off + |s| <= |p| && p[off..off + |s|] == s
  }

  lemma {:induction false} HasConcat(p: seq<Byte>, off: nat, a: seq<Byte>, b: seq<Byte>)
    ensures Has(p, off, a + b) <==> Has(p, off, a) && Has(p, off + |a|, b)
  {
    if off + |a| + |b| <= |p| {
      var whole := p[off..off + |a + b|];
      assert whole == p[off..off + |a|] + p[off + |a|..off + |a| + |b|];
      assert whole[..|a|] == p[off..off + |a|] && whole[|a|..] == p[off + |a|..off + |a| + |b|];
      assert (a + b)[..|a|] == a && (a + b)[|a|..] == b;
    }
  }

  lemma {:induction false} HasByte(p: seq<Byte>, off: nat, s: seq<Byte>, i: nat)
    requires Has(p, off, s) && i < |s|
    ensures off + i < |p| && p[off + i] == s[i]
  {
    assert p[off..off + |s|][i] == s[i];
  }

  // ---- the skipper against the builder

  lemma {:induction false} SplitHostName(host: seq<Byte>)
    ensures host == [] ==> HostName(host) == [0]
    ensures host != [] ==> HostName(host) == FirstLabel(host) + HostName(AfterLabel(host))
    ensures |HostName(host)| > 0
  {
  }

  /** The name skipper on the name the builder wrote: it stops at the closing zero exactly when every label is
      readable; otherwise it stops short. */
  lemma {:induction false} SkipHostName(p: seq<Byte>, off: nat, host: seq<Byte>)
    requires Has(p, off, HostName(host)) && off + |HostName(host)| + 4 <= |p|
    ensures off < |p|
    ensures Readable(host) ==> p[off] < 192 && NameEnd(p, off) == off + |HostName(host)|
    ensures !Readable(host) ==> NameEnd(p, off) < off + |HostName(host)|
    decreases |host|
  {
    hide Has, HostName, Labels, FirstLabel, LabelLength;
    SplitHostName(host);
    if host == [] {
      HasByte(p, off, [0], 0);
    } else {
      var first, rest := FirstLabel(host), HostName(AfterLabel(host));
      SplitHostName(AfterLabel(host));
      HasConcat(p, off, first, rest);
      HasByte(p, off, first, 0);
      if 0 < first[0] < 192 {
        SkipHostName(p, off + |first|, AfterLabel(host));
        assert LabelsEnd(p, off) == LabelsEnd(p, off + |first|);
      }
    }
  }

  /** The reader lands exactly behind the question the builder wrote if and only if every label is readable. */
  lemma {:induction false} SkipQuestion(p: seq<Byte>, off: nat, host: seq<Byte>)
    requires Has(p, off, Question(host))
    ensures QuestionsEnd(p, off, 1) == off + |Question(host)| <==> Readable(host)
  {
    hide NameEnd, Readable;
    HasConcat(p, off, HostName(host), [0, 1, 0, 1]);
    SkipHostName(p, off, host);
    assert QuestionsEnd(p, off, 1) == NameEnd(p, off) + 4;
  }

  // ---- the query, read back

  /** The name at `off` as text: the labels joined by dots. */
  function ReadName(p: seq<Byte>, off: nat): (host: seq<Byte>)
    decreases |p| - off
  {
    if off >= |p| || p[off] == 0 || p[off] >= 192 || off + 1 + p[off] >= |p| then []
    else
      var next := off + 1 + p[off];
      var text := p[off + 1..next];
      if p[next] == 0 then text else text + [DOT] + ReadName(p, next)
  }

  /** No label is too long to be written whole, and no dot stands at the end. */
  predicate Whole(host: seq<Byte>)
    decreases |host|
  {
    && LabelLength(host) < 256
    && (LabelLength(host) < |host| ==> AfterLabel(host) != [] && Whole(AfterLabel(host)))
  }

  /** A readable name comes back as it was if and only if its labels are whole and it does not end in a dot. */
  lemma {:induction false} NameReadBack(p: seq<Byte>, off: nat, host: seq<Byte>)
    requires Readable(host) && Has(p, off, HostName(host))
    ensures ReadName(p, off) == host <==> Whole(host)
    decreases |host|
  {
    hide Has, HostName, LabelLength, AfterLabel, ReadName, Whole;
    if host == [] {
      NoNameRead(p, off);
    } else {
      var tail, k := AfterLabel(host), LabelLength(host) % 256;
      LabelRead(p, off, host);
      if tail != [] {
        NameReadBack(p, off + 1 + k, tail);
        FirstLabelBack(host, k, ReadName(p, off + 1 + k));
      } else {
        LastLabelBack(host, k);
      }
    }
  }

  lemma {:induction false} NoNameRead(p: seq<Byte>, off: nat)
    requires Has(p, off, HostName([]))
    ensures ReadName(p, off) == [] && Whole([])
  {
    hide Has;
    SplitHostName([]);
    HasByte(p, off, [0], 0);
  }

  lemma {:induction false} LastLabelBack(host: seq<Byte>, k: nat)
    requires host != [] && AfterLabel(host) == [] && k == LabelLength(host) % 256
    ensures host[..k] == host <==> Whole(host)
  {
    hide LabelLength;
    assert host[..k] == host <==> k == |host|;
  }

  /** Putting the labels together again. */
  lemma {:induction false} FirstLabelBack(host: seq<Byte>, k: nat, rest: seq<Byte>)
    requires host != [] && AfterLabel(host) != [] && k == LabelLength(host) % 256
    ensures Whole(host) <==> k == LabelLength(host) && Whole(AfterLabel(host))
    ensures host[..k] + [DOT] + rest == host <==> k == LabelLength(host) && rest == AfterLabel(host)
  {
    hide LabelLength;
    var n := LabelLength(host);
    assert n < |host| && host == host[..n] + [DOT] + AfterLabel(host);
    if k < n {
      assert (host[..k] + [DOT] + rest)[k] == DOT && host[k] != DOT;
    } else {
      SameTail(host[..n] + [DOT], rest, AfterLabel(host));
    }
  }

  lemma {:induction false} SameTail(a: seq<Byte>, b: seq<Byte>, c: seq<Byte>)
    ensures a + b == a + c <==> b == c
  {
    assert (a + b)[|a|..] == b && (a + c)[|a|..] == c;
  }

  /** The first label in the packet. */
  lemma {:induction false} LabelAt(p: seq<Byte>, off: nat, host: seq<Byte>)
    requires host != [] && Has(p, off, HostName(host))
    ensures var k := LabelLength(host) % 256;
            && k <= LabelLength(host) && off + 1 + k < |p| && p[off] == k && p[off + 1..off + 1 + k] == host[..k]
            && Has(p, off + 1 + k, HostName(AfterLabel(host)))
  {
    hide HostName, Labels, LabelLength;
    var k := LabelLength(host) % 256;
    var first := FirstLabel(host);
    SplitHostName(host);
    SplitHostName(AfterLabel(host));
    HasConcat(p, off, first, HostName(AfterLabel(host)));
    assert p[off..off + 1 + k] == [k] + host[..k];
    assert p[off + 1..off + 1 + k] == p[off..off + 1 + k][1..];
    assert p[off] == p[off..off + 1 + k][0];
  }

  /** The reader takes it and goes on behind it. */
  lemma {:induction false} LabelRead(p: seq<Byte>, off: nat, host: seq<Byte>)
    requires host != [] && Readable(host) && Has(p, off, HostName(host))
    ensures var k, tail := LabelLength(host) % 256, AfterLabel(host);
            && k <= LabelLength(host)
            && Has(p, off + 1 + k, HostName(tail))
            && ReadName(p, off) == if tail == [] then host[..k] else host[..k] + [DOT] + ReadName(p, off + 1 + k)
  {
    hide Has, HostName, LabelLength, AfterLabel;
    LabelAt(p, off, host);
    var next := off + 1 + LabelLength(host) % 256;
    if AfterLabel(host) == [] {
      SplitHostName([]);
      HasByte(p, next, [0], 0);
    } else {
      NameStarts(p, next, AfterLabel(host));
    }
  }

  lemma {:induction false} NameStarts(p: seq<Byte>, off: nat, host: seq<Byte>)
    requires host != [] && Readable(host) && Has(p, off, HostName(host))
    ensures off < |p| && p[off] != 0
  {
    hide Has, HostName;
    LabelAt(p, off, host);
  }

  /** The query in numbers: its ID, flags 0x0100, one question and nothing else, then the name, type 1 and class
      1.  The name reads back as the host asked for if and only if it could be written whole. */
  lemma {:induction false} QueryReadBack(id: nat, host: seq<Byte>)
    requires id < 0x1_0000
    ensures var q := Query(id, host);
            && |q| == 12 + |HostName(host)| + 4
            && U16(q[0], q[1]) == id && U16(q[2], q[3]) == 0x0100
            && U16(q[4], q[5]) == 1 && U16(q[6], q[7]) == 0 && U16(q[8], q[9]) == 0 && U16(q[10], q[11]) == 0
            && U16(q[|q| - 4], q[|q| - 3]) == 1 && U16(q[|q| - 2], q[|q| - 1]) == 1
            && (Readable(host) ==> NameEnd(q, 12) == |q| - 4 && (ReadName(q, 12) == host <==> Whole(host)))
  {
    hide HostName, Readable, NameEnd, ReadName, Whole;
    var q, name := Query(id, host), HostName(host);
    assert Has(q, 12, name + [0, 1, 0, 1]);
    HasConcat(q, 12, name, [0, 1, 0, 1]);
    SkipHostName(q, 12, host);
    if Readable(host) {
      NameReadBack(q, 12, host);
    }
  }

  // ---- answers

  /** A name is a whole pointer, uncompressed, or labels that end in a pointer (section 4.1.4 of RFC 1035). */
  datatype Name = Pointer(hi: Byte, lo: Byte) | Plain(host: seq<Byte>) | Mixed(host: seq<Byte>, hi: Byte, lo: Byte)

  datatype Record = Record(name: Name, rtype: nat, rclass: nat, ttl: seq<Byte>, data: seq<Byte>)

  predicate RecordOk(r: Record) {
    && (match r.name
        case Pointer(hi, _) => hi >= 192
        case Plain(host) => Readable(host)
        case Mixed(host, hi, _) => host != [] && Readable(host) && hi >= 192)
    && r.rtype < 0x1_0000 && r.rclass < 0x1_0000 && |r.ttl| == 4 && |r.data| < 0x1_0000
  }

  function NameBytes(n: Name): (r: seq<Byte>) {
    match n
    case Pointer(hi, lo) => [hi, lo]
    case Plain(host) => HostName(host)
    case Mixed(host, hi, lo) => Labels(host) + [hi, lo]
  }

  /** TYPE, CLASS, TTL and RDLENGTH. */
  function Fixed(r: Record): (s: seq<Byte>)
    requires RecordOk(r)
    ensures |s| == 10
  {
    [r.rtype / 256, r.rtype % 256, r.rclass / 256, r.rclass % 256] + r.ttl + [|r.data| / 256, |r.data| % 256]
  }

  function RecordBytes(r: Record): (result: seq<Byte>)
    requires RecordOk(r)
  {
    NameBytes(r.name) + Fixed(r) + r.data
  }

  function Answers(rs: seq<Record>): (r: seq<Byte>)
    requires forall i :: 0 <= i < |rs| ==> RecordOk(rs[i])
  {
    if rs == [] then [] else RecordBytes(rs[0]) + Answers(rs[1..])
  }

  predicate IsAddress(r: Record) {
    r.rtype == 1 && r.rclass == 1 && |r.data| == 4
  }

  function Address(a: nat, b: nat, c: nat, d: nat): (r: nat) {
    a * 0x100_0000 + b * 0x1_0000 + c * 0x100 + d
  }

  /** The address in the first A record of class IN. */
  function FirstAddress(rs: seq<Record>): (r: Option<nat>) {
    if rs == [] then None
    else if IsAddress(rs[0]) then Some(Address(rs[0].data[0], rs[0].data[1], rs[0].data[2], rs[0].data[3]))
    else FirstAddress(rs[1..])
  }

  /** The answer loop of udp_rx. */
  function Walk(p: seq<Byte>, off: nat, count: nat): (r: Option<nat>)
    decreases count
  {
    if count == 0 || off + 10 >= |p| then None
    else
      var at := AnswerNameEnd(p, off);
      if at + 10 > |p| then None
      else
        var rtype, rclass, rdlen := U16(p[at], p[at + 1]), U16(p[at + 2], p[at + 3]), U16(p[at + 8], p[at + 9]);
        if rtype == 1 && rclass == 1 && rdlen == 4 && at + 14 <= |p| then
          Some(Address(p[at + 10], p[at + 11], p[at + 12], p[at + 13]))
        else Walk(p, at + 10 + rdlen, count - 1)
  }

  /** The zero test behind a name meets the high byte of TYPE. */
  predicate Misread(r: Record) {
    r.name.Mixed? && r.rtype < 256
  }

  lemma {:induction false} SplitLabels(host: seq<Byte>, tail: seq<Byte>)
    ensures host == [] ==> Labels(host) + tail == tail
    ensures host != [] ==> Labels(host) + tail == FirstLabel(host) + (Labels(AfterLabel(host)) + tail)
  {
  }

  /** The label loop on labels that end in a pointer stops behind the pointer. */
  lemma {:induction false} SkipToPointer(p: seq<Byte>, off: nat, host: seq<Byte>, hi: Byte, lo: Byte)
    requires Readable(host) && hi >= 192 && Has(p, off, Labels(host) + [hi, lo])
    ensures off < |p| && LabelsEnd(p, off) == off + |Labels(host)| + 2
    ensures host != [] ==> p[off] < 192
    decreases |host|
  {
    hide Has, Labels, FirstLabel, LabelLength;
    SplitLabels(host, [hi, lo]);
    HasByte(p, off, Labels(host) + [hi, lo], 0);
    if host == [] {
      NoLabels();
    } else {
      var first, rest := FirstLabel(host), Labels(AfterLabel(host)) + [hi, lo];
      LabelsLength(host);
      HasConcat(p, off, first, rest);
      SkipToPointer(p, off + |first|, AfterLabel(host), hi, lo);
      assert LabelsEnd(p, off) == LabelsEnd(p, off + |first|);
    }
  }

  lemma {:induction false} NoLabels()
    ensures Labels([]) == []
  {
  }

  lemma {:induction false} LabelsLength(host: seq<Byte>)
    requires host != []
    ensures |Labels(host)| == |FirstLabel(host)| + |Labels(AfterLabel(host))|
  {
  }

  /** A name of labels that ends in a pointer is skipped one byte too far exactly when the byte behind it is 0. */
  lemma {:induction false} LabelThenPointerShifts(p: seq<Byte>, off: nat, host: seq<Byte>, hi: Byte, lo: Byte)
    requires host != [] && Readable(host) && hi >= 192
    requires Has(p, off, Labels(host) + [hi, lo]) && off + |Labels(host)| + 2 < |p|
    ensures off < |p|
    ensures var end := off + |Labels(host)| + 2;
            AnswerNameEnd(p, off) == if p[end] == 0 then end + 1 else end
  {
    hide Has, Labels, LabelsEnd, Readable;
    SkipToPointer(p, off, host, hi, lo);
  }

  lemma {:induction false} NameSkipped(p: seq<Byte>, off: nat, r: Record)
    requires RecordOk(r) && Has(p, off, NameBytes(r.name))
    requires var end := off + |NameBytes(r.name)|; end + 4 <= |p| && p[end] == r.rtype / 256
    ensures off < |p| && AnswerNameEnd(p, off) == off + |NameBytes(r.name)| + if Misread(r) then 1 else 0
  {
    hide Has, NameEnd, Labels, HostName, Readable;
    match r.name
    case Pointer(hi, lo) =>
      HasByte(p, off, [hi, lo], 0);
    case Plain(host) =>
      SplitHostName(host);
      SkipHostName(p, off, host);
    case Mixed(host, hi, lo) =>
      LabelThenPointerShifts(p, off, host, hi, lo);
  }

  lemma {:induction false} TypeByte(r: Record)
    requires RecordOk(r)
    ensures (Fixed(r) + r.data)[0] == r.rtype / 256
  {
  }

  /** So the name of a record is skipped exactly if and only if it does not end labels in a pointer before a
      TYPE below 256; otherwise the skipper ends one byte further. */
  lemma {:induction false} SkipRecordName(p: seq<Byte>, off: nat, r: Record)
    requires RecordOk(r) && Has(p, off, RecordBytes(r))
    ensures off + 10 < |p|
    ensures AnswerNameEnd(p, off) == off + |NameBytes(r.name)| + if Misread(r) then 1 else 0
    ensures Has(p, off + |NameBytes(r.name)|, Fixed(r) + r.data)
  {
    hide Has, Fixed, NameBytes, AnswerNameEnd, Misread, RecordOk;
    var end := off + |NameBytes(r.name)|;
    Grouped(r);
    HasConcat(p, off, NameBytes(r.name), Fixed(r) + r.data);
    TypeByte(r);
    HasByte(p, end, Fixed(r) + r.data, 0);
    HasByte(p, end, Fixed(r) + r.data, 9);
    NameNonempty(r);
    NameSkipped(p, off, r);
  }

  lemma {:induction false} Grouped(r: Record)
    requires RecordOk(r)
    ensures RecordBytes(r) == NameBytes(r.name) + (Fixed(r) + r.data)
  {
    hide NameBytes, Fixed;
  }

  lemma {:induction false} NameNonempty(r: Record)
    requires RecordOk(r)
    ensures NameBytes(r.name) != []
  {
    hide Labels;
  }

  lemma {:induction false} SplitU16(n: nat)
    requires n < 0x1_0000
    ensures U16(n / 256, n % 256) == n && n / 256 < 256
  {
  }

  /** The fields the walker reads are those of the record. */
  lemma {:induction false} FixedFields(p: seq<Byte>, at: nat, r: Record)
    requires RecordOk(r) && Has(p, at, Fixed(r) + r.data)
    ensures at + 10 + |r.data| <= |p|
    ensures U16(p[at], p[at + 1]) == r.rtype && U16(p[at + 2], p[at + 3]) == r.rclass
    ensures U16(p[at + 8], p[at + 9]) == |r.data|
    ensures forall i :: 0 <= i < |r.data| ==> p[at + 10 + i] == r.data[i]
  {
    var s := Fixed(r) + r.data;
    assert at + |s| <= |p|;
    forall i | 0 <= i < |s| ensures p[at + i] == s[i] {
      HasByte(p, at, s, i);
    }
    hide Has, RecordOk;
    assert p[at + 0] == s[0] && p[at + 1] == s[1] && p[at + 2] == s[2] && p[at + 3] == s[3];
    assert p[at + 8] == s[8] && p[at + 9] == s[9];
    forall i | 0 <= i < |r.data| ensures p[at + 10 + i] == r.data[i] {
      assert p[at + (10 + i)] == s[10 + i];
    }
    SplitU16(r.rtype);
    SplitU16(r.rclass);
    SplitU16(|r.data|);
  }

  /** How many records stand before the first whose name is misread. */
  function Sound(rs: seq<Record>): (k: nat)
    ensures k <= |rs| && (k < |rs| ==> Misread(rs[k]))
    ensures forall i :: 0 <= i < k ==> !Misread(rs[i])
  {
    if rs == [] || Misread(rs[0]) then 0 else 1 + Sound(rs[1..])
  }

  /** One record that is not misread. */
  lemma {:induction false} WalkRecord(p: seq<Byte>, off: nat, r: Record, n: nat)
    requires RecordOk(r) && !Misread(r) && Has(p, off, RecordBytes(r)) && n > 0
    ensures Walk(p, off, n) ==
            if IsAddress(r) then Some(Address(r.data[0], r.data[1], r.data[2], r.data[3]))
            else Walk(p, off + |RecordBytes(r)|, n - 1)
  {
    hide Has, RecordBytes, Fixed, AnswerNameEnd, RecordOk, NameBytes;
    SkipRecordName(p, off, r);
    FixedFields(p, off + |NameBytes(r.name)|, r);
    RecordLength(r);
  }

  /** For any list of answers: the records before the first that is misread are read right, so the walker
      yields the first A record of class IN among them, and otherwise goes on at the one that is misread. */
  lemma {:induction false} WalkReaches(p: seq<Byte>, off: nat, rs: seq<Record>)
    requires forall i :: 0 <= i < |rs| ==> RecordOk(rs[i])
    requires Has(p, off, Answers(rs))
    ensures var k := Sound(rs);
            && |Answers(rs[..k])| <= |Answers(rs)|
            && Has(p, off + |Answers(rs[..k])|, Answers(rs[k..]))
            && Walk(p, off, |rs|) == if FirstAddress(rs[..k]).Some? then FirstAddress(rs[..k])
                                     else Walk(p, off + |Answers(rs[..k])|, |rs| - k)
    decreases |rs|
  {
    hide Has, RecordBytes, RecordOk, Walk, IsAddress, Answers, FirstAddress;
    var k := Sound(rs);
    if k == 0 {
      assert rs[..0] == [] && rs[0..] == rs;
      NoAnswers();
    } else {
      var r := rs[0];
      assert rs[..k][1..] == rs[1..][..k - 1] && rs[k..] == rs[1..][k - 1..];
      MoreAnswers(rs);
      MoreAnswers(rs[..k]);
      HasConcat(p, off, RecordBytes(r), Answers(rs[1..]));
      WalkRecord(p, off, r, |rs|);
      WalkReaches(p, off + |RecordBytes(r)|, rs[1..]);
    }
  }

  lemma {:induction false} NoAnswers()
    ensures Answers([]) == [] && FirstAddress([]) == None
  {
  }

  lemma {:induction false} MoreAnswers(rs: seq<Record>)
    requires rs != [] && forall i :: 0 <= i < |rs| ==> RecordOk(rs[i])
    ensures Answers(rs) == RecordBytes(rs[0]) + Answers(rs[1..])
    ensures FirstAddress(rs) ==
            if IsAddress(rs[0]) then Some(Address(rs[0].data[0], rs[0].data[1], rs[0].data[2], rs[0].data[3]))
            else FirstAddress(rs[1..])
  {
    hide RecordBytes, RecordOk;
  }

  /** In particular when all names are whole pointers or uncompressed: the first A record of class IN, or
      nothing when there is none. */
  lemma {:induction false} WalkFindsFirst(p: seq<Byte>, off: nat, rs: seq<Record>)
    requires forall i :: 0 <= i < |rs| ==> RecordOk(rs[i]) && !Misread(rs[i])
    requires Has(p, off, Answers(rs))
    ensures Walk(p, off, |rs|) == FirstAddress(rs)
  {
    hide Has, RecordBytes, RecordOk, Answers, FirstAddress;
    WalkReaches(p, off, rs);
    assert Sound(rs) == |rs| && rs[..|rs|] == rs;
    if FirstAddress(rs) == None {
      assert Walk(p, off + |Answers(rs)|, 0) == None;
    }
  }

  /** The data length the walker reads one byte late: the low byte of the length, then the first data byte. */
  function LateLength(r: Record): (n: nat)
    requires r.data != []
  {
    U16(|r.data| % 256, r.data[0])
  }

  /** A misread record of any type but 0 is never taken, whatever it is: its fields are read one byte late, and
      the walker goes on where the late length leads. */
  lemma {:induction false} MisreadRecord(p: seq<Byte>, off: nat, r: Record, n: nat)
    requires RecordOk(r) && Misread(r) && r.rtype > 0 && r.data != [] && Has(p, off, RecordBytes(r)) && n > 0
    ensures Walk(p, off, n) == Walk(p, off + |NameBytes(r.name)| + 11 + LateLength(r), n - 1)
  {
    hide Has, RecordBytes, AnswerNameEnd, NameBytes, Fixed, Address;
    SkipRecordName(p, off, r);
    LateFields(p, off + |NameBytes(r.name)|, r);
  }

  /** What stands where the walker looks when it starts one byte late. */
  lemma {:induction false} LateFields(p: seq<Byte>, end: nat, r: Record)
    requires RecordOk(r) && Misread(r) && r.data != [] && Has(p, end, Fixed(r) + r.data)
    ensures end + 11 <= |p|
    ensures p[end + 1] == r.rtype && U16(p[end + 9], p[end + 10]) == LateLength(r)
  {
    hide Has;
    var s := Fixed(r) + r.data;
    HasByte(p, end, s, 1);
    HasByte(p, end, s, 9);
    HasByte(p, end, s, 10);
  }

  /** In particular the address of such a record is never found: the walker goes on far behind it. */
  lemma {:induction false} MisreadAddress(p: seq<Byte>, off: nat, r: Record, n: nat)
    requires RecordOk(r) && IsAddress(r) && r.name.Mixed? && Has(p, off, RecordBytes(r)) && n > 0
    ensures Walk(p, off, n) == Walk(p, off + |NameBytes(r.name)| + 1035 + r.data[0], n - 1)
  {
    hide Has, RecordBytes, RecordOk, NameBytes, Walk;
    var first: nat := r.data[0];
    assert LateLength(r) == 1024 + first;
    MisreadRecord(p, off, r, n);
  }

  /** Behind this misread record the walker is at the end of a message of `len` bytes. */
  predicate LeadsOut(r: Record, len: nat) {
    r.rtype > 0 && r.data != [] && LateLength(r) + 21 >= len
  }

  /** That is so for four bytes of data or more (modulo 256) in a message of up to 1045 bytes, and for two or
      three in the 512 bytes that UDP carries (section 4.2.1 of RFC 1035). */
  lemma {:induction false} ShortMessage(r: Record, len: nat)
    requires r.rtype > 0
    ensures |r.data| % 256 >= 4 && len <= 1045 ==> LeadsOut(r, len)
    ensures |r.data| % 256 >= 2 && len <= 533 ==> LeadsOut(r, len)
  {
  }

  /** The index of the first A record of class IN, or the length of the list. */
  function FirstIndex(rs: seq<Record>): (k: nat)
    ensures k <= |rs| && (k < |rs| ==> rs[k].rtype == 1 && rs[k].rclass == 1 && |rs[k].data| == 4)
    ensures forall i :: 0 <= i < k ==> !(rs[i].rtype == 1 && rs[i].rclass == 1 && |rs[i].data| == 4)
  {
    if rs == [] || IsAddress(rs[0]) then 0 else 1 + FirstIndex(rs[1..])
  }

  /** Its four bytes are the address, the first one highest. */
  lemma {:induction false} FirstAddressAt(rs: seq<Record>)
    ensures var k := FirstIndex(rs);
            if k == |rs| then FirstAddress(rs) == None
            else
              var a: nat, b: nat, c: nat, d: nat := rs[k].data[0], rs[k].data[1], rs[k].data[2], rs[k].data[3];
              FirstAddress(rs) == Some(a * 0x100_0000 + b * 0x1_0000 + c * 0x100 + d)
    decreases |rs|
  {
    if rs != [] && !IsAddress(rs[0]) {
      FirstAddressAt(rs[1..]);
    }
  }

  lemma {:induction false} NoAddress(rs: seq<Record>, k: nat)
    requires k <= |rs| && k <= FirstIndex(rs)
    ensures FirstAddress(rs[..k]) == None
  {
    FirstAddressAt(rs[..k]);
  }

  /** When misread records lead out of the message: the walker finds the first A record of class IN if and only
      if no misread record stands before it and it is not misread itself; otherwise it finds nothing. */
  lemma {:induction false} WalkFindsFirstExactly(p: seq<Byte>, off: nat, rs: seq<Record>)
    requires forall i :: 0 <= i < |rs| ==> RecordOk(rs[i]) && (Misread(rs[i]) ==> LeadsOut(rs[i], |p|))
    requires Has(p, off, Answers(rs))
    ensures var k := FirstIndex(rs);
            && (Walk(p, off, |rs|) == FirstAddress(rs) <==> k == |rs| || k < Sound(rs))
            && (k >= Sound(rs) ==> Walk(p, off, |rs|) == None)
  {
    hide Has, RecordBytes, RecordOk, Answers, FirstAddress, NameBytes, Walk, Misread, LeadsOut;
    var k, m := FirstIndex(rs), Sound(rs);
    WalkReaches(p, off, rs);
    FirstAddressAt(rs);
    if k < m {
      FirstAddressAt(rs[..m]);
      assert FirstIndex(rs[..m]) == k;
    } else {
      NoAddress(rs, m);
      if m == |rs| {
        NoneLeft(p, off + |Answers(rs[..m])|);
      } else {
        FrontRecord(p, off + |Answers(rs[..m])|, rs[m..]);
        LedOut(p, off + |Answers(rs[..m])|, rs[m], |rs| - m);
      }
    }
  }

  lemma {:induction false} NoneLeft(p: seq<Byte>, off: nat)
    ensures Walk(p, off, 0) == None
  {
  }

  lemma {:induction false} LedOut(p: seq<Byte>, off: nat, r: Record, n: nat)
    requires RecordOk(r) && Misread(r) && LeadsOut(r, |p|) && Has(p, off, RecordBytes(r)) && n > 0
    ensures Walk(p, off, n) == None
  {
    hide Has, RecordBytes, RecordOk, NameBytes, Walk, LateLength;
    MisreadRecord(p, off, r, n);
    WalkedOff(p, off + |NameBytes(r.name)| + 11 + LateLength(r), n - 1);
  }

  lemma {:induction false} WalkedOff(p: seq<Byte>, off: nat, n: nat)
    requires off + 10 >= |p|
    ensures Walk(p, off, n) == None
  {
  }

  lemma {:induction false} FrontRecord(p: seq<Byte>, off: nat, rs: seq<Record>)
    requires rs != [] && forall i :: 0 <= i < |rs| ==> RecordOk(rs[i])
    requires Has(p, off, Answers(rs))
    ensures Has(p, off, RecordBytes(rs[0]))
  {
    hide Has, RecordBytes, RecordOk;
    HasConcat(p, off, RecordBytes(rs[0]), Answers(rs[1..]));
  }

  lemma {:induction false} RecordLength(r: Record)
    requires RecordOk(r)
    ensures |RecordBytes(r)| == |NameBytes(r.name)| + 10 + |r.data|
  {
  }

  // ---- a whole response

  /** What udp_rx makes of a payload for the query it matches: the header tests, the questions, the answers. */
  function Resolve(p: seq<Byte>): (r: Option<nat>)
    requires |p| >= 12
  {
    if p[2] < 128 || p[3] % 16 != 0 then None
    else Walk(p, QuestionsEnd(p, 12, U16(p[4], p[5])), U16(p[6], p[7]))
  }

  function ResponseHeader(id: nat, flags: nat, count: nat, rest: seq<Byte>): (s: seq<Byte>)
    requires id < 0x1_0000 && flags < 0x1_0000 && count < 0x1_0000 && |rest| == 4
    ensures |s| == 12
  {
    [id / 256, id % 256, flags / 256, flags % 256, 0, 1, count / 256, count % 256] + rest
  }

  /** Builder and walker agree: an answer without error, which repeats a question of readable labels, resolves
      to what the walker makes of its answers.  That is the first address in them, when no name is misread; and
      when misread records lead out of the message, it is if and only if none stands before that address or is
      its record. */
  lemma {:induction false} ResponseResolves(p: seq<Byte>, id: nat, flags: nat, rest: seq<Byte>, host: seq<Byte>,
                                            rs: seq<Record>)
    requires id < 0x1_0000 && flags < 0x1_0000 && |rs| < 0x1_0000 && |rest| == 4
    requires forall i :: 0 <= i < |rs| ==> RecordOk(rs[i])
    requires flags >= 0x8000 && flags % 16 == 0 && Readable(host)
    requires Has(p, 0, ResponseHeader(id, flags, |rs|, rest) + (Question(host) + Answers(rs)))
    ensures |p| >= 12 && U16(p[0], p[1]) == id && Resolve(p) == Walk(p, 12 + |Question(host)|, |rs|)
    ensures (forall i :: 0 <= i < |rs| ==> !Misread(rs[i])) ==> Resolve(p) == FirstAddress(rs)
    ensures (forall i :: 0 <= i < |rs| ==> Misread(rs[i]) ==> LeadsOut(rs[i], |p|)) ==>
              (Resolve(p) == FirstAddress(rs) <==> FirstIndex(rs) == |rs| || FirstIndex(rs) < Sound(rs))
  {
    hide Has, Question, Answers, Walk, FirstAddress, RecordOk, Readable, Misread, LeadsOut, IsAddress;
    ResponseParts(p, id, flags, rest, host, rs);
    if forall i :: 0 <= i < |rs| ==> !Misread(rs[i]) {
      WalkFindsFirst(p, 12 + |Question(host)|, rs);
    }
    if forall i :: 0 <= i < |rs| ==> Misread(rs[i]) ==> LeadsOut(rs[i], |p|) {
      WalkFindsFirstExactly(p, 12 + |Question(host)|, rs);
    }
  }

  lemma {:induction false} ResponseParts(p: seq<Byte>, id: nat, flags: nat, rest: seq<Byte>, host: seq<Byte>,
                                         rs: seq<Record>)
    requires id < 0x1_0000 && flags < 0x1_0000 && |rs| < 0x1_0000 && |rest| == 4
    requires forall i :: 0 <= i < |rs| ==> RecordOk(rs[i])
    requires flags >= 0x8000 && flags % 16 == 0 && Readable(host)
    requires Has(p, 0, ResponseHeader(id, flags, |rs|, rest) + (Question(host) + Answers(rs)))
    ensures |p| >= 12 && U16(p[0], p[1]) == id && Has(p, 12 + |Question(host)|, Answers(rs))
    ensures Resolve(p) == Walk(p, 12 + |Question(host)|, |rs|)
  {
    hide Has, Question, Answers, QuestionsEnd, Walk, RecordOk, Readable;
    var header := ResponseHeader(id, flags, |rs|, rest);
    HasConcat(p, 0, header, Question(host) + Answers(rs));
    HasConcat(p, 12, Question(host), Answers(rs));
    HasByte(p, 0, header, 11);
    forall i | 0 <= i < 12 ensures p[i] == header[i] {
      HasByte(p, 0, header, i);
    }
    assert p[0] == header[0] && p[1] == header[1] && p[2] == header[2] && p[3] == header[3]
           && p[4] == header[4] && p[5] == header[5]
           && p[6] == header[6] && p[7] == header[7];
    SplitU16(|rs|);
    SplitU16(id);
    FlagBits(flags);
    SkipQuestion(p, 12, host);
  }

  lemma {:induction false} FlagBits(flags: nat)
    requires flags < 0x1_0000
    ensures flags / 256 >= 128 <==> flags >= 0x8000
    ensures flags % 256 % 16 == flags % 16
  {
  }
}
