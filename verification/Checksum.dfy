/** The internet checksum of net.c, over little-endian 16-bit words (RFC 1071, section 1). */
module Checksum {
  type Octet = b: nat | b < 256

  /** A little-endian word. */
  function Pair(lo: nat, hi: nat): (r: nat) {
    lo + 256 * hi
  }

  /** The sum of the words; a last odd byte counts as a word of its own. */
  function WordSum(data: seq<Octet>): (r: nat) {
    if |data| == 0 then 0
    else if |data| == 1 then data[0]
    else Pair(data[0], data[1]) + WordSum(data[2..])
  }

  /** A byte at an even offset, a last odd one included, counts once, and one at an odd offset 256 times. */
  lemma {:induction false} ByteWeight(data: seq<Octet>, k: nat, b: Octet)
    requires k < |data|
    ensures WordSum(data[k := b]) - WordSum(data) == (b - data[k]) * if k % 2 == 0 then 1 else 256
    decreases |data|
  {
    var r := data[k := b];
    if k < 2 {
      assert |data| > 1 ==> r[2..] == data[2..];
    } else {
      ByteWeight(data[2..], k - 2, b);
      assert r[2..] == data[2..][k - 2 := b];
    }
  }

  lemma {:induction false} ZeroSum(data: seq<Octet>)
    requires forall k :: 0 <= k < |data| ==> data[k] == 0
    ensures WordSum(data) == 0
  {
    if |data| > 1 {
      ZeroSum(data[2..]);
    }
  }

  /** What the folding loop computes: the representative of the sum modulo 65535 in 1..65535, and 0 for 0. */
  function Folded(sum: nat): (r: nat)
    ensures r < 0x1_0000 && r % 0xFFFF == sum % 0xFFFF && (r == 0 <==> sum == 0)
  {
    if sum == 0 then 0 else (sum - 1) % 0xFFFF + 1
  }

  /** One round of folding keeps the sum modulo 65535, makes it smaller, and never makes it 0. */
  lemma {:induction false} FoldRound(sum: nat)
    requires sum >= 0x1_0000
    ensures sum % 0x1_0000 + sum / 0x1_0000 < sum
    ensures Folded(sum % 0x1_0000 + sum / 0x1_0000) == Folded(sum)
  {
    var q, r := sum / 0x1_0000, sum % 0x1_0000;
    assert sum == q * 0xFFFF + (q + r);
    SubtractMultiple(q + r - 1, q);
    assert (sum - 1) % 0xFFFF == (q + r - 1) % 0xFFFF;
  }

  lemma {:induction false} SubtractMultiple(x: nat, q: nat)
    ensures (q * 0xFFFF + x) % 0xFFFF == x % 0xFFFF
  {
    if q > 0 {
      SubtractMultiple(x, q - 1);
      assert q * 0xFFFF + x == ((q - 1) * 0xFFFF + x) + 0xFFFF;
    }
  }

  lemma {:induction false} SumSplit(data: seq<Octet>, k: nat)
    requires k <= |data| && k % 2 == 0
    ensures WordSum(data) == WordSum(data[..k]) + WordSum(data[k..])
  {
    if k == 0 {
      assert data[..0] == [] && data[0..] == data;
    } else {
      SumSplit(data[2..], k - 2);
      assert data[2..][..k - 2] == data[2..k] == data[..k][2..];
      assert data[2..][k - 2..] == data[k..];
    }
  }

  lemma {:induction false} NextWord(data: seq<Octet>, p: nat)
    requires p % 2 == 0 && p + 1 < |data|
    ensures WordSum(data[..p + 2]) == WordSum(data[..p]) + Pair(data[p], data[p + 1])
  {
    SumSplit(data[..p + 2], p);
    assert data[..p + 2][..p] == data[..p] && data[..p + 2][p..] == [data[p], data[p + 1]];
    assert [data[p], data[p + 1]][2..] == [];
  }

  lemma {:induction false} LastByte(data: seq<Octet>)
    requires |data| % 2 == 1
    ensures WordSum(data) == WordSum(data[..|data| - 1]) + data[|data| - 1]
  {
    SumSplit(data, |data| - 1);
    assert data[|data| - 1..] == [data[|data| - 1]];
  }

  lemma {:induction false} EmptySum()
    ensures WordSum([]) == 0
  {
  }

  lemma {:induction false} AddWrapped(x: nat, w: nat)
    ensures (x % 0x1_0000_0000 + w) % 0x1_0000_0000 == (x + w) % 0x1_0000_0000
  {
    var y := x % 0x1_0000_0000 + w;
    var q := x / 0x1_0000_0000;
    assert x + w == q * 0x1_0000_0000 + y;
    WrapMultiple(y, q);
  }

  lemma {:induction false} WrapMultiple(y: nat, q: nat)
    ensures (q * 0x1_0000_0000 + y) % 0x1_0000_0000 == y % 0x1_0000_0000
  {
    if q > 0 {
      WrapMultiple(y, q - 1);
      assert q * 0x1_0000_0000 + y == ((q - 1) * 0x1_0000_0000 + y) + 0x1_0000_0000;
    }
  }

  /** The first loop of ip_checksum; the sum is kept in 32 bits. */
  method SumWords(data: seq<Octet>) returns (sum: nat)
    ensures sum == WordSum(data) % 0x1_0000_0000
  {
    hide WordSum, Pair;
    sum := 0;
    var p := 0;
    assert data[..0] == [];
    EmptySum();
    while |data| - p > 1
      invariant p <= |data| && p % 2 == 0
      invariant sum == WordSum(data[..p]) % 0x1_0000_0000
    {
      NextWord(data, p);
      AddWrapped(WordSum(data[..p]), Pair(data[p], data[p + 1]));
      sum := (sum + Pair(data[p], data[p + 1])) % 0x1_0000_0000;
      p := p + 2;
    }
    if |data| - p == 1 {
      LastByte(data);
      AddWrapped(WordSum(data[..p]), data[p]);
      sum := (sum + data[p]) % 0x1_0000_0000;
    } else {
      assert data[..p] == data;
    }
  }

  /** ip_checksum. */
  method IpChecksum(data: seq<Octet>) returns (c: nat)
    ensures c == 0xFFFF - Folded(WordSum(data) % 0x1_0000_0000)
  {
    var sum := SumWords(data);
    ghost var total := sum;
    while sum >= 0x1_0000
      invariant Folded(sum) == Folded(total)
    {
      FoldRound(sum);
      sum := sum % 0x1_0000 + sum / 0x1_0000;
    }
    assert Folded(sum) == sum;
    c := 0xFFFF - sum;
  }

  /** Storing a 16-bit value at an even offset. */
  function Store(data: seq<Octet>, k: nat, c: nat): (r: seq<Octet>)
    requires k + 1 < |data| && c < 0x1_0000
    ensures |r| == |data|
  {
    data[k := c % 256][k + 1 := c / 256]
  }

  function WordAt(data: seq<Octet>, k: nat): (w: nat)
    requires k + 1 < |data|
    ensures w < 0x1_0000
  {
    Pair(data[k], data[k + 1])
  }

  lemma {:induction false} StoreSum(data: seq<Octet>, k: nat, c: nat)
    requires k + 1 < |data| && k % 2 == 0 && c < 0x1_0000
    ensures WordSum(Store(data, k, c)) + WordAt(data, k) == WordSum(data) + c
  {
    var r := Store(data, k, c);
    if k == 0 {
      assert r[2..] == data[2..];
    } else {
      StoreSum(data[2..], k - 2, c);
      assert r[2..] == Store(data[2..], k - 2, c);
    }
  }

  /** The checksum of `data` as a value. */
  function ChecksumOf(data: seq<Octet>): (c: nat)
    ensures c < 0x1_0000
  {
    0xFFFF - Folded(WordSum(data) % 0x1_0000_0000)
  }

  /** Acceptance: a buffer whose word sum fits in 32 bits checks to 0 exactly when the sum is a nonzero
      multiple of 65535. */
  lemma {:induction false} Accepts(data: seq<Octet>)
    requires WordSum(data) < 0x1_0000_0000
    ensures ChecksumOf(data) == 0 <==> WordSum(data) > 0 && WordSum(data) % 0xFFFF == 0
  {
    FoldedFull(WordSum(data));
  }

  lemma {:induction false} FoldedFull(sum: nat)
    ensures Folded(sum) == 0xFFFF <==> sum > 0 && sum % 0xFFFF == 0
  {
  }

  /** A sum and its own complement fold to all ones, and still fit in 32 bits: 2^32 - 1 is a multiple of
      65535. */
  lemma {:induction false} SumPlusComplement(sum: nat)
    requires sum < 0x1_0000_0000
    ensures var total := sum + (0xFFFF - Folded(sum));
            0 < total < 0x1_0000_0000 && total % 0xFFFF == 0
  {
    var q := if sum == 0 then 0 else (sum - 1) / 0xFFFF;
    assert sum + (0xFFFF - Folded(sum)) == (q + 1) * 0xFFFF;
    SubtractMultiple(0, q + 1);
  }

  /** For any buffer whose word sum fits in 32 bits: storing the checksum in its zeroed field makes the buffer
      check to 0. */
  lemma {:induction false} StoredChecksumVerifies(data: seq<Octet>, k: nat)
    requires k + 1 < |data| && k % 2 == 0
    ensures WordAt(data, k) == 0 && WordSum(data) < 0x1_0000_0000 ==>
              ChecksumOf(Store(data, k, ChecksumOf(data))) == 0
  {
    hide WordSum, Folded, Store;
    if WordAt(data, k) != 0 || WordSum(data) >= 0x1_0000_0000 {
      return;
    }
    var sum := WordSum(data);
    assert sum % 0x1_0000_0000 == sum;
    StoreSum(data, k, ChecksumOf(data));
    SumPlusComplement(sum);
    Accepts(Store(data, k, ChecksumOf(data)));
  }

  lemma {:induction false} SumBound(data: seq<Octet>)
    ensures WordSum(data) <= (|data| + 1) / 2 * 0xFFFF
  {
    if |data| > 1 {
      SumBound(data[2..]);
    }
  }

  /** Every buffer of at most 2^17 bytes, so every IP header and packet, is such a buffer. */
  lemma {:induction false} PacketsFit(data: seq<Octet>)
    requires |data| <= 131072
    ensures WordSum(data) < 0x1_0000_0000
  {
    SumBound(data);
  }

  /** Replacing one word of an accepted buffer is noticed, unless all zeros and all ones are exchanged in a
      buffer that keeps another nonzero word. */
  lemma {:induction false} WordChangeDetected(data: seq<Octet>, k: nat, w: nat)
    requires k + 1 < |data| <= 131072 && k % 2 == 0 && w < 0x1_0000 && w != WordAt(data, k)
    requires ChecksumOf(data) == 0
    ensures ChecksumOf(Store(data, k, w)) == 0 <==>
              (WordAt(data, k) == 0 && w == 0xFFFF) || (WordAt(data, k) == 0xFFFF && w == 0 && WordSum(data) > 0xFFFF)
  {
    hide WordSum, Folded, Store, WordAt, ChecksumOf;
    var w0 := WordAt(data, k);
    PacketsFit(data);
    PacketsFit(Store(data, k, w));
    StoreSum(data, k, w);
    Accepts(data);
    Accepts(Store(data, k, w));
    StoreSum(data, k, 0);
    SameResidue(WordSum(data) - w0, w0, w);
  }

  /** Two words can stand in for each other modulo 65535 only as all zeros and all ones. */
  lemma {:induction false} SameResidue(x: nat, a: nat, b: nat)
    requires a < 0x1_0000 && b < 0x1_0000 && a != b && (x + a) % 0xFFFF == 0
    ensures (x + b) % 0xFFFF == 0 <==> (a == 0 && b == 0xFFFF) || (a == 0xFFFF && b == 0)
  {
    var p, q := (x + a) / 0xFFFF, (x + b) / 0xFFFF;
    assert x + a == p * 0xFFFF;
    if (x + b) % 0xFFFF == 0 {
      assert x + b == q * 0xFFFF && a - b == (p - q) * 0xFFFF;
    }
  }
}
