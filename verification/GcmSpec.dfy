/** AES-GCM as NIST SP 800-38D defines it, around a block cipher and a field multiplication that stay
    abstract. */
module GcmSpec {
  import opened Arith
  import Bits

  type Byte = b: nat | b < 256
  type Block = b: seq<Byte> | |b| == 16 witness seq(16, _ => 0)
  type Key = seq<Byte>

  const WRAP: nat := 0x1_0000_0000
  const WORD: nat := 0x1_0000_0000_0000_0000
  const ZERO_BLOCK: Block := seq(16, _ => 0)

  /** The AES block encryption under a key, and the multiplication in the field of GHASH. */
  datatype Primitives = Primitives(enc: (Key, Block) -> Block, mul: (Block, Block) -> Block)

  /** `a ^ b` on bytes. */
  function XorByte(a: Byte, b: Byte): (r: Byte) {
    assert Bits.Pow2(8) == 256 by {
      assert Bits.Pow2(4) == 16;
      assert Bits.Pow2(8) == 16 * Bits.Pow2(4);
    }
    Bits.XorBound(a, b, 8);
    Bits.Xor(a, b)
  }

  lemma {:induction false} XorByteTwice(a: Byte, b: Byte)
    ensures XorByte(XorByte(a, b), b) == a
  {
    Bits.XorTwice(a, b);
  }

  function Xor(a: seq<Byte>, b: seq<Byte>): (r: seq<Byte>)
    requires |a| == |b|
    ensures |r| == |a|
  {
    seq<Byte>(|a|, (i: nat) requires i < |a| => XorByte(a[i], b[i]))
  }

  lemma {:induction false} XorCancels(a: seq<Byte>, b: seq<Byte>, k: seq<Byte>)
    requires |a| == |b| == |k|
    ensures Xor(a, k) == Xor(b, k) <==> a == b
  {
    hide XorByte;
    if Xor(a, k) == Xor(b, k) {
      forall i | 0 <= i < |a| ensures a[i] == b[i] {
        assert Xor(a, k)[i] == Xor(b, k)[i];
        XorByteTwice(a[i], k[i]);
        XorByteTwice(b[i], k[i]);
      }
    }
  }

  // ---- big-endian numbers

  function BigEndian(n: nat, width: nat): (s: seq<Byte>)
    ensures |s| == width
  {
    if width == 0 then [] else BigEndian(n / 256, width - 1) + [n % 256]
  }

  function Value(s: seq<Byte>): (r: nat) {
    if s == [] then 0 else 256 * Value(s[..|s| - 1]) + s[|s| - 1]
  }

  lemma {:induction false} ValueOfBigEndian(n: nat, width: nat)
    requires n < Bits.Pow256(width)
    ensures Value(BigEndian(n, width)) == n
  {
    if width > 0 {
      var s := BigEndian(n, width);
      assert s[..|s| - 1] == BigEndian(n / 256, width - 1);
      ValueOfBigEndian(n / 256, width - 1);
    }
  }

  lemma {:induction false} BigEndianInjective(m: nat, n: nat, width: nat)
    requires m < Bits.Pow256(width) && n < Bits.Pow256(width)
    ensures BigEndian(m, width) == BigEndian(n, width) <==> m == n
  {
    ValueOfBigEndian(m, width);
    ValueOfBigEndian(n, width);
  }

  // ---- counter mode

  /** The 96-bit IV followed by a 32-bit counter. */
  function CounterBlock(iv: seq<Byte>, n: nat): (b: Block)
    requires |iv| == 12
  {
    iv + BigEndian(n % WRAP, 4)
  }

  /** Byte `k` of the key stream: the counter starts at 2. */
  function KeyStream(p: Primitives, key: Key, iv: seq<Byte>, k: nat): (r: Byte)
    requires |iv| == 12
  {
    p.enc(key, CounterBlock(iv, 2 + k / 16))[k % 16]
  }

  function Ctr(p: Primitives, key: Key, iv: seq<Byte>, data: seq<Byte>): (r: seq<Byte>)
    requires |iv| == 12
    ensures |r| == |data|
  {
    seq<Byte>(|data|, (k: nat) requires k < |data| => XorByte(data[k], KeyStream(p, key, iv, k)))
  }

  /** Encrypting twice gives the data back. */
  lemma {:induction false} CtrInvolutive(p: Primitives, key: Key, iv: seq<Byte>, data: seq<Byte>)
    requires |iv| == 12
    ensures Ctr(p, key, iv, Ctr(p, key, iv, data)) == data
  {
    forall k | 0 <= k < |data| ensures Ctr(p, key, iv, Ctr(p, key, iv, data))[k] == data[k] {
      XorByteTwice(data[k], KeyStream(p, key, iv, k));
    }
  }

  /** Two counter blocks are equal exactly when their counters agree modulo 2^32. */
  lemma {:induction false} CounterBlocksEqual(iv: seq<Byte>, m: nat, n: nat)
    requires |iv| == 12
    ensures CounterBlock(iv, m) == CounterBlock(iv, n) <==> m % WRAP == n % WRAP
  {
    Bits.Pow256Of4And8();
    BigEndianInjective(m % WRAP, n % WRAP, 4);
    assert CounterBlock(iv, m)[12..] == BigEndian(m % WRAP, 4);
    assert CounterBlock(iv, n)[12..] == BigEndian(n % WRAP, 4);
  }

  /** The counters in the order of their use: J0, then one per block. */
  function CounterAt(iv: seq<Byte>, i: nat): (r: Block)
    requires |iv| == 12
  {
    CounterBlock(iv, 1 + i)
  }

  /** J0 and the counters of `n` blocks are pairwise distinct. */
  ghost predicate CountersFresh(iv: seq<Byte>, n: nat)
    requires |iv| == 12
  {
    forall i: nat, j: nat :: i < j <= n ==> CounterAt(iv, i) != CounterAt(iv, j)
  }

  /** That holds for up to 2^32 - 1 blocks, one more than the standard allows, and for no more. */
  lemma {:induction false} CountersFreshExactly(iv: seq<Byte>, n: nat)
    requires |iv| == 12
    ensures CountersFresh(iv, n) <==> n <= WRAP - 1
  {
    if n <= WRAP - 1 {
      forall i: nat, j: nat | i < j <= n ensures CounterAt(iv, i) != CounterAt(iv, j) {
        CounterBlocksEqual(iv, 1 + i, 1 + j);
        SmallApart(1 + i, 1 + j);
      }
    } else {
      CounterBlocksEqual(iv, 1 + 0, 1 + WRAP);
      assert CounterAt(iv, 0) == CounterAt(iv, WRAP);
    }
  }

  lemma {:induction false} SmallApart(m: nat, n: nat)
    requires m < n < m + WRAP
    ensures m % WRAP != n % WRAP
  {
    var p, q := m / WRAP, n / WRAP;
    assert n - m == (q - p) * WRAP + (n % WRAP - m % WRAP);
  }

  // ---- GHASH

  /** How many zero bytes fill the last block. */
  function Fill(n: nat): (f: nat)
    ensures f < 16 && (n + f) % 16 == 0
  {
    (16 - n % 16) % 16
  }

  function Pad(data: seq<Byte>): (r: seq<Byte>)
    ensures |r| == |data| + Fill(|data|) && |r| % 16 == 0 && data <= r
  {
    data + seq(Fill(|data|), _ => 0)
  }

  /** GHASH of whole blocks (section 6.4): Y_0 = 0 and Y_i = (Y_{i-1} xor X_i) * H. */
  function GhashOf(p: Primitives, h: Block, x: seq<Byte>): (r: Block)
    requires |x| % 16 == 0
  {
    if |x| == 0 then ZERO_BLOCK
    else p.mul(Xor(GhashOf(p, h, x[..|x| - 16]), x[|x| - 16..]), h)
  }

  /** The streaming form, continued from `y`. */
  function GhashFrom(p: Primitives, h: Block, y: Block, x: seq<Byte>): (r: Block)
    requires |x| % 16 == 0
    decreases |x|
  {
    if |x| == 0 then y else GhashFrom(p, h, p.mul(Xor(y, x[..16]), h), x[16..])
  }

  lemma {:induction false} GhashFromAppend(p: Primitives, h: Block, y: Block, a: seq<Byte>, b: seq<Byte>)
    requires |a| % 16 == 0 && |b| % 16 == 0
    ensures GhashFrom(p, h, y, a + b) == GhashFrom(p, h, GhashFrom(p, h, y, a), b)
    decreases |a|
  {
    if |a| == 0 {
      assert a + b == b;
    } else {
      assert (a + b)[..16] == a[..16] && (a + b)[16..] == a[16..] + b;
      GhashFromAppend(p, h, p.mul(Xor(y, a[..16]), h), a[16..], b);
    }
  }

  /** Streaming from zero is GHASH. */
  lemma {:induction false} GhashFromIsGhash(p: Primitives, h: Block, x: seq<Byte>)
    requires |x| % 16 == 0
    ensures GhashFrom(p, h, ZERO_BLOCK, x) == GhashOf(p, h, x)
    decreases |x|
  {
    if |x| > 0 {
      var front, last := x[..|x| - 16], x[|x| - 16..];
      assert front + last == x;
      GhashFromAppend(p, h, ZERO_BLOCK, front, last);
      GhashFromIsGhash(p, h, front);
      assert last[..16] == last && last[16..] == [];
    }
  }

  /** Lengths in bits, as 64-bit big-endian numbers. */
  function LengthBlock(a: nat, c: nat): (r: Block) {
    BigEndian(a * 8 % WORD, 8) + BigEndian(c * 8 % WORD, 8)
  }

  lemma {:induction false} WholeBlocks(a: seq<Byte>, b: seq<Byte>)
    requires |a| % 16 == 0 && |b| % 16 == 0
    ensures |a + b| % 16 == 0
  {
  }

  /** What is authenticated: padded additional data, padded ciphertext, and their lengths. */
  function Authenticated(aad: seq<Byte>, ct: seq<Byte>): (x: seq<Byte>)
    ensures |x| % 16 == 0
  {
    hide Pad;
    WholeBlocks(Pad(aad), Pad(ct));
    WholeBlocks(Pad(aad) + Pad(ct), LengthBlock(|aad|, |ct|));
    Pad(aad) + Pad(ct) + LengthBlock(|aad|, |ct|)
  }

  /** Three streaming calls are one GHASH over the padded input.  Without additional data the first call is
      skipped, which makes no difference. */
  lemma {:induction false} StreamingIsOneGhash(p: Primitives, h: Block, aad: seq<Byte>, ct: seq<Byte>)
    ensures var s1 := if |aad| > 0 then GhashFrom(p, h, ZERO_BLOCK, Pad(aad)) else ZERO_BLOCK;
            var s2 := GhashFrom(p, h, s1, Pad(ct));
            GhashFrom(p, h, s2, LengthBlock(|aad|, |ct|)) == GhashOf(p, h, Authenticated(aad, ct))
  {
    hide Pad, LengthBlock, GhashOf;
    var l := LengthBlock(|aad|, |ct|);
    WholeBlocks(Pad(aad), Pad(ct));
    GhashFromAppend(p, h, ZERO_BLOCK, Pad(aad), Pad(ct));
    GhashFromAppend(p, h, ZERO_BLOCK, Pad(aad) + Pad(ct), l);
    GhashFromIsGhash(p, h, Authenticated(aad, ct));
    if |aad| == 0 {
      PadEmpty(aad);
    }
  }

  lemma {:induction false} PadEmpty(data: seq<Byte>)
    requires |data| == 0
    ensures Pad(data) == []
  {
  }

  lemma {:induction false} SameParts(a: seq<Byte>, b: seq<Byte>, a': seq<Byte>, b': seq<Byte>)
    requires a + b == a' + b' && (|a| == |a'| || |b| == |b'|)
    ensures a == a' && b == b'
  {
    assert |a + b| == |a| + |b| && |a' + b'| == |a'| + |b'|;
    assert (a + b)[..|a|] == a && (a' + b')[..|a'|] == a';
    assert (a + b)[|a|..] == b && (a' + b')[|a'|..] == b';
  }

  lemma {:induction false} LengthBlockInjective(a: nat, c: nat, a': nat, c': nat)
    requires a < WORD / 8 && c < WORD / 8 && a' < WORD / 8 && c' < WORD / 8
    requires LengthBlock(a, c) == LengthBlock(a', c')
    ensures a == a' && c == c'
  {
    hide BigEndian, Bits.Pow256;
    Bits.Pow256Of4And8();
    SameParts(BigEndian(a * 8 % WORD, 8), BigEndian(c * 8 % WORD, 8), BigEndian(a' * 8 % WORD, 8), BigEndian(c' * 8 % WORD, 8));
    BigEndianInjective(a * 8, a' * 8, 8);
    BigEndianInjective(c * 8, c' * 8, 8);
  }

  lemma {:induction false} PadInjective(a: seq<Byte>, b: seq<Byte>)
    requires |a| == |b| && Pad(a) == Pad(b)
    ensures a == b
  {
    assert Pad(a)[..|a|] == a && Pad(b)[..|b|] == b;
  }

  /** Padding loses nothing: different inputs below 2^61 bytes are authenticated as different strings. */
  lemma {:induction false} AuthenticatedInjective(a: seq<Byte>, c: seq<Byte>, a': seq<Byte>, c': seq<Byte>)
    requires |a| < WORD / 8 && |c| < WORD / 8 && |a'| < WORD / 8 && |c'| < WORD / 8
    ensures Authenticated(a, c) == Authenticated(a', c') <==> a == a' && c == c'
  {
    hide Pad, LengthBlock;
    if Authenticated(a, c) == Authenticated(a', c') {
      SameParts(Pad(a) + Pad(c), LengthBlock(|a|, |c|), Pad(a') + Pad(c'), LengthBlock(|a'|, |c'|));
      LengthBlockInjective(|a|, |c|, |a'|, |c'|);
      SameParts(Pad(a), Pad(c), Pad(a'), Pad(c'));
      PadInjective(a, a');
      PadInjective(c, c');
    }
  }

  // ---- authenticated encryption

  function TagOf(p: Primitives, key: Key, iv: seq<Byte>, aad: seq<Byte>, ct: seq<Byte>): (t: Block)
    requires |iv| == 12
  {
    Xor(GhashOf(p, p.enc(key, ZERO_BLOCK), Authenticated(aad, ct)), p.enc(key, CounterBlock(iv, 1)))
  }

  datatype Decrypted = Plain(data: seq<Byte>) | Rejected

  function Encrypt(p: Primitives, key: Key, iv: seq<Byte>, aad: seq<Byte>, data: seq<Byte>): (r: (seq<Byte>, Block))
    requires |iv| == 12
  {
    var ct := Ctr(p, key, iv, data);
    (ct, TagOf(p, key, iv, aad, ct))
  }

  function Decrypt(p: Primitives, key: Key, iv: seq<Byte>, aad: seq<Byte>, ct: seq<Byte>, tag: Block): (r: Decrypted)
    requires |iv| == 12
  {
    if TagOf(p, key, iv, aad, ct) != tag then Rejected else Plain(Ctr(p, key, iv, ct))
  }

  /** Decryption undoes encryption, and takes no other tag. */
  lemma {:induction false} RoundTrip(p: Primitives, key: Key, iv: seq<Byte>, aad: seq<Byte>, data: seq<Byte>,
                                     tag: Block)
    requires |iv| == 12
    ensures var (ct, t) := Encrypt(p, key, iv, aad, data);
            Decrypt(p, key, iv, aad, ct, tag) == if tag == t then Plain(data) else Rejected
  {
    CtrInvolutive(p, key, iv, data);
  }

  /** A changed message with the old tag is taken exactly when its GHASH collides: the key stream of the tag
      cancels. */
  lemma {:induction false} TamperedTakenOnCollision(p: Primitives, key: Key, iv: seq<Byte>, aad: seq<Byte>,
                                                    data: seq<Byte>,
                                                    aad': seq<Byte>, ct': seq<Byte>)
    requires |iv| == 12
    ensures var (ct, t) := Encrypt(p, key, iv, aad, data);
            var h := p.enc(key, ZERO_BLOCK);
            Decrypt(p, key, iv, aad', ct', t).Plain? <==>
              GhashOf(p, h, Authenticated(aad', ct')) == GhashOf(p, h, Authenticated(aad, ct))
  {
    var (ct, t) := Encrypt(p, key, iv, aad, data);
    var h := p.enc(key, ZERO_BLOCK);
    XorCancels(GhashOf(p, h, Authenticated(aad', ct')), GhashOf(p, h, Authenticated(aad, ct)),
               p.enc(key, CounterBlock(iv, 1)));
  }

  // ---- where things stand, byte by byte

  /** Byte `i` from the end is digit `i` in base 256. */
  lemma {:induction false} BigEndianAt(n: nat, width: nat, i: nat)
    requires i < width
    ensures BigEndian(n, width)[width - 1 - i] == n / Bits.Pow256(i) % 256
  {
    if i > 0 {
      BigEndianAt(n / 256, width - 1, i - 1);
      DivTwice(n, Bits.Pow256(i - 1));
    }
  }

  lemma {:induction false} DivTwice(n: nat, b: nat)
    requires b > 0
    ensures n / 256 / b == n / (256 * b)
  {
    var x, s := n / 256, n % 256;
    var q, r := x / b, x % b;
    Parts(x, b);
    Scale256(b, q);
    assert n == (256 * b) * q + (256 * r + s);
    QuotientIs(q, 256 * r + s, 256 * b);
  }

  lemma {:induction false} Parts(n: nat, m: nat)
    requires m > 0
    ensures n == m * (n / m) + n % m && 0 <= n % m < m
  {
  }

  lemma {:induction false} Scale256(b: nat, q: nat)
    ensures (256 * b) * q == 256 * (b * q)
  {
  }

  lemma {:induction false} QuotientIs(q: nat, r: nat, m: nat)
    requires r < m
    ensures (m * q + r) / m == q
  {
    RemainderIs(q, r, m);
    var d := (m * q + r) / m;
    assert m * q + r == m * d + r;
    assert m * (q - d) == 0;
    FactorAtLeastOne(q - d, m);
  }

  /** The counter block: the IV, then the counter with its high byte first. */
  lemma {:induction false} CounterLayout(iv: seq<Byte>, i: nat)
    requires |iv| == 12
    ensures var n := (1 + i) % 0x1_0000_0000;
            CounterAt(iv, i) == iv + [n / 0x100_0000 % 256, n / 0x1_0000 % 256, n / 0x100 % 256, n % 256]
  {
    var n := (1 + i) % WRAP;
    Powers256();
    BigEndianAt(n, 4, 0);
    BigEndianAt(n, 4, 1);
    BigEndianAt(n, 4, 2);
    BigEndianAt(n, 4, 3);
  }

  lemma {:induction false} Powers256()
    ensures Bits.Pow256(0) == 1 && Bits.Pow256(1) == 0x100 && Bits.Pow256(2) == 0x1_0000 && Bits.Pow256(3) == 0x100_0000
  {
  }

  /** The length block: the number of bits of either part in 64 bits, high byte first. */
  lemma {:induction false} LengthLayout(a: nat, c: nat, i: nat)
    requires i < 8
    ensures LengthBlock(a, c)[7 - i] == a * 8 % 0x1_0000_0000_0000_0000 / Bits.Pow256(i) % 256
    ensures LengthBlock(a, c)[15 - i] == c * 8 % 0x1_0000_0000_0000_0000 / Bits.Pow256(i) % 256
  {
    BigEndianAt(a * 8 % WORD, 8, i);
    BigEndianAt(c * 8 % WORD, 8, i);
  }

  /** What is authenticated, byte by byte: the additional data first, zeros up to a multiple of 16, the ciphertext,
      zeros again, and the length block. */
  lemma {:induction false} AuthenticatedLayout(aad: seq<Byte>, ct: seq<Byte>, k: nat)
    ensures var m, n := (|aad| + 15) / 16 * 16, (|ct| + 15) / 16 * 16;
            && |Authenticated(aad, ct)| == m + n + 16
            && (k < m + n + 16 ==>
                  Authenticated(aad, ct)[k] == if k < |aad| then aad[k] else if k < m then 0
                                               else if k < m + |ct| then ct[k - m] else if k < m + n then 0
                                               else LengthBlock(|aad|, |ct|)[k - m - n])
  {
    hide LengthBlock;
    FillsUp(|aad|);
    FillsUp(|ct|);
  }

  lemma {:induction false} FillsUp(n: nat)
    ensures n + Fill(n) == (n + 15) / 16 * 16
  {
  }

  /** GHASH from the first block on: it starts at zero, and each block is added and multiplied by the hash key. */
  lemma {:induction false} GhashSteps(p: Primitives, h: Block, x: seq<Byte>, b: Block)
    requires |x| % 16 == 0
    ensures GhashOf(p, h, []) == seq(16, _ => 0) && |x + b| % 16 == 0
    ensures GhashOf(p, h, x + b) == p.mul(Xor(GhashOf(p, h, x), b), h)
  {
    var y := x + b;
    assert y[..|y| - 16] == x && y[|y| - 16..] == b;
  }

  // ---- which blocks are encrypted

  lemma {:induction false} XorByteComm(a: Byte, b: Byte)
    ensures XorByte(a, b) == XorByte(b, a)
  {
    Bits.XorComm(a, b);
  }

  lemma {:induction false} XorBack(a: seq<Byte>, b: seq<Byte>)
    requires |a| == |b|
    ensures Xor(Xor(a, b), a) == b
  {
    hide XorByte;
    forall i | 0 <= i < |a| ensures Xor(Xor(a, b), a)[i] == b[i] {
      XorByteComm(a[i], b[i]);
      XorByteTwice(b[i], a[i]);
    }
  }

  /** The tag is GHASH, under the encryption of the zero block, masked with the encryption of IV || 0x00000001. */
  lemma {:induction false} TagMask(p: Primitives, key: Key, iv: seq<Byte>, aad: seq<Byte>, ct: seq<Byte>)
    requires |iv| == 12
    ensures Xor(TagOf(p, key, iv, aad, ct), GhashOf(p, p.enc(key, seq(16, _ => 0)), Authenticated(aad, ct)))
            == p.enc(key, iv + [0, 0, 0, 1])
  {
    hide Xor, GhashOf, CounterBlock;
    CounterLayout(iv, 0);
    XorBack(GhashOf(p, p.enc(key, ZERO_BLOCK), Authenticated(aad, ct)), p.enc(key, CounterBlock(iv, 1)));
  }

  /** Byte `k` of the data is masked with byte `k % 16` of the encryption of counter block `1 + k / 16`. */
  lemma {:induction false} DataMask(p: Primitives, key: Key, iv: seq<Byte>, aad: seq<Byte>, data: seq<Byte>, k: nat)
    requires |iv| == 12 && k < |data|
    ensures |Encrypt(p, key, iv, aad, data).0| == |data|
    ensures XorByte(Encrypt(p, key, iv, aad, data).0[k], data[k]) == p.enc(key, CounterAt(iv, 1 + k / 16))[k % 16]
  {
    hide XorByte, TagOf;
    XorByteComm(data[k], KeyStream(p, key, iv, k));
    XorByteTwice(KeyStream(p, key, iv, k), data[k]);
  }

  /** So up to 2^32 - 1 blocks no encryption is used twice: not for two blocks of data, nor for a block of data and
      the tag. */
  lemma {:induction false} MasksFresh(iv: seq<Byte>, n: nat, j: nat, k: nat)
    requires |iv| == 12 && n <= 16 * 0xFFFF_FFFF && j < n && k < n
    ensures CounterAt(iv, 1 + k / 16) != iv + [0, 0, 0, 1]
    ensures CounterAt(iv, 1 + j / 16) == CounterAt(iv, 1 + k / 16) <==> j / 16 == k / 16
  {
    hide CounterAt;
    CounterLayout(iv, 0);
    CountersFreshExactly(iv, 0xFFFF_FFFF);
    assert CounterAt(iv, 0) != CounterAt(iv, 1 + k / 16);
    if j / 16 < k / 16 {
      assert CounterAt(iv, 1 + j / 16) != CounterAt(iv, 1 + k / 16);
    }
    if k / 16 < j / 16 {
      assert CounterAt(iv, 1 + k / 16) != CounterAt(iv, 1 + j / 16);
    }
  }

  /** The block whose encryption is the hash key is among them only for the zero IV, and there only as the last of
      2^32 - 1 blocks of data. */
  lemma {:induction false} HashKeyFresh(iv: seq<Byte>, i: nat)
    requires |iv| == 12 && i <= 0xFFFF_FFFF
    ensures CounterAt(iv, i) == seq(16, _ => 0) <==> iv == seq(12, _ => 0) && i == 0xFFFF_FFFF
  {
    var n := (1 + i) % 0x1_0000_0000;
    CounterLayout(iv, i);
    var b := CounterAt(iv, i);
    assert b[..12] == iv;
    if b == seq(16, _ => 0) {
      assert b[12] == 0 && b[13] == 0 && b[14] == 0 && b[15] == 0;
      assert iv == seq(12, _ => 0);
    }
    if n == 0 {
      assert iv == seq(12, _ => 0) ==> b == seq(16, _ => 0);
    }
  }
}
