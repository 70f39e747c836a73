/** Disk blocks of CrimsonFS, and pointer blocks as they lie on disk: 512 little-endian 64-bit words. */
module Blocks {
  import opened Bits

  type Byte = b: int | 0 <= b < 256
  type Ptr = p: int | 0 <= p < 0x1_0000_0000_0000_0000

  const BLOCK: nat := 4096
  const PTRS: nat := 512

  type Block = b: seq<Byte> | |b| == BLOCK witness seq(BLOCK, _ => 0)
  type Ptrs = p: seq<Ptr> | |p| == PTRS witness seq(PTRS, _ => 0)

  const ZERO_BLOCK: Block := seq(BLOCK, _ => 0)
  const ZERO_PTRS: Ptrs := seq(PTRS, _ => 0)

  /** The `n` low bytes of a word, low byte first. */
  function ToBytes(p: int, n: nat): (s: seq<Byte>)
    requires p >= 0
    ensures |s| == n
  {
    if n == 0 then [] else [p % 256] + ToBytes(p / 256, n - 1)
  }

  function FromBytes(s: seq<Byte>): (p: int)
    ensures p >= 0
  {
    if s == [] then 0 else s[0] + 256 * FromBytes(s[1..])
  }

  lemma {:induction false} WordRoundTrip(p: int, n: nat)
    requires 0 <= p < Pow256(n)
    ensures FromBytes(ToBytes(p, n)) == p
  {
    if n > 0 {
      WordRoundTrip(p / 256, n - 1);
      assert ToBytes(p, n)[1..] == ToBytes(p / 256, n - 1);
    }
  }

  lemma {:induction false} FromBytesBound(s: seq<Byte>)
    ensures FromBytes(s) < Pow256(|s|)
  {
    if s != [] {
      FromBytesBound(s[1..]);
    }
  }

  function Word(s: seq<Byte>): (r: Ptr)
    requires |s| == 8
  {
    FromBytesBound(s);
    Pow256Of4And8();
    FromBytes(s)
  }

  function EncodeSeq(p: seq<Ptr>): (s: seq<Byte>)
    ensures |s| == 8 * |p|
  {
    if p == [] then [] else ToBytes(p[0], 8) + EncodeSeq(p[1..])
  }

  function DecodeSeq(s: seq<Byte>): (p: seq<Ptr>)
    requires |s| % 8 == 0
    ensures |p| == |s| / 8
  {
    if s == [] then [] else [Word(s[..8])] + DecodeSeq(s[8..])
  }

  lemma {:induction false} SeqRoundTrip(p: seq<Ptr>)
    ensures DecodeSeq(EncodeSeq(p)) == p
  {
    if p != [] {
      var s := EncodeSeq(p);
      assert s[..8] == ToBytes(p[0], 8) && s[8..] == EncodeSeq(p[1..]);
      Pow256Of4And8();
      WordRoundTrip(p[0], 8);
      SeqRoundTrip(p[1..]);
    }
  }

  /** A pointer block as written to disk, and as read back. */
  function Encode(p: Ptrs): (r: Block) {
    EncodeSeq(p)
  }

  function Decode(b: Block): (r: Ptrs) {
    DecodeSeq(b)
  }

  lemma {:induction false} WordBytes(s: seq<Byte>)
    requires |s| == 8
    ensures Word(s) == s[0] + (s[1] as int) * 0x100 + (s[2] as int) * 0x1_0000 + (s[3] as int) * 0x100_0000
                       + (s[4] as int) * 0x1_0000_0000 + (s[5] as int) * 0x100_0000_0000
                       + (s[6] as int) * 0x1_0000_0000_0000 + (s[7] as int) * 0x100_0000_0000_0000
  {
    FourBytes(s);
    FourBytes(s[4..]);
    assert s[4..][4..] == [] && FromBytes([]) == 0;
  }

  lemma {:induction false} FourBytes(s: seq<Byte>)
    requires |s| >= 4
    ensures FromBytes(s) == s[0] + (s[1] as int) * 0x100 + (s[2] as int) * 0x1_0000 + (s[3] as int) * 0x100_0000
                            + 0x1_0000_0000 * FromBytes(s[4..])
  {
    var s1, s2, s3 := s[1..], s[2..], s[3..];
    assert s1[1..] == s2 && s2[1..] == s3 && s3[1..] == s[4..];
    assert FromBytes(s) == s[0] + 256 * FromBytes(s1);
    assert FromBytes(s1) == s[1] + 256 * FromBytes(s2);
    assert FromBytes(s2) == s[2] + 256 * FromBytes(s3);
  }

  lemma {:induction false} SliceOfRest(s: seq<Byte>, i: nat)
    requires 0 < i && 8 * i + 8 <= |s|
    ensures s[8..][8 * (i - 1)..8 * (i - 1) + 8] == s[8 * i..8 * i + 8]
  {
  }

  lemma {:induction false} DecodedWord(s: seq<Byte>, i: nat)
    requires |s| % 8 == 0 && 8 * i < |s|
    ensures DecodeSeq(s)[i] == Word(s[8 * i..8 * i + 8])
    decreases i
  {
    hide Word;
    if i > 0 {
      DecodedWord(s[8..], i - 1);
      SliceOfRest(s, i);
    }
  }

  /** Pointer `i` of a block is its eight bytes from offset `8 * i` on, the low byte first. */
  lemma {:induction false} PointerBytes(b: Block, i: nat)
    requires i < 512
    ensures Decode(b)[i] == b[8 * i] + (b[8 * i + 1] as int) * 0x100 + (b[8 * i + 2] as int) * 0x1_0000
                            + (b[8 * i + 3] as int) * 0x100_0000
                            + (b[8 * i + 4] as int) * 0x1_0000_0000 + (b[8 * i + 5] as int) * 0x100_0000_0000
                            + (b[8 * i + 6] as int) * 0x1_0000_0000_0000 + (b[8 * i + 7] as int) * 0x100_0000_0000_0000
  {
    hide Word, DecodeSeq;
    var s := b[8 * i..8 * i + 8];
    DecodedWord(b, i);
    WordBytes(s);
    assert forall k :: 0 <= k < 8 ==> s[k] == b[8 * i + k];
  }

  lemma {:induction false} RoundTrip(p: Ptrs)
    ensures Decode(Encode(p)) == p
  {
    SeqRoundTrip(p);
  }
}
