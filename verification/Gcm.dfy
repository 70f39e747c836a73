/** aes_gcm_encrypt and aes_gcm_decrypt of crypto_stub.c over byte arrays. */
module Gcm {
  import opened GcmSpec
  import Bits

  /** `a << 24 | b << 16 | c << 8 | d`. */
  function Quad(a: nat, b: nat, c: nat, d: nat): (r: nat) {
    a * 0x100_0000 + b * 0x1_0000 + c * 0x100 + d
  }

  lemma {:induction false} Value4(s: seq<Byte>)
    requires |s| == 4
    ensures Value(s) == Quad(s[0], s[1], s[2], s[3])
  {
    assert Value(s[..1]) == s[0] by { assert s[..1][..0] == []; }
    assert Value(s[..2]) == Quad(0, 0, s[0], s[1]) by { assert s[..2][..1] == s[..1]; }
    assert Value(s[..3]) == Quad(0, s[0], s[1], s[2]) by { assert s[..3][..2] == s[..2]; }
    assert s[..3] == s[..|s| - 1];
  }

  lemma {:induction false} BigEndian4(n: nat)
    ensures BigEndian(n, 4) == [n / 0x100_0000 % 256, n / 0x1_0000 % 256, n / 0x100 % 256, n % 256]
  {
    assert BigEndian(n / 0x100_0000, 1) == [n / 0x100_0000 % 256];
    assert n / 0x1_0000 / 256 == n / 0x100_0000 && n / 0x100 / 256 == n / 0x1_0000;
    assert BigEndian(n / 0x1_0000, 2) == BigEndian(n / 0x100_0000, 1) + [n / 0x1_0000 % 256];
    assert BigEndian(n / 0x100, 3) == BigEndian(n / 0x1_0000, 2) + [n / 0x100 % 256];
  }

  lemma {:induction false} BigEndian8(n: nat)
    ensures BigEndian(n, 8) == [n / 0x100_0000_0000_0000 % 256, n / 0x1_0000_0000_0000 % 256,
                                n / 0x100_0000_0000 % 256, n / 0x1_0000_0000 % 256,
                                n / 0x100_0000 % 256, n / 0x1_0000 % 256, n / 0x100 % 256, n % 256]
  {
    var m := n / 0x1_0000_0000;
    BigEndian4(m);
    assert m / 0x100_0000 == n / 0x100_0000_0000_0000 && m / 0x1_0000 == n / 0x1_0000_0000_0000
           && m / 0x100 == n / 0x100_0000_0000;
    assert n / 0x100_0000 / 256 == m && n / 0x1_0000 / 256 == n / 0x100_0000 && n / 0x100 / 256 == n / 0x1_0000;
    assert BigEndian(n / 0x100_0000, 5) == BigEndian(m, 4) + [n / 0x100_0000 % 256];
    assert BigEndian(n / 0x1_0000, 6) == BigEndian(n / 0x100_0000, 5) + [n / 0x1_0000 % 256];
    assert BigEndian(n / 0x100, 7) == BigEndian(n / 0x1_0000, 6) + [n / 0x100 % 256];
  }

  lemma {:induction false} SuccWraps(n: nat)
    ensures (n % WRAP + 1) % WRAP == (n + 1) % WRAP
  {
    var q := n / WRAP;
    assert n == q * WRAP + n % WRAP;
  }

  /** gcm_inc32: the next counter block. */
  method Inc32(ctr: array<Byte>, ghost iv: seq<Byte>, ghost n: nat)
    requires ctr.Length == 16 && |iv| == 12 && ctr[..] == CounterBlock(iv, n)
    modifies ctr
    ensures ctr[..] == CounterBlock(iv, n + 1)
  {
    hide BigEndian, Value, Bits.Pow256;
    assert ctr[..12] == iv && ctr[12..] == BigEndian(n % WRAP, 4);
    Bits.Pow256Of4And8();
    ValueOfBigEndian(n % WRAP, 4);
    Value4(ctr[12..]);
    var c := Quad(ctr[12], ctr[13], ctr[14], ctr[15]);
    c := (c + 1) % WRAP;
    SuccWraps(n);
    BigEndian4(c);
    ctr[12] := c / 0x100_0000 % 256;
    ctr[13] := c / 0x1_0000 % 256;
    ctr[14] := c / 0x100 % 256;
    ctr[15] := c % 256;
    assert ctr[..] == iv + ctr[12..];
  }

  /** `x := (x ^ block) * H`, with the block read from `data` at `from`. */
  method Absorb(p: Primitives, h: Block, x: array<Byte>, block: Block)
    requires x.Length == 16
    modifies x
    ensures x[..] == p.mul(Xor(old(x[..]), block), h)
  {
    var mixed := new Byte[16];
    for j := 0 to 16
      invariant x[..] == old(x[..])
      invariant forall k :: 0 <= k < j ==> mixed[k] == XorByte(x[k], block[k])
    {
      mixed[j] := XorByte(x[j], block[j]);
    }
    assert mixed[..] == Xor(old(x[..]), block);
    var product := p.mul(mixed[..], h);
    forall k | 0 <= k < 16 {
      x[k] := product[k];
    }
    assert x[..] == product;
  }

  /** ghash: absorb the data block by block, the last one filled with zeros. */
  method Ghash(p: Primitives, h: Block, data: seq<Byte>, x: array<Byte>)
    requires x.Length == 16
    modifies x
    ensures x[..] == GhashFrom(p, h, old(x[..]), Pad(data))
  {
    hide Pad, GhashFrom;
    var blocks, rem := |data| / 16, |data| % 16;
    PadBlocks(data);
    GhashNone(p, h, x[..]);
    ghost var padded := Pad(data);
    assert Pad(data)[..0] == [];
    for i := 0 to blocks
      invariant x[..] == GhashFrom(p, h, old(x[..]), padded[..16 * i])
    {
      var block := data[16 * i..16 * (i + 1)];
      NextBlock(p, h, old(x[..]), padded, i);
      Absorb(p, h, x, block);
    }
    if rem > 0 {
      var block := data[16 * blocks..] + seq(16 - rem, _ => 0);
      NextBlock(p, h, old(x[..]), padded, blocks);
      assert padded[..16 * (blocks + 1)] == padded;
      Absorb(p, h, x, block);
    } else {
      assert padded[..16 * blocks] == padded;
    }
  }

  /** The blocks of the padded data: whole blocks of the data, then the filled one. */
  lemma {:induction false} PadBlocks(data: seq<Byte>)
    ensures var blocks, rem := |data| / 16, |data| % 16;
            && |Pad(data)| == 16 * (blocks + if rem > 0 then 1 else 0)
            && (forall i: nat :: i < blocks ==> Pad(data)[16 * i..16 * (i + 1)] == data[16 * i..16 * (i + 1)])
            && (rem > 0 ==> Pad(data)[16 * blocks..16 * (blocks + 1)] == data[16 * blocks..] + seq(16 - rem, _ => 0))
  {
    var blocks, rem := |data| / 16, |data| % 16;
    assert |data| == 16 * blocks + rem;
    forall i: nat | i < blocks ensures Pad(data)[16 * i..16 * (i + 1)] == data[16 * i..16 * (i + 1)] {
      assert 16 * (i + 1) <= |data|;
    }
  }

  lemma {:induction false} GhashNone(p: Primitives, h: Block, y: Block)
    ensures GhashFrom(p, h, y, []) == y
  {
  }

  lemma {:induction false} NextBlock(p: Primitives, h: Block, y: Block, padded: seq<Byte>, i: nat)
    requires 16 * (i + 1) <= |padded|
    ensures GhashFrom(p, h, y, padded[..16 * (i + 1)]) ==
            p.mul(Xor(GhashFrom(p, h, y, padded[..16 * i]), padded[16 * i..16 * (i + 1)]), h)
  {
    var front, block := padded[..16 * i], padded[16 * i..16 * (i + 1)];
    assert padded[..16 * (i + 1)] == front + block;
    GhashFromAppend(p, h, y, front, block);
    assert block[..16] == block && block[16..] == [];
  }

  /** The counter-mode loop of both functions.  `input` and `output` may be the same array. */
  method CtrLoop(p: Primitives, key: Key, iv: seq<Byte>, input: array<Byte>, len: nat, output: array<Byte>)
    requires |iv| == 12 && len <= input.Length && len <= output.Length
    modifies output
    ensures output[..len] == Ctr(p, key, iv, old(input[..len]))
    ensures output[len..] == old(output[len..])
  {
    hide CounterBlock, KeyStream, XorByte;
    var ctr := new Byte[16](i requires 0 <= i < 16 => if i < 12 then iv[i] else if i == 15 then 1 else 0);
    FirstCounter(iv);
    assert ctr[..] == CounterBlock(iv, 1);
    Inc32(ctr, iv, 1);
    var done := 0;
    ghost var b := 0;
    while done < len
      invariant done == if 16 * b < len then 16 * b else len
      invariant ctr[..] == CounterBlock(iv, 2 + b)
      invariant forall k :: 0 <= k < done ==> output[k] == XorByte(old(input[k]), KeyStream(p, key, iv, k))
      invariant forall k :: done <= k < len ==> input[k] == old(input[k])
      invariant forall k :: len <= k < output.Length ==> output[k] == old(output[k])
    {
      var keystream := p.enc(key, ctr[..]);
      var n := if len - done > 16 then 16 else len - done;
      for i := 0 to n
        invariant ctr[..] == CounterBlock(iv, 2 + b)
        invariant forall k :: 0 <= k < done + i ==> output[k] == XorByte(old(input[k]), KeyStream(p, key, iv, k))
        invariant forall k :: done + i <= k < len ==> input[k] == old(input[k])
        invariant forall k :: len <= k < output.Length ==> output[k] == old(output[k])
      {
        KeyStreamAt(p, key, iv, b, i);
        output[done + i] := XorByte(input[done + i], keystream[i]);
      }
      done := done + n;
      Inc32(ctr, iv, 2 + b);
      b := b + 1;
    }
  }

  lemma {:induction false} KeyStreamAt(p: Primitives, key: Key, iv: seq<Byte>, b: nat, i: nat)
    requires |iv| == 12 && i < 16
    ensures KeyStream(p, key, iv, 16 * b + i) == p.enc(key, CounterBlock(iv, 2 + b))[i]
  {
    assert (16 * b + i) / 16 == b && (16 * b + i) % 16 == i;
  }

  /** IV || 0x00000001. */
  lemma {:induction false} FirstCounter(iv: seq<Byte>)
    requires |iv| == 12
    ensures CounterBlock(iv, 1) == iv + [0, 0, 0, 1]
  {
    BigEndian4(1);
  }

  /** The three GHASH calls and the encryption of J0, shared by both functions. */
  method ComputeTag(p: Primitives, key: Key, iv: seq<Byte>, aad: seq<Byte>, ct: seq<Byte>) returns (tag: seq<Byte>)
    requires |iv| == 12
    ensures tag == TagOf(p, key, iv, aad, ct)
  {
    var h := p.enc(key, ZERO_BLOCK);
    var state := new Byte[16](_ => 0);
    assert state[..] == ZERO_BLOCK;
    if |aad| > 0 {
      Ghash(p, h, aad, state);
    }
    Ghash(p, h, ct, state);
    var aadBits, ctBits := |aad| * 8 % WORD, |ct| * 8 % WORD;
    var lengths := [aadBits / 0x100_0000_0000_0000 % 256, aadBits / 0x1_0000_0000_0000 % 256,
                    aadBits / 0x100_0000_0000 % 256, aadBits / 0x1_0000_0000 % 256,
                    aadBits / 0x100_0000 % 256, aadBits / 0x1_0000 % 256, aadBits / 0x100 % 256, aadBits % 256,
                    ctBits / 0x100_0000_0000_0000 % 256, ctBits / 0x1_0000_0000_0000 % 256,
                    ctBits / 0x100_0000_0000 % 256, ctBits / 0x1_0000_0000 % 256,
                    ctBits / 0x100_0000 % 256, ctBits / 0x1_0000 % 256, ctBits / 0x100 % 256, ctBits % 256];
    assert lengths == LengthBlock(|aad|, |ct|) by {
      BigEndian8(aadBits);
      BigEndian8(ctBits);
    }
    PadWhole(lengths);
    Ghash(p, h, lengths, state);
    StreamingIsOneGhash(p, h, aad, ct);
    FirstCounter(iv);
    var keystream := p.enc(key, iv + [0, 0, 0, 1]);
    tag := Xor(state[..], keystream);
  }

  lemma {:induction false} PadWhole(data: seq<Byte>)
    requires |data| % 16 == 0
    ensures Pad(data) == data
  {
  }

  /** aes_gcm_encrypt. */
  method AesGcmEncrypt(p: Primitives, plaintext: array<Byte>, len: nat, aad: seq<Byte>, key: Key, iv: seq<Byte>,
                       ciphertext: array<Byte>, tag: array<Byte>)
    requires |iv| == 12 && len <= plaintext.Length && len <= ciphertext.Length
    requires tag.Length == 16 && tag != ciphertext
    modifies ciphertext, tag
    ensures (ciphertext[..len], tag[..]) == Encrypt(p, key, iv, aad, old(plaintext[..len]))
    ensures ciphertext[len..] == old(ciphertext[len..])
  {
    CtrLoop(p, key, iv, plaintext, len, ciphertext);
    var t := ComputeTag(p, key, iv, aad, ciphertext[..len]);
    for i := 0 to 16
      invariant ciphertext[..len] == Ctr(p, key, iv, old(plaintext[..len]))
      invariant ciphertext[len..] == old(ciphertext[len..])
      invariant tag[..i] == t[..i]
    {
      tag[i] := t[i];
    }
    assert tag[..] == tag[..16] == t[..16] == t;
  }

  /** The tag comparison: all bytes are looked at, and the differences collected. */
  method TagsDiffer(a: seq<Byte>, b: seq<Byte>) returns (diff: nat)
    requires |a| == |b| == 16
    ensures diff == 0 <==> a == b
  {
    diff := 0;
    for i := 0 to 16
      invariant diff == 0 <==> a[..i] == b[..i]
    {
      Bits.OrIsZero(diff, XorByte(a[i], b[i]));
      Bits.XorZero(a[i], b[i]);
      assert a[..i + 1] == a[..i] + [a[i]] && b[..i + 1] == b[..i] + [b[i]];
      diff := Bits.Or(diff, XorByte(a[i], b[i]));
    }
    assert a[..16] == a && b[..16] == b;
  }

  /** aes_gcm_decrypt: 0 and the plaintext, or -1 and the output untouched. */
  method AesGcmDecrypt(p: Primitives, ciphertext: array<Byte>, len: nat, aad: seq<Byte>, key: Key, iv: seq<Byte>,
                       tag: Block, plaintext: array<Byte>) returns (r: int)
    requires |iv| == 12 && len <= ciphertext.Length && len <= plaintext.Length
    modifies plaintext
    ensures r == match Decrypt(p, key, iv, aad, old(ciphertext[..len]), tag) case Plain(_) => 0 case Rejected => -1
    ensures plaintext[..] == match Decrypt(p, key, iv, aad, old(ciphertext[..len]), tag)
                             case Plain(data) => data + old(plaintext[len..])
                             case Rejected => old(plaintext[..])
  {
    var expected := ComputeTag(p, key, iv, aad, ciphertext[..len]);
    var diff := TagsDiffer(expected, tag);
    if diff != 0 {
      return -1;
    }
    CtrLoop(p, key, iv, ciphertext, len, plaintext);
    assert plaintext[..] == plaintext[..len] + plaintext[len..];
    r := 0;
  }
}
