/** The 64-bit words of the kernel's bitmaps.  A word is the sequence of its bits, least significant
    first, so `w & (1ULL << b)` tests `w[b]`, `w |= 1ULL << b` is `w[b := true]` and
    `w &= ~(1ULL << b)` is `w[b := false]`. */
module Words {
  type Word = w: seq<bool> | |w| == 64 witness seq(64, _ => false)

  const ZERO: Word := seq(64, _ => false)
  const ALL_ONES: Word := seq(64, _ => true)

  function LowestFrom(w: Word, v: bool, b: nat): (r: nat)
    requires b <= 64
    ensures b <= r <= 64
    ensures r < 64 ==> w[r] == v
    ensures forall c :: b <= c < r ==> w[c] != v
    decreases 64 - b
  {
    if b == 64 || w[b] == v then b else LowestFrom(w, v, b + 1)
  }

  /** `__builtin_ctzll(w)`: the index of the lowest set bit of a nonzero word. */
  function Ctz(w: Word): (r: nat)
    requires w != ZERO
    ensures r < 64 && w[r]
    ensures forall c :: 0 <= c < r ==> !w[c]
  {
    var r := LowestFrom(w, true, 0);
    assert r == 64 ==> w == ZERO;
    r
  }

  /** `__builtin_ctzll(~w)`: the index of the lowest clear bit of a word that is not all ones. */
  function CtzNot(w: Word): (r: nat)
    requires w != ALL_ONES
    ensures r < 64 && !w[r]
    ensures forall c :: 0 <= c < r ==> w[c]
  {
    var r := LowestFrom(w, false, 0);
    assert r == 64 ==> w == ALL_ONES;
    r
  }

}
