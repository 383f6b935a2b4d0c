/**
 * `uint32_t` and `uint8_t` as the sequences of their bits, least significant first, with the
 * operations of C on them.
 */
module Words {

  type Word = p: seq<bool> | |p| == 32 witness seq(32, _ => false)

  type Byte = b: seq<bool> | |b| == 8 witness seq(8, _ => false)

  const ZERO: Word := seq(32, _ => false)
  const ALL_ONES: Word := seq(32, _ => true)

  function Xor(p: Word, q: Word): (r: Word)
    ensures forall i :: 0 <= i < 32 ==> r[i] == (p[i] != q[i])
  {
    seq(32, i requires 0 <= i < 32 => p[i] != q[i])
  }

  /** `p << n` */
  function Shl(p: Word, n: nat): (r: Word)
    ensures forall i :: 0 <= i < 32 ==> r[i] == (i >= n && p[i - n])
  {
    seq(32, i requires 0 <= i < 32 => i >= n && p[i - n])
  }

  /** `p >> n` */
  function Shr(p: Word, n: nat): (r: Word)
    ensures forall i :: 0 <= i < 32 ==> r[i] == (i + n < 32 && p[i + n])
  {
    seq(32, i requires 0 <= i < 32 => i + n < 32 && p[i + n])
  }

  /** `p & ((1ull << w) - 1)` */
  function Low(p: Word, w: nat): (r: Word)
    ensures forall i :: 0 <= i < 32 ==> r[i] == (i < w && p[i])
  {
    seq(32, i requires 0 <= i < 32 => i < w && p[i])
  }

  /** `p | (1u << k)` */
  function SetBit(p: Word, k: nat): (r: Word)
    requires k < 32
    ensures forall i :: 0 <= i < 32 ==> r[i] == (i == k || p[i])
  {
    p[k := true]
  }

  /** A byte promoted to 32 bits. */
  function Widen(b: Byte): (r: Word)
    ensures forall i :: 0 <= i < 32 ==> r[i] == (i < 8 && b[i])
  {
    seq(32, i requires 0 <= i < 32 => i < 8 && b[i])
  }

  /** A word cut to `uint8_t`. */
  function Narrow(p: Word): (b: Byte) { p[..8] }

  /** The low `n` bits in the opposite order. */
  function Reflect(p: Word, n: nat): (r: Word)
    requires n <= 32
    ensures forall i :: 0 <= i < 32 ==> r[i] == (i < n && p[n - 1 - i])
  {
    seq(32, i requires 0 <= i < 32 => i < n && p[n - 1 - i])
  }

  lemma ShlShl(p: Word, m: nat, n: nat)
    ensures Shl(Shl(p, m), n) == Shl(p, m + n)
  {
  }

  lemma ShlXor(p: Word, q: Word, n: nat)
    ensures Shl(Xor(p, q), n) == Xor(Shl(p, n), Shl(q, n))
  {
  }

  lemma XorSwap(a: Word, b: Word, c: Word)
    ensures Xor(Xor(a, b), c) == Xor(Xor(a, c), b)
  {
  }
}
