/**
 Binary cells and the integer/bit conversions both automaton engines rely on:
 the zero-padded binary expansion `format(n, '08b')`, the reverse conversion
 `int(''.join(map(str, bits)), 2)`, Python's `(n >> k) & 1`, and the
 cell-wise exclusive or of two rows.
 */
module Bits {

  /** A cell of an automaton row, or one binary digit. */
  type Bit = b: int | 0 <= b <= 1

  /** 2 to the power k. */
  function Pow2(k: nat): (p: nat)
    ensures p >= 1
  {
    if k == 0 then 1 else 2 * Pow2(k - 1)
  }

  /** Bit k of n, the least significant being bit 0: Python's `(n >> k) & 1`,
      with the shift written as k halvings. For negative n both Python's shift
      and Dafny's division by 2 round towards minus infinity, so this reads
      n's two's-complement expansion. */
  function BitOf(n: int, k: nat): Bit
    decreases k
  {
    if k == 0 then n % 2 else BitOf(n / 2, k - 1)
  }

  /** `format(n, '0kb')` for n < 2^k: the k binary digits of n, most significant first. */
  function ToBinary(n: nat, k: nat): (digits: seq<Bit>)
    requires n < Pow2(k)
    ensures |digits| == k
  {
    if k == 0 then [] else ToBinary(n / 2, k - 1) + [n % 2]
  }

  /** `int(''.join(map(str, bits)), 2)`: the number the digits spell, most significant first. */
  function BitsValue(bits: seq<Bit>): (v: nat)
    ensures v < Pow2(|bits|)
  {
    if bits == [] then 0 else 2 * BitsValue(bits[..|bits| - 1]) + bits[|bits| - 1]
  }

  /** The digits in the opposite order. */
  function Reverse(bits: seq<Bit>): (r: seq<Bit>)
    ensures |r| == |bits|
    ensures forall i :: 0 <= i < |bits| ==> r[i] == bits[|bits| - 1 - i]
  {
    if bits == [] then [] else Reverse(bits[1..]) + [bits[0]]
  }

  /** numpy's `logical_xor(a, b).astype(int)` on two rows of equal width. */
  function Xor(a: seq<Bit>, b: seq<Bit>): (c: seq<Bit>)
    requires |a| == |b|
    ensures |c| == |a|
    ensures forall i :: 0 <= i < |c| ==> (c[i] == 1 <==> a[i] != b[i])
  {
    seq(|a|, i requires 0 <= i < |a| => if a[i] == b[i] then 0 else 1)
  }

  /** A row of w dead cells: `np.zeros(w, dtype=int)`. */
  function Zeros(w: nat): (row: seq<Bit>)
    ensures |row| == w
    ensures forall i :: 0 <= i < w ==> row[i] == 0
  {
    seq(w, _ => 0)
  }

  /** The number of live cells of a row. */
  function CountOnes(row: seq<Bit>): (n: nat)
    ensures n <= |row|
  {
    if row == [] then 0 else row[0] + CountOnes(row[1..])
  }

  /** `(i - 1) % w`: the left neighbour of cell i on a circular row of width w. */
  function Prev(i: nat, w: nat): (j: nat)
    requires i < w
    ensures j == if i == 0 then w - 1 else i - 1
  {
    (i - 1) % w
  }

  /** `(i + 1) % w`: the right neighbour of cell i on a circular row of width w. */
  function Next(i: nat, w: nat): (j: nat)
    requires i < w
    ensures j == if i == w - 1 then 0 else i + 1
  {
    (i + 1) % w
  }

  /** The neighbourhood value `4 * left + 2 * center + right`, written
      `(left << 2) | (center << 1) | right` in the web generator. */
  function Index(left: Bit, center: Bit, right: Bit): (n: nat)
    ensures n < 8
  {
    4 * (left as int) + 2 * (center as int) + right
  }

  // ---------------------------------------------------------------------------
  // The binary expansion and its inverse

  /** Reading `format(n, '0kb')` at position k - 1 - j gives bit j of n. */
  lemma {:induction false} ToBinaryDigit(n: nat, k: nat, j: nat)
    requires n < Pow2(k) && j < k
    ensures ToBinary(n, k)[k - 1 - j] == BitOf(n, j)
  {
    if j > 0 {
      ToBinaryDigit(n / 2, k - 1, j - 1);
    }
  }

  /** Parsing the binary expansion of n gives n back. */
  lemma {:induction false} BitsValueOfToBinary(n: nat, k: nat)
    requires n < Pow2(k)
    ensures BitsValue(ToBinary(n, k)) == n
  {
    if k > 0 {
      var digits := ToBinary(n, k);
      assert digits[..k - 1] == ToBinary(n / 2, k - 1);
      BitsValueOfToBinary(n / 2, k - 1);
    }
  }

  /** Expanding the value of a digit string to as many digits gives the string back. */
  lemma {:induction false} ToBinaryOfBitsValue(bits: seq<Bit>)
    ensures ToBinary(BitsValue(bits), |bits|) == bits
  {
    if bits != [] {
      var init, last := bits[..|bits| - 1], bits[|bits| - 1];
      ToBinaryOfBitsValue(init);
      assert bits == init + [last];
    }
  }

  /** Exclusive or with the same row twice cancels. */
  lemma XorCancels(a: seq<Bit>, b: seq<Bit>)
    requires |a| == |b|
    ensures Xor(Xor(a, b), b) == a
  {
  }

}
