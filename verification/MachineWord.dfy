/**
 * A machine word (`size_t`) as the masking routines of frame.hpp use it.
 *
 * A word is the sequence of its base-256 digits, least significant digit first, so that the word size
 * (4 or 8 bytes) stays a parameter.  Its bytes in memory are those digits in the byte order of the machine.
 * The routines shift by whole bytes only, which on digits drops digits at one end and pads the other with zeros.
 * The lemmas at the end show that these are the shifts of the unsigned integer the digits stand for.
 */
module MachineWord {

  type Word = seq<bv8>

  datatype Machine = Machine(wordSize: nat, littleEndian: bool) {
    /** "Machine word size must be 4 or 8." */
    predicate Supported() {
      wordSize == 4 || wordSize == 8
    }

    /** `i % sizeof(size_t)`, with the two word sizes as literals. */
    function Slot(i: nat): (r: nat)
      requires Supported()
      ensures r < wordSize
    {
      if wordSize == 8 then i % 8 else i % 4
    }

    /** `n * sizeof(size_t)` */
    function Bytes(n: nat): nat
      requires Supported()
    {
      if wordSize == 8 then 8 * n else 4 * n
    }

    /** `length / sizeof(size_t)` */
    function WholeWords(length: nat): (n: nat)
      requires Supported()
      ensures Bytes(n) <= length && length - Bytes(n) == Slot(length)
    {
      if wordSize == 8 then length / 8 else length / 4
    }
  }

  lemma Mod8(n: nat, k: nat)
    requires n % 8 == 0 && k < 8
    ensures (n + k) % 8 == k && (n + 8) % 8 == 0
  {
  }

  lemma Mod4(n: nat, k: nat)
    requires n % 4 == 0 && k < 4
    ensures (n + k) % 4 == k && (n + 4) % 4 == 0
  {
  }

  /** From the start of a word the slots count up. */
  lemma SlotAfter(m: Machine, start: nat, k: nat)
    requires m.Supported() && m.Slot(start) == 0 && k < m.wordSize
    ensures m.Slot(start + k) == k
  {
    if m.wordSize == 8 {
      Mod8(start, k);
    } else {
      Mod4(start, k);
    }
  }

  function Zeros(n: nat): Word {
    seq(n, _ => 0)
  }

  function Reversed(s: seq<bv8>): (r: seq<bv8>)
    ensures |r| == |s|
  {
    seq(|s|, i requires 0 <= i < |s| => s[|s| - 1 - i])
  }

  function Xor(a: seq<bv8>, b: seq<bv8>): (r: seq<bv8>)
    requires |a| == |b|
    ensures |r| == |a|
  {
    seq(|a|, i requires 0 <= i < |a| => a[i] ^ b[i])
  }

  function Or(a: Word, b: Word): Word
    requires |a| == |b|
  {
    seq(|a|, i requires 0 <= i < |a| => a[i] | b[i])
  }

  /** `w << 8 * k` */
  function ShiftLeft(w: Word, k: nat): Word
    requires k <= |w|
  {
    Zeros(k) + w[..|w| - k]
  }

  /** `w >> 8 * k` */
  function ShiftRight(w: Word, k: nat): Word
    requires k <= |w|
  {
    w[k..] + Zeros(k)
  }

  /** The word a machine reads from memory bytes. */
  function Load(m: Machine, memory: seq<bv8>): (w: Word)
    ensures |w| == |memory|
  {
    if m.littleEndian then memory else Reversed(memory)
  }

  /** The memory bytes a machine writes for a word. */
  function Store(m: Machine, w: Word): (memory: seq<bv8>)
    ensures |memory| == |w|
  {
    if m.littleEndian then w else Reversed(w)
  }

  function Rotated(s: seq<bv8>, k: nat): seq<bv8>
    requires k <= |s|
  {
    s[k..] + s[..k]
  }

  /** Combining two words and writing the result is combining their memory bytes one by one. */
  lemma StoreOfXor(m: Machine, memory: seq<bv8>, w: Word)
    requires |memory| == |w|
    ensures Store(m, Xor(Load(m, memory), w)) == Xor(memory, Store(m, w))
  {
    if !m.littleEndian {
      ReversedXor(memory, w);
    }
  }

  lemma ReversedXor(memory: seq<bv8>, w: Word)
    requires |memory| == |w|
    ensures Reversed(Xor(Reversed(memory), w)) == Xor(memory, Reversed(w))
  {
    hide *;
    forall i | 0 <= i < |w|
      ensures Reversed(Xor(Reversed(memory), w))[i] == Xor(memory, Reversed(w))[i]
    {
      var j := |w| - 1 - i;
      ReversedAt(Xor(Reversed(memory), w), i);
      XorAt(Reversed(memory), w, j);
      ReversedAt(memory, j);
      XorAt(memory, Reversed(w), i);
      ReversedAt(w, i);
    }
  }

  lemma ReversedAt(s: seq<bv8>, i: nat)
    requires i < |s|
    ensures Reversed(s)[i] == s[|s| - 1 - i]
  {
  }

  lemma XorAt(a: seq<bv8>, b: seq<bv8>, i: nat)
    requires i < |a| == |b|
    ensures Xor(a, b)[i] == a[i] ^ b[i]
  {
  }

  /** `prepare_masking_key`: the four key bytes, read as an integer, in the low half and, on 8-byte machines, the high half. */
  function PrepareMaskingKey(m: Machine, key: seq<bv8>): Word
    requires m.Supported() && |key| == 4
  {
    var low := Load(m, key) + Zeros(m.wordSize - 4);
    if m.wordSize == 8 then Or(ShiftLeft(low, 4), low) else low
  }

  /** `circshift_prepared_key` */
  function CircshiftPreparedKey(m: Machine, w: Word, offset: nat): Word
    requires offset < |w|
  {
    if offset == 0 then w
    else if m.littleEndian then Or(ShiftRight(w, offset), ShiftLeft(w, |w| - offset))
    else Or(ShiftLeft(w, offset), ShiftRight(w, |w| - offset))
  }

  /** In memory the prepared key is the key repeated, whatever the byte order. */
  lemma PreparedKeyRepeats(m: Machine, key: seq<bv8>)
    requires m.Supported() && |key| == 4
    ensures var memory := Store(m, PrepareMaskingKey(m, key));
            memory == if m.wordSize == 8 then key + key else key
  {
    var k := Load(m, key);
    if m.wordSize == 8 {
      assert PrepareMaskingKey(m, key) == k + k by {
        assert ShiftLeft(k + Zeros(4), 4) == Zeros(4) + k;
        OrHalves(k);
      }
    } else {
      assert PrepareMaskingKey(m, key) == k;
    }
  }

  lemma OrHalves(k: Word)
    ensures Or(Zeros(|k|) + k, k + Zeros(|k|)) == k + k
  {
    forall i | 0 <= i < 2 * |k|
      ensures Or(Zeros(|k|) + k, k + Zeros(|k|))[i] == (k + k)[i]
    {
      OrZero((k + k)[i]);
    }
  }

  lemma OrZero(b: bv8)
    ensures 0 | b == b && b | 0 == b
  {
  }

  lemma OrCommutes(a: Word, b: Word)
    requires |a| == |b|
    ensures Or(a, b) == Or(b, a)
  {
    forall i | 0 <= i < |a|
      ensures Or(a, b)[i] == Or(b, a)[i]
    {
      assert a[i] | b[i] == b[i] | a[i];
    }
  }

  /** The two shifts fill each other's zeros. */
  lemma OrOfShifts(w: Word, k: nat)
    requires k <= |w|
    ensures Or(ShiftRight(w, k), ShiftLeft(w, |w| - k)) == Rotated(w, k)
  {
    var n := |w| - k;
    forall i | 0 <= i < |w|
      ensures Or(ShiftRight(w, k), ShiftLeft(w, n))[i] == Rotated(w, k)[i]
    {
      OrZero(Rotated(w, k)[i]);
      if i < n {
        assert ShiftRight(w, k)[i] == w[k..][i] && ShiftLeft(w, n)[i] == Zeros(n)[i] == 0;
      } else {
        assert ShiftRight(w, k)[i] == Zeros(k)[i - n] == 0 && ShiftLeft(w, n)[i] == w[..k][i - n];
      }
    }
  }

  lemma ReversedRotation(w: Word, k: nat)
    requires k <= |w|
    ensures Reversed(Rotated(w, |w| - k)) == Rotated(Reversed(w), k)
  {
    var n := |w| - k;
    hide Reversed;
    forall i | 0 <= i < |w|
      ensures Reversed(Rotated(w, n))[i] == Rotated(Reversed(w), k)[i]
    {
      var j := |w| - 1 - i;
      ReversedAt(Rotated(w, n), i);
      ReversedAt(w, if i < n then k + i else i - n);
      if i < n {
        assert Rotated(w, n)[j] == w[..n][j - k] && Rotated(Reversed(w), k)[i] == Reversed(w)[k + i];
      } else {
        assert Rotated(w, n)[j] == w[n..][j] && Rotated(Reversed(w), k)[i] == Reversed(w)[..k][i - n];
      }
    }
  }

  /** Both byte orders turn the shift into the same rotation of the memory bytes. */
  lemma CircshiftRotatesMemory(m: Machine, w: Word, offset: nat)
    requires offset < |w|
    ensures Store(m, CircshiftPreparedKey(m, w, offset)) == Rotated(Store(m, w), offset)
  {
    var n := |w| - offset;
    OrOfShifts(w, offset);
    OrOfShifts(w, n);
    OrCommutes(ShiftRight(w, n), ShiftLeft(w, offset));
    ReversedRotation(w, offset);
    hide Or, ShiftLeft, ShiftRight, Rotated, Reversed;
    if offset == 0 {
      RotatedByNone(Store(m, w));
    }
  }

  lemma RotatedByNone(s: seq<bv8>)
    ensures Rotated(s, 0) == s
  {
  }

  // ---------- the digit shifts are the integer shifts ----------

  function Pow256(n: nat): (p: nat)
    ensures p > 0
  {
    if n == 0 then 1 else 256 * Pow256(n - 1)
  }

  /** The unsigned integer a word stands for. */
  function Value(w: Word): nat {
    if w == [] then 0 else w[0] as nat + 256 * Value(w[1..])
  }

  lemma {:induction false} Pow256Sum(a: nat, b: nat)
    ensures Pow256(a + b) == Pow256(a) * Pow256(b)
  {
    if a > 0 {
      Pow256Sum(a - 1, b);
      assert Pow256(a + b) == 256 * (Pow256(a - 1) * Pow256(b));
    }
  }

  lemma PrependDigit(d: nat, rest: nat, p: nat, high: nat)
    ensures d + 256 * (rest + p * high) == (d + 256 * rest) + 256 * p * high
    ensures d < 256 && rest < p ==> d + 256 * rest < 256 * p
  {
    assert 256 * (rest + p * high) == 256 * rest + 256 * (p * high);
  }

  lemma FirstDigit(w: Word)
    requires w != []
    ensures Value(w) == w[0] as nat + 256 * Value(w[1..]) && Pow256(|w|) == 256 * Pow256(|w| - 1)
    ensures w[0] as nat < 256
  {
  }

  lemma {:induction false} ValueOfConcat(low: Word, high: Word)
    ensures Value(low + high) == Value(low) + Pow256(|low|) * Value(high)
    ensures Value(low) < Pow256(|low|)
  {
    if low == [] {
      assert low + high == high;
    } else {
      hide Value, Pow256;
      var rest := low[1..];
      ValueOfConcat(rest, high);
      FirstDigit(low);
      FirstDigit(low + high);
      assert (low + high)[1..] == rest + high;
      PrependDigit(low[0] as nat, Value(rest), Pow256(|rest|), Value(high));
    }
  }

  lemma {:induction false} ValueOfZeros(n: nat)
    ensures Value(Zeros(n)) == 0
  {
    if n > 0 {
      ValueOfZeros(n - 1);
      assert Zeros(n)[1..] == Zeros(n - 1);
    }
  }

  lemma DivModUnique(n: nat, d: nat, q: nat, r: nat)
    requires d > 0 && r < d && n == d * q + r
    ensures n / d == q && n % d == r
  {
    var k: int := n / d - q;
    assert d * k == r - n % d;
    assert k >= 1 ==> d * k - d >= 0;
    assert k <= -1 ==> d * k + d <= 0;
  }

  lemma SplitProduct(low: nat, p: nat, high: nat, q: nat)
    requires low < p && q > 0
    ensures (low + p * high) * q == (q * p) * high + q * low
    ensures q * low < q * p
  {
    assert (low + p * high) * q == low * q + (p * high) * q;
    assert (p * high) * q == (q * p) * high;
  }

  /** Shifting digits right is dividing, as `>>` on an unsigned word does. */
  lemma ShiftRightDivides(w: Word, k: nat)
    requires k <= |w|
    ensures Value(ShiftRight(w, k)) == Value(w) / Pow256(k)
  {
    ValueOfConcat(w[..k], w[k..]);
    assert w[..k] + w[k..] == w;
    ValueOfConcat(w[k..], Zeros(k));
    ValueOfZeros(k);
    DivModUnique(Value(w), Pow256(k), Value(w[k..]), Value(w[..k]));
  }

  lemma DropsHighPart(v: nat, low: nat, p: nat, high: nat, q: nat, all: nat)
    requires v == low + p * high && low < p && q > 0 && all == q * p
    ensures all > 0 && v * q % all == q * low
  {
    SplitProduct(low, p, high, q);
    DivModUnique(v * q, all, high, q * low);
  }

  /** Shifting digits left is multiplying modulo the word range, as `<<` on an unsigned word does. */
  lemma ShiftLeftMultiplies(w: Word, k: nat)
    requires k <= |w|
    ensures Value(ShiftLeft(w, k)) == Value(w) * Pow256(k) % Pow256(|w|)
  {
    hide Value, Pow256;
    var low, high := w[..|w| - k], w[|w| - k..];
    assert Value(w) == Value(low) + Pow256(|low|) * Value(high) && Value(low) < Pow256(|low|) by {
      ValueOfConcat(low, high);
      assert low + high == w;
    }
    assert Value(ShiftLeft(w, k)) == Pow256(k) * Value(low) by {
      ValueOfConcat(Zeros(k), low);
      ValueOfZeros(k);
      assert |Zeros(k)| == k;
    }
    hide ShiftLeft;
    Pow256Sum(k, |low|);
    DropsHighPart(Value(w), Value(low), Pow256(|low|), Value(high), Pow256(k), Pow256(|w|));
  }
}
