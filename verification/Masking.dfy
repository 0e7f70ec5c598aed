/**
 * The payload masking of frame.hpp (section 5.3 of RFC 6455): the simple byte-at-a-time form, the one-shot
 * word form and the two circular forms that carry a shifted key from chunk to chunk.
 *
 * A pointer is an array and an index. Output may be the input itself, or start before it in the same array.
 */
module Masking {
  import opened MachineWord

  type Key = k: seq<bv8> | |k| == 4 witness [0, 0, 0, 0]

  // ---------- what each routine writes ----------

  function KeyIndex(position: nat): (k: nat)
    ensures k < 4
  {
    position % 4
  }

  /** Byte i of the payload, at distance `offset + i` from its start, is combined with key byte (offset + i) mod 4. */
  function Masked(data: seq<bv8>, key: Key, offset: nat): (r: seq<bv8>)
    ensures |r| == |data|
  {
    seq(|data|, i requires 0 <= i < |data| => data[i] ^ key[KeyIndex(offset + i)])
  }

  function WordCircMasked(m: Machine, data: seq<bv8>, preparedKey: Word): (r: seq<bv8>)
    requires m.Supported() && |preparedKey| == m.wordSize
    ensures |r| == |data|
  {
    seq(|data|, i requires 0 <= i < |data| => data[i] ^ Store(m, preparedKey)[m.Slot(i)])
  }

  /** `key.i = prepared_key` keeps the low 32 bits; `key.c` is their memory image. */
  function TruncatedKey(m: Machine, preparedKey: Word): Key
    requires m.Supported() && |preparedKey| == m.wordSize
  {
    Store(m, preparedKey[..4])
  }

  function ByteCircMasked(m: Machine, data: seq<bv8>, preparedKey: Word): (r: seq<bv8>)
    requires m.Supported() && |preparedKey| == m.wordSize
    ensures |r| == |data|
  {
    Masked(data, TruncatedKey(m, preparedKey), 0)
  }

  // ---------- the routines ----------

  /** Writing at `dst` never destroys a byte that is still to be read. */
  predicate MayMask(input: array<bv8>, src: nat, output: array<bv8>, dst: nat, length: nat) {
    && src + length <= input.Length
    && dst + length <= output.Length
    && (input == output ==> dst <= src || src + length <= dst)
  }

  /** A buffer after `bytes` were written at `at`: exactly those positions change. */
  function Patched(buffer: seq<bv8>, at: nat, bytes: seq<bv8>): (r: seq<bv8>)
    requires at + |bytes| <= |buffer|
    ensures |r| == |buffer|
  {
    buffer[..at] + bytes + buffer[at + |bytes|..]
  }

  /** Position by position: `count` bytes have been written at `at`, nothing else has changed. */
  ghost predicate Wrote(was: seq<bv8>, output: array<bv8>, at: nat, bytes: seq<bv8>, count: nat)
    reads output
  {
    && count <= |bytes| && at + |bytes| <= output.Length == |was|
    && (forall j :: at <= j < at + count ==> output[j] == bytes[j - at])
    && (forall j :: 0 <= j < output.Length && !(at <= j < at + count) ==> output[j] == was[j])
  }

  /** What is still to be read has not been touched. */
  ghost predicate Unread(input: array<bv8>, src: nat, data: seq<bv8>, count: nat)
    reads input
  {
    && src + |data| <= input.Length
    && (forall j :: src + count <= j < src + |data| ==> input[j] == data[j - src])
  }

  lemma AllWritten(was: seq<bv8>, output: array<bv8>, at: nat, bytes: seq<bv8>)
    requires Wrote(was, output, at, bytes, |bytes|)
    ensures output[..] == Patched(was, at, bytes)
  {
  }

  lemma NextIndex(n: nat)
    ensures (KeyIndex(n) + 1) % 4 == KeyIndex(n + 1)
  {
  }

  method ByteMask(input: array<bv8>, first: nat, last: nat, output: array<bv8>, result: nat, key: Key, keyOffset: nat)
    requires first <= last && MayMask(input, first, output, result, last - first)
    modifies output
    ensures output[..] == Patched(old(output[..]), result, Masked(old(input[first..last]), key, keyOffset))
  {
    ghost var data := input[first..last];
    ByteLoop(input, first, last, output, result, key, keyOffset, data, Masked(data, key, keyOffset));
  }

  ghost predicate ByteAt(data: seq<bv8>, key: Key, offset: nat, masked: seq<bv8>, i: nat) {
    i < |data| == |masked| && masked[i] == data[i] ^ key[KeyIndex(offset + i)]
  }

  method ByteLoop(input: array<bv8>, first: nat, last: nat, output: array<bv8>, result: nat, key: Key, keyOffset: nat,
                  ghost data: seq<bv8>, ghost masked: seq<bv8>)
    requires first <= last && MayMask(input, first, output, result, last - first)
    requires |data| == |masked| == last - first && Unread(input, first, data, 0)
    requires forall i: nat :: i < |data| ==> ByteAt(data, key, keyOffset, masked, i)
    modifies output
    ensures output[..] == Patched(old(output[..]), result, masked)
  {
    hide KeyIndex, Patched;
    ghost var was := output[..];
    var keyIndex := KeyIndex(keyOffset);
    var it, at := first, result;
    while it != last
      invariant first <= it <= last && at - result == it - first
      invariant keyIndex == KeyIndex(keyOffset + (it - first))
      invariant Wrote(was, output, result, masked, it - first)
      invariant Unread(input, first, data, it - first)
    {
      NextIndex(keyOffset + (it - first));
      assert ByteAt(data, key, keyOffset, masked, it - first);
      output[at] := input[it] ^ key[keyIndex];
      keyIndex := (keyIndex + 1) % 4;
      at := at + 1;
      it := it + 1;
    }
    AllWritten(was, output, result, masked);
  }

  method StoreWord(m: Machine, output: array<bv8>, at: nat, word: Word)
    requires at + |word| <= output.Length
    modifies output
    ensures Wrote(old(output[..]), output, at, Store(m, word), |word|)
  {
    ghost var was := output[..];
    var bytes := Store(m, word);
    for k := 0 to |bytes|
      invariant Wrote(was, output, at, bytes, k)
    {
      output[at + k] := bytes[k];
    }
  }

  ghost predicate WordAt(m: Machine, data: seq<bv8>, preparedKey: Word, masked: seq<bv8>, at: nat)
    requires m.Supported() && |preparedKey| == m.wordSize
  {
    && at + m.wordSize <= |data| == |masked|
    && masked[at..at + m.wordSize] == Xor(data[at..at + m.wordSize], Store(m, preparedKey))
  }

  ghost predicate WordByWord(m: Machine, data: seq<bv8>, preparedKey: Word, masked: seq<bv8>, n: nat)
    requires m.Supported() && |preparedKey| == m.wordSize
  {
    forall i: nat :: i < n ==> WordAt(m, data, preparedKey, masked, m.Bytes(i))
  }

  /** `output_word[i] = input_word[i] ^ prepared_key` */
  method MaskWord(m: Machine, input: array<bv8>, src: nat, output: array<bv8>, dst: nat, preparedKey: Word,
                  ghost data: seq<bv8>, ghost masked: seq<bv8>, ghost i: nat, ghost n: nat)
    requires m.Supported() && |preparedKey| == m.wordSize && i < n
    requires src + m.wordSize <= input.Length && dst + m.wordSize <= output.Length
    requires WordByWord(m, data, preparedKey, masked, n) && m.Bytes(i) + m.wordSize <= |data| == |masked|
    requires forall j :: src <= j < src + m.wordSize ==> input[j] == data[m.Bytes(i) + (j - src)]
    modifies output
    ensures forall j :: dst <= j < dst + m.wordSize ==> output[j] == masked[m.Bytes(i) + (j - dst)]
    ensures forall j :: 0 <= j < output.Length && !(dst <= j < dst + m.wordSize) ==> output[j] == old(output[j])
  {
    ghost var at := m.Bytes(i);
    var bytes := input[src..src + m.wordSize];
    assert WordAt(m, data, preparedKey, masked, at);
    assert bytes == data[at..at + m.wordSize];
    StoreOfXor(m, bytes, preparedKey);
    ghost var next := masked[at..at + m.wordSize];
    StoreWord(m, output, dst, Xor(Load(m, bytes), preparedKey));
    assert Wrote(old(output[..]), output, dst, next, m.wordSize);
  }

  /** The word loop of `word_mask_exact` and `word_mask_circ`: each word is loaded, combined with the key and stored. */
  method WordLoop(m: Machine, input: array<bv8>, src: nat, output: array<bv8>, dst: nat, n: nat, preparedKey: Word,
                  ghost data: seq<bv8>, ghost masked: seq<bv8>)
    requires m.Supported() && |preparedKey| == m.wordSize
    requires MayMask(input, src, output, dst, |data|)
    requires |data| == |masked| == m.Bytes(n) && Unread(input, src, data, 0)
    requires WordByWord(m, data, preparedKey, masked, n)
    modifies output
    ensures output[..] == Patched(old(output[..]), dst, masked)
  {
    hide WordByWord;
    ghost var was := output[..];
    for i := 0 to n
      invariant Wrote(was, output, dst, masked, m.Bytes(i))
      invariant Unread(input, src, data, m.Bytes(i))
    {
      var at := m.Bytes(i);
      MaskWord(m, input, src + at, output, dst + at, preparedKey, data, masked, i, n);
    }
    AllWritten(was, output, dst, masked);
  }

  /** The last loop of `word_mask_circ`: fewer bytes than a word, combined with the key bytes as they lie in memory. */
  method TailLoop(input: array<bv8>, src: nat, output: array<bv8>, dst: nat, length: nat, byteKey: seq<bv8>, ghost data: seq<bv8>)
    requires MayMask(input, src, output, dst, length)
    requires |data| == length <= |byteKey| && Unread(input, src, data, 0)
    modifies output
    ensures output[..] == Patched(old(output[..]), dst, Xor(data, byteKey[..length]))
  {
    hide Xor, Patched;
    ghost var was, masked := output[..], Xor(data, byteKey[..length]);
    for i := 0 to length
      invariant Wrote(was, output, dst, masked, i)
      invariant Unread(input, src, data, i)
    {
      XorAt(data, byteKey[..length], i);
      output[dst + i] := input[src + i] ^ byteKey[i];
    }
    AllWritten(was, output, dst, masked);
  }

  // ---------- the carried key ----------

  ghost predicate KeyAt(m: Machine, preparedKey: Word, key: Key, phase: nat, i: nat) {
    i < |preparedKey| && Store(m, preparedKey)[i] == key[KeyIndex(phase + i)]
  }

  /** The word in memory is the key repeated, starting at key byte `phase` mod 4. */
  ghost predicate Carries(m: Machine, preparedKey: Word, key: Key, phase: nat) {
    && m.Supported() && |preparedKey| == m.wordSize
    && forall i: nat :: i < m.wordSize ==> KeyAt(m, preparedKey, key, phase, i)
  }

  lemma PreparedKeyCarries(m: Machine, key: Key)
    requires m.Supported()
    ensures Carries(m, PrepareMaskingKey(m, key), key, 0)
  {
    PreparedKeyRepeats(m, key);
    hide PrepareMaskingKey, Store;
    var p := PrepareMaskingKey(m, key);
    forall i: nat | i < m.wordSize
      ensures KeyAt(m, p, key, 0, i)
    {
    }
  }

  lemma SlotKeepsKeyIndex(m: Machine, phase: nat, i: nat)
    requires m.Supported()
    ensures KeyIndex(phase + m.Slot(i)) == KeyIndex(phase + i)
  {
    if m.wordSize == 8 {
      Mod8Then4(phase, i);
    } else {
      Mod4Then4(phase, i);
    }
  }

  lemma MoreFours(n: nat, q: nat)
    ensures (n + 4 * q) % 4 == n % 4
  {
    DivModUnique(n + 4 * q, 4, n / 4 + q, n % 4);
  }

  lemma Mod8Then4(phase: nat, i: nat)
    ensures (phase + i % 8) % 4 == (phase + i) % 4
  {
    MoreFours(phase + i % 8, 2 * (i / 8));
    assert phase + i == phase + i % 8 + 4 * (2 * (i / 8));
  }

  lemma Mod4Then4(phase: nat, i: nat)
    ensures (phase + i % 4) % 4 == (phase + i) % 4
  {
    MoreFours(phase + i % 4, i / 4);
    assert phase + i == phase + i % 4 + 4 * (i / 4);
  }

  lemma WordCircIsMasked(m: Machine, data: seq<bv8>, preparedKey: Word, key: Key, phase: nat)
    requires Carries(m, preparedKey, key, phase)
    ensures WordCircMasked(m, data, preparedKey) == Masked(data, key, phase)
  {
    forall i | 0 <= i < |data|
      ensures WordCircMasked(m, data, preparedKey)[i] == Masked(data, key, phase)[i]
    {
      SlotKeepsKeyIndex(m, phase, i);
      assert KeyAt(m, preparedKey, key, phase, m.Slot(i));
    }
  }

  lemma WordStarts(m: Machine, i: nat)
    requires m.Supported()
    ensures m.Slot(m.Bytes(i)) == 0 && m.Bytes(i + 1) == m.Bytes(i) + m.wordSize
  {
  }

  lemma MaskedWordByWord(m: Machine, data: seq<bv8>, preparedKey: Word, n: nat)
    requires m.Supported() && |preparedKey| == m.wordSize && m.Bytes(n) <= |data|
    ensures WordByWord(m, data, preparedKey, WordCircMasked(m, data, preparedKey), n)
  {
    forall i: nat | i < n
      ensures WordAt(m, data, preparedKey, WordCircMasked(m, data, preparedKey), m.Bytes(i))
    {
      MaskedWordAt(m, data, preparedKey, i);
    }
  }

  lemma MaskedWordAt(m: Machine, data: seq<bv8>, preparedKey: Word, i: nat)
    requires m.Supported() && |preparedKey| == m.wordSize && m.Bytes(i + 1) <= |data|
    ensures WordAt(m, data, preparedKey, WordCircMasked(m, data, preparedKey), m.Bytes(i))
  {
    hide Xor, Store, WordCircMasked, Machine.Slot, Machine.Bytes, Machine.Supported;
    WordStarts(m, i);
    var at, key := m.Bytes(i), Store(m, preparedKey);
    var word := data[at..at + m.wordSize];
    forall k | 0 <= k < m.wordSize
      ensures WordCircMasked(m, data, preparedKey)[at + k] == Xor(word, key)[k]
    {
      SlotAfter(m, at, k);
      WordCircAt(m, data, preparedKey, at + k);
      XorAt(word, key, k);
    }
    SameWord(WordCircMasked(m, data, preparedKey), Xor(word, key), at);
  }

  lemma WordCircAt(m: Machine, data: seq<bv8>, preparedKey: Word, i: nat)
    requires m.Supported() && |preparedKey| == m.wordSize && i < |data|
    ensures WordCircMasked(m, data, preparedKey)[i] == data[i] ^ Store(m, preparedKey)[m.Slot(i)]
  {
  }

  lemma SameWord(s: seq<bv8>, part: seq<bv8>, at: nat)
    requires at + |part| <= |s| && forall k :: 0 <= k < |part| ==> s[at + k] == part[k]
    ensures s[at..at + |part|] == part
  {
  }

  lemma MaskedInTwo(data: seq<bv8>, key: Key, offset: nat, k: nat)
    requires k <= |data|
    ensures Masked(data, key, offset) == Masked(data[..k], key, offset) + Masked(data[k..], key, offset + k)
  {
    forall i | k <= i < |data|
      ensures Masked(data, key, offset)[i] == Masked(data[k..], key, offset + k)[i - k]
    {
      assert offset + i == offset + k + (i - k);
    }
  }

  lemma PatchedTwice(buffer: seq<bv8>, at: nat, a: seq<bv8>, b: seq<bv8>)
    requires at + |a| + |b| <= |buffer|
    ensures Patched(Patched(buffer, at, a), at + |a|, b) == Patched(buffer, at, a + b)
  {
  }

  /** After the first `start` bytes are written the rest of the input is as it was. */
  lemma TailUntouched(input: array<bv8>, output: array<bv8>, src: nat, dst: nat, start: nat, length: nat,
                      was: seq<bv8>, data: seq<bv8>, masked: seq<bv8>)
    requires MayMask(input, src, output, dst, length) && start == |masked| <= length == |data|
    requires |was| == output.Length && output[..] == Patched(was, dst, masked)
    requires if input == output then |was| == input.Length && data == was[src..src + length] else Unread(input, src, data, 0)
    ensures Unread(input, src + start, data[start..], 0)
  {
    if input == output {
      forall j | src + start <= j < src + length
        ensures input[j] == data[j - src]
      {
        assert output[..][j] == was[j];
      }
    }
  }

  /** The first loop of `word_mask_exact` and `word_mask_circ`: the whole words of the input. */
  method MaskWholeWords(m: Machine, input: array<bv8>, src: nat, output: array<bv8>, dst: nat, length: nat, preparedKey: Word,
                        ghost data: seq<bv8>)
    returns (start: nat)
    requires m.Supported() && |preparedKey| == m.wordSize
    requires MayMask(input, src, output, dst, length)
    requires |data| == length && Unread(input, src, data, 0)
    modifies output
    ensures start <= length && length - start == m.Slot(length) && m.Slot(start) == 0
    ensures output[..] == Patched(old(output[..]), dst, WordCircMasked(m, data[..start], preparedKey))
    ensures Unread(input, src + start, data[start..], 0)
  {
    hide *;
    var n := m.WholeWords(length);
    WordStarts(m, n);
    start := m.Bytes(n);
    MaskedWordByWord(m, data[..start], preparedKey, n);
    WordPart(m, input, src, output, dst, length, n, start, preparedKey, data, WordCircMasked(m, data[..start], preparedKey));
  }

  method WordPart(m: Machine, input: array<bv8>, src: nat, output: array<bv8>, dst: nat, length: nat, n: nat, start: nat,
                  preparedKey: Word, ghost data: seq<bv8>, ghost masked: seq<bv8>)
    requires m.Supported() && |preparedKey| == m.wordSize
    requires MayMask(input, src, output, dst, length)
    requires |data| == length && Unread(input, src, data, 0)
    requires start == m.Bytes(n) == |masked| <= length
    requires WordByWord(m, data[..start], preparedKey, masked, n)
    modifies output
    ensures output[..] == Patched(old(output[..]), dst, masked)
    ensures Unread(input, src + start, data[start..], 0)
  {
    hide Patched, WordByWord;
    ghost var was := output[..];
    WordLoop(m, input, src, output, dst, n, preparedKey, data[..start], masked);
    TailUntouched(input, output, src, dst, start, length, was, data, masked);
  }

  lemma NothingRead(input: array<bv8>, src: nat, output: array<bv8>, dst: nat, length: nat)
    requires MayMask(input, src, output, dst, length)
    ensures src + length <= input.Length && dst + length <= output.Length
    ensures Unread(input, src, input[src..src + length], 0)
  {
  }

  /** What may be masked may be masked from any point on. */
  lemma MayMaskRest(input: array<bv8>, src: nat, output: array<bv8>, dst: nat, length: nat, start: nat)
    requires MayMask(input, src, output, dst, length) && start <= length
    ensures MayMask(input, src + start, output, dst + start, length - start)
  {
  }

  /** The last loop of `word_mask_exact`. */
  method ExactTail(input: array<bv8>, src: nat, output: array<bv8>, dst: nat, length: nat, key: Key, start: nat, ghost rest: seq<bv8>)
    requires MayMask(input, src, output, dst, length) && start <= length
    requires |rest| == length - start && Unread(input, src + start, rest, 0)
    modifies output
    ensures output[..] == Patched(old(output[..]), dst + start, Masked(rest, key, start))
  {
    hide *;
    MayMaskRest(input, src, output, dst, length, start);
    MaskedBytes(rest, key, start);
    ByteLoop(input, src + start, src + length, output, dst + start, key, start, rest, Masked(rest, key, start));
  }

  method WordMaskExact(m: Machine, input: array<bv8>, src: nat, output: array<bv8>, dst: nat, length: nat, key: Key)
    requires m.Supported() && MayMask(input, src, output, dst, length)
    modifies output
    ensures output[..] == Patched(old(output[..]), dst, Masked(old(input[src..src + length]), key, 0))
  {
    ghost var was, data := output[..], input[src..src + length];
    NothingRead(input, src, output, dst, length);
    hide *;
    var start := MaskWholeWords(m, input, src, output, dst, length, PrepareMaskingKey(m, key), data);
    ghost var between := output[..];
    ExactTail(input, src, output, dst, length, key, start, data[start..]);
    ExactParts(m, was, between, output[..], dst, data, key, start);
  }

  lemma MaskedBytes(data: seq<bv8>, key: Key, offset: nat)
    ensures forall i: nat :: i < |data| ==> ByteAt(data, key, offset, Masked(data, key, offset), i)
  {
  }

  lemma ExactParts(m: Machine, was: seq<bv8>, between: seq<bv8>, now: seq<bv8>, dst: nat, data: seq<bv8>, key: Key, start: nat)
    requires m.Supported() && start <= |data| && dst + |data| <= |was|
    requires between == Patched(was, dst, WordCircMasked(m, data[..start], PrepareMaskingKey(m, key)))
    requires now == Patched(between, dst + start, Masked(data[start..], key, start))
    ensures now == Patched(was, dst, Masked(data, key, 0))
  {
    hide *;
    PreparedKeyCarries(m, key);
    WordCircIsMasked(m, data[..start], PrepareMaskingKey(m, key), key, 0);
    PatchedTwice(was, dst, Masked(data[..start], key, 0), Masked(data[start..], key, start));
    MaskedInTwo(data, key, 0, start);
  }

  method CircTail(m: Machine, input: array<bv8>, src: nat, output: array<bv8>, dst: nat, length: nat, preparedKey: Word,
                  start: nat, ghost rest: seq<bv8>)
    requires MayMask(input, src, output, dst, length) && start <= length
    requires |rest| == length - start <= |preparedKey| && Unread(input, src + start, rest, 0)
    modifies output
    ensures output[..] == Patched(old(output[..]), dst + start, Xor(rest, Store(m, preparedKey)[..|rest|]))
  {
    hide *;
    MayMaskRest(input, src, output, dst, length, start);
    TailLoop(input, src + start, output, dst + start, length - start, Store(m, preparedKey), rest);
  }

  method WordMaskCirc(m: Machine, input: array<bv8>, src: nat, output: array<bv8>, dst: nat, length: nat, preparedKey: Word)
    returns (next: Word)
    requires m.Supported() && |preparedKey| == m.wordSize
    requires MayMask(input, src, output, dst, length)
    modifies output
    ensures output[..] == Patched(old(output[..]), dst, WordCircMasked(m, old(input[src..src + length]), preparedKey))
    ensures next == CircshiftPreparedKey(m, preparedKey, m.Slot(length))
  {
    ghost var was, data := output[..], input[src..src + length];
    NothingRead(input, src, output, dst, length);
    hide *;
    var start := MaskWholeWords(m, input, src, output, dst, length, preparedKey, data);
    ghost var between := output[..];
    CircTail(m, input, src, output, dst, length, preparedKey, start, data[start..]);
    CircParts(m, was, between, output[..], dst, data, preparedKey, start);
    next := CircshiftPreparedKey(m, preparedKey, length - start);
  }

  lemma CircParts(m: Machine, was: seq<bv8>, between: seq<bv8>, now: seq<bv8>, dst: nat, data: seq<bv8>, preparedKey: Word, start: nat)
    requires m.Supported() && |preparedKey| == m.wordSize && dst + |data| <= |was|
    requires start <= |data| && m.Slot(start) == 0 && |data| - start < m.wordSize
    requires between == Patched(was, dst, WordCircMasked(m, data[..start], preparedKey))
    requires now == Patched(between, dst + start, Xor(data[start..], Store(m, preparedKey)[..|data| - start]))
    ensures now == Patched(was, dst, WordCircMasked(m, data, preparedKey))
  {
    PatchedTwice(was, dst, WordCircMasked(m, data[..start], preparedKey), Xor(data[start..], Store(m, preparedKey)[..|data| - start]));
    WordCircInTwo(m, data, preparedKey, start);
  }

  lemma WordCircInTwo(m: Machine, data: seq<bv8>, preparedKey: Word, start: nat)
    requires m.Supported() && |preparedKey| == m.wordSize
    requires start <= |data| && m.Slot(start) == 0 && |data| - start < m.wordSize
    ensures WordCircMasked(m, data, preparedKey)
         == WordCircMasked(m, data[..start], preparedKey) + Xor(data[start..], Store(m, preparedKey)[..|data| - start])
  {
    var masked := WordCircMasked(m, data, preparedKey);
    var rest := Xor(data[start..], Store(m, preparedKey)[..|data| - start]);
    forall k | 0 <= k < |rest|
      ensures masked[start + k] == rest[k]
    {
      SlotAfter(m, start, k);
      WordCircAt(m, data, preparedKey, start + k);
    }
    SameWord(masked, rest, start);
    forall i | 0 <= i < start
      ensures masked[i] == WordCircMasked(m, data[..start], preparedKey)[i]
    {
      WordCircAt(m, data, preparedKey, i);
      WordCircAt(m, data[..start], preparedKey, i);
    }
    assert masked[..start] == WordCircMasked(m, data[..start], preparedKey);
    assert masked == masked[..start] + masked[start..];
  }

  method ByteMaskCirc(m: Machine, input: array<bv8>, src: nat, output: array<bv8>, dst: nat, length: nat, preparedKey: Word)
    returns (next: Word)
    requires m.Supported() && |preparedKey| == m.wordSize
    requires MayMask(input, src, output, dst, length)
    modifies output
    ensures output[..] == Patched(old(output[..]), dst, ByteCircMasked(m, old(input[src..src + length]), preparedKey))
    ensures next == CircshiftPreparedKey(m, preparedKey, length % 4)
  {
    hide Masked, TruncatedKey, CircshiftPreparedKey, Patched;
    ByteMask(input, src, src + length, output, dst, TruncatedKey(m, preparedKey), 0);
    next := CircshiftPreparedKey(m, preparedKey, length % 4);
  }
}
