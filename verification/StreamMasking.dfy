/**
 * Masking a payload in chunks with the circular routines of frame.hpp, each call taking the key the previous
 * call returned: the result is the one-shot byte-at-a-time masking of the whole payload, however it was cut.
 */
module StreamMasking {
  import opened MachineWord
  import opened Masking

  datatype Form = WordCirc | ByteCirc

  datatype Step = Step(form: Form, chunk: seq<bv8>)

  function Joined(steps: seq<Step>): seq<bv8> {
    if steps == [] then [] else steps[0].chunk + Joined(steps[1..])
  }

  /** What one call writes and the key it returns (`Masking.WordMaskCirc`, `Masking.ByteMaskCirc`). */
  function MaskChunk(m: Machine, step: Step, preparedKey: Word): (r: (seq<bv8>, Word))
    requires m.Supported() && |preparedKey| == m.wordSize
    ensures |r.1| == m.wordSize
  {
    match step.form
    case WordCirc => (WordCircMasked(m, step.chunk, preparedKey), CircshiftPreparedKey(m, preparedKey, m.Slot(|step.chunk|)))
    case ByteCirc => (ByteCircMasked(m, step.chunk, preparedKey), CircshiftPreparedKey(m, preparedKey, |step.chunk| % 4))
  }

  function MaskStream(m: Machine, steps: seq<Step>, preparedKey: Word): (r: (seq<bv8>, Word))
    requires m.Supported() && |preparedKey| == m.wordSize
  {
    if steps == [] then ([], preparedKey)
    else
      var (out, next) := MaskChunk(m, steps[0], preparedKey);
      var (rest, last) := MaskStream(m, steps[1..], next);
      (out + rest, last)
  }

  /** The low 32 bits of a carried key are the key at the same phase, in either half of the word. */
  lemma TruncatedKeyKeepsPhase(m: Machine, preparedKey: Word, key: Key, phase: nat, i: nat)
    requires Carries(m, preparedKey, key, phase) && i < 4
    ensures TruncatedKey(m, preparedKey)[i] == key[KeyIndex(phase + i)]
  {
    var at := if m.littleEndian then i else i + m.wordSize - 4;
    assert KeyAt(m, preparedKey, key, phase, at);
    TruncatedAt(m, preparedKey, i);
    MoreFours(phase + i, if at == i then 0 else 1);
    hide TruncatedKey, Store, Carries;
  }

  lemma TruncatedAt(m: Machine, preparedKey: Word, i: nat)
    requires m.Supported() && |preparedKey| == m.wordSize && i < 4
    ensures TruncatedKey(m, preparedKey)[i] == Store(m, preparedKey)[if m.littleEndian then i else i + m.wordSize - 4]
  {
    if m.littleEndian {
      assert preparedKey[..4][i] == preparedKey[i];
    } else {
      ReversedAt(preparedKey[..4], i);
      ReversedAt(preparedKey, i + m.wordSize - 4);
      hide Reversed;
    }
  }

  lemma CarriedSize(m: Machine, preparedKey: Word, key: Key, phase: nat)
    requires Carries(m, preparedKey, key, phase)
    ensures m.Supported() && |preparedKey| == m.wordSize
  {
  }

  lemma KeyIndexTwice(phase: nat, i: nat)
    ensures KeyIndex(phase + KeyIndex(i)) == KeyIndex(phase + i)
    ensures KeyIndex(0 + i) == KeyIndex(i)
  {
    Mod4Then4(phase, i);
  }

  lemma ByteCircIsMasked(m: Machine, data: seq<bv8>, preparedKey: Word, key: Key, phase: nat)
    requires Carries(m, preparedKey, key, phase)
    ensures ByteCircMasked(m, data, preparedKey) == Masked(data, key, phase)
  {
    CarriedSize(m, preparedKey, key, phase);
    hide Carries, TruncatedKey, KeyIndex;
    forall i | 0 <= i < |data|
      ensures ByteCircMasked(m, data, preparedKey)[i] == Masked(data, key, phase)[i]
    {
      TruncatedKeyKeepsPhase(m, preparedKey, key, phase, KeyIndex(i));
      KeyIndexTwice(phase, i);
    }
  }

  /** Shifting by any amount equal to the length modulo 4 advances the phase by the length. */
  lemma CircshiftAdvancesPhase(m: Machine, preparedKey: Word, key: Key, phase: nat, offset: nat, length: nat)
    requires Carries(m, preparedKey, key, phase)
    requires offset < m.wordSize && KeyIndex(offset) == KeyIndex(length)
    ensures Carries(m, CircshiftPreparedKey(m, preparedKey, offset), key, phase + length)
  {
    var memory := Store(m, preparedKey);
    CircshiftRotatesMemory(m, preparedKey, offset);
    hide CircshiftPreparedKey, Store;
    var next := CircshiftPreparedKey(m, preparedKey, offset);
    var shifted := phase + length;
    forall i: nat | i < m.wordSize
      ensures KeyAt(m, next, key, shifted, i)
    {
      var j := if i + offset < m.wordSize then i + offset else i + offset - m.wordSize;
      assert Rotated(memory, offset)[i] == memory[j];
      assert KeyAt(m, preparedKey, key, phase, j);
      SamePhase(m, phase, offset, length, i);
    }
  }

  lemma SamePhase(m: Machine, phase: nat, offset: nat, length: nat, i: nat)
    requires m.Supported() && KeyIndex(offset) == KeyIndex(length)
    ensures KeyIndex(phase + i + offset) == KeyIndex(phase + length + i)
    ensures i + offset >= m.wordSize ==> KeyIndex(phase + (i + offset - m.wordSize)) == KeyIndex(phase + length + i)
  {
    SameKeyIndex(phase + i, offset, length);
    if i + offset >= m.wordSize {
      MoreFours(phase + (i + offset - m.wordSize), if m.wordSize == 8 then 2 else 1);
    }
  }

  lemma SameKeyIndex(n: nat, a: nat, b: nat)
    requires KeyIndex(a) == KeyIndex(b)
    ensures KeyIndex(n + a) == KeyIndex(n + b)
  {
    MoreFours(n + a % 4, a / 4);
    MoreFours(n + b % 4, b / 4);
  }

  lemma SlotKeyIndex(m: Machine, length: nat)
    requires m.Supported()
    ensures KeyIndex(m.Slot(length)) == KeyIndex(length) && KeyIndex(length % 4) == KeyIndex(length)
  {
    SlotKeepsKeyIndex(m, 0, length);
    Mod4Then4(0, length);
  }

  lemma WordChunkIsMasked(m: Machine, chunk: seq<bv8>, preparedKey: Word, key: Key, phase: nat)
    requires m.Supported() && |preparedKey| == m.wordSize && Carries(m, preparedKey, key, phase)
    ensures WordCircMasked(m, chunk, preparedKey) == Masked(chunk, key, phase)
    ensures Carries(m, CircshiftPreparedKey(m, preparedKey, m.Slot(|chunk|)), key, phase + |chunk|)
  {
    hide *;
    SlotKeyIndex(m, |chunk|);
    WordCircIsMasked(m, chunk, preparedKey, key, phase);
    CircshiftAdvancesPhase(m, preparedKey, key, phase, m.Slot(|chunk|), |chunk|);
  }

  lemma ByteChunkIsMasked(m: Machine, chunk: seq<bv8>, preparedKey: Word, key: Key, phase: nat)
    requires m.Supported() && |preparedKey| == m.wordSize && Carries(m, preparedKey, key, phase) && |chunk| % 4 < m.wordSize
    ensures ByteCircMasked(m, chunk, preparedKey) == Masked(chunk, key, phase)
    ensures Carries(m, CircshiftPreparedKey(m, preparedKey, |chunk| % 4), key, phase + |chunk|)
  {
    hide *;
    SlotKeyIndex(m, |chunk|);
    ByteCircIsMasked(m, chunk, preparedKey, key, phase);
    CircshiftAdvancesPhase(m, preparedKey, key, phase, |chunk| % 4, |chunk|);
  }

  lemma ChunkIsMasked(m: Machine, step: Step, preparedKey: Word, key: Key, phase: nat)
    requires m.Supported() && |preparedKey| == m.wordSize && Carries(m, preparedKey, key, phase)
    ensures MaskChunk(m, step, preparedKey).0 == Masked(step.chunk, key, phase)
    ensures Carries(m, MaskChunk(m, step, preparedKey).1, key, phase + |step.chunk|)
  {
    hide *;
    MaskChunkUnfolds(m, step, preparedKey);
    match step.form
    case WordCirc => WordChunkIsMasked(m, step.chunk, preparedKey, key, phase);
    case ByteCirc => ByteChunkIsMasked(m, step.chunk, preparedKey, key, phase);
  }

  lemma MaskChunkUnfolds(m: Machine, step: Step, preparedKey: Word)
    requires m.Supported() && |preparedKey| == m.wordSize
    ensures |step.chunk| % 4 < m.wordSize
    ensures MaskChunk(m, step, preparedKey)
         == match step.form
            case WordCirc => (WordCircMasked(m, step.chunk, preparedKey), CircshiftPreparedKey(m, preparedKey, m.Slot(|step.chunk|)))
            case ByteCirc => (ByteCircMasked(m, step.chunk, preparedKey), CircshiftPreparedKey(m, preparedKey, |step.chunk| % 4))
  {
  }

  lemma MaskedJoined(chunk: seq<bv8>, rest: seq<bv8>, key: Key, phase: nat)
    ensures Masked(chunk + rest, key, phase) == Masked(chunk, key, phase) + Masked(rest, key, phase + |chunk|)
  {
    MaskedInTwo(chunk + rest, key, phase, |chunk|);
    assert (chunk + rest)[..|chunk|] == chunk && (chunk + rest)[|chunk|..] == rest;
  }

  lemma {:induction false} StreamFromPhase(m: Machine, steps: seq<Step>, preparedKey: Word, key: Key, phase: nat)
    requires m.Supported() && |preparedKey| == m.wordSize
    requires Carries(m, preparedKey, key, phase)
    ensures MaskStream(m, steps, preparedKey).0 == Masked(Joined(steps), key, phase)
    ensures Carries(m, MaskStream(m, steps, preparedKey).1, key, phase + |Joined(steps)|)
    decreases |steps|
  {
    hide MaskChunk, Carries, Masked;
    if steps == [] {
      MaskedNothing(key, phase);
    } else {
      var chunk, rest := steps[0].chunk, Joined(steps[1..]);
      var (out, next) := MaskChunk(m, steps[0], preparedKey);
      ChunkIsMasked(m, steps[0], preparedKey, key, phase);
      StreamFromPhase(m, steps[1..], next, key, phase + |chunk|);
      MaskedJoined(chunk, rest, key, phase);
    }
  }

  lemma MaskedNothing(key: Key, phase: nat)
    ensures Masked([], key, phase) == []
  {
  }

  /** Streaming refines `byte_mask`: any cut into chunks, any mix of forms, both word sizes, both byte orders. */
  lemma StreamIsByteMask(m: Machine, steps: seq<Step>, key: Key)
    requires m.Supported()
    ensures MaskStream(m, steps, PrepareMaskingKey(m, key)).0 == Masked(Joined(steps), key, 0)
    ensures Carries(m, MaskStream(m, steps, PrepareMaskingKey(m, key)).1, key, |Joined(steps)|)
  {
    hide *;
    PreparedKeyCarries(m, key);
    CarriedSize(m, PrepareMaskingKey(m, key), key, 0);
    StreamFromPhase(m, steps, PrepareMaskingKey(m, key), key, 0);
  }

  datatype Cut = Cut(form: Form, length: nat)

  function TotalLength(cuts: seq<Cut>): nat {
    if cuts == [] then 0 else TotalLength(cuts[..|cuts| - 1]) + cuts[|cuts| - 1].length
  }

  lemma TotalStep(cuts: seq<Cut>, i: nat)
    requires i < |cuts|
    ensures TotalLength(cuts[..i + 1]) == TotalLength(cuts[..i]) + cuts[i].length <= TotalLength(cuts)
    ensures cuts[..0] == [] && cuts[..|cuts|] == cuts
  {
    assert cuts[..i + 1][..i] == cuts[..i];
    TotalGrows(cuts, i + 1);
  }

  lemma {:induction false} TotalGrows(cuts: seq<Cut>, n: nat)
    requires n <= |cuts|
    ensures TotalLength(cuts[..n]) <= TotalLength(cuts)
    decreases |cuts| - n
  {
    if n < |cuts| {
      assert cuts[..n + 1][..n] == cuts[..n];
      TotalGrows(cuts, n + 1);
    } else {
      assert cuts[..n] == cuts;
    }
  }

  /** The routines called piece by piece on one buffer, in place, each with the key the last call returned. */
  method MaskInPieces(m: Machine, buffer: array<bv8>, cuts: seq<Cut>, key: Key)
    requires m.Supported() && TotalLength(cuts) <= buffer.Length
    modifies buffer
    ensures buffer[..] == Patched(old(buffer[..]), 0, Masked(old(buffer[..])[..TotalLength(cuts)], key, 0))
  {
    PreparedKeyCarries(m, key);
    MaskPieces(m, buffer, cuts, PrepareMaskingKey(m, key), key);
  }

  method MaskPieces(m: Machine, buffer: array<bv8>, cuts: seq<Cut>, firstKey: Word, ghost key: Key)
    requires m.Supported() && |firstKey| == m.wordSize && Carries(m, firstKey, key, 0)
    requires TotalLength(cuts) <= buffer.Length
    modifies buffer
    ensures buffer[..] == Patched(old(buffer[..]), 0, Masked(old(buffer[..])[..TotalLength(cuts)], key, 0))
  {
    hide *;
    ghost var was := buffer[..];
    var preparedKey, at := firstKey, 0;
    NothingMasked(was, cuts, key);
    for i := 0 to |cuts|
      invariant at == TotalLength(cuts[..i]) <= buffer.Length
      invariant |preparedKey| == m.wordSize && Carries(m, preparedKey, key, at)
      invariant buffer[..] == Patched(was, 0, Masked(was[..at], key, 0))
    {
      TotalStep(cuts, i);
      PieceJoins(was, at, cuts[i].length, key);
      preparedKey := MaskPiece(m, buffer, at, cuts[i], preparedKey, key);
      at := at + cuts[i].length;
    }
  }

  lemma NothingMasked(buffer: seq<bv8>, cuts: seq<Cut>, key: Key)
    ensures buffer == Patched(buffer, 0, Masked(buffer[..0], key, 0))
    ensures TotalLength(cuts[..0]) == 0 && cuts[..|cuts|] == cuts
  {
  }

  method MaskPiece(m: Machine, buffer: array<bv8>, at: nat, cut: Cut, preparedKey: Word, ghost key: Key) returns (next: Word)
    requires m.Supported() && |preparedKey| == m.wordSize && Carries(m, preparedKey, key, at)
    requires at + cut.length <= buffer.Length
    modifies buffer
    ensures buffer[..] == Patched(old(buffer[..]), at, Masked(old(buffer[..])[at..at + cut.length], key, at))
    ensures |next| == m.wordSize && Carries(m, next, key, at + cut.length)
  {
    hide Carries, Masked, WordCircMasked, ByteCircMasked, CircshiftPreparedKey;
    ghost var chunk := buffer[at..at + cut.length];
    assert chunk == buffer[..][at..at + cut.length];
    ChunkIsMasked(m, Step(cut.form, chunk), preparedKey, key, at);
    match cut.form
    case WordCirc => next := WordMaskCirc(m, buffer, at, buffer, at, cut.length, preparedKey);
    case ByteCirc => next := ByteMaskCirc(m, buffer, at, buffer, at, cut.length, preparedKey);
  }

  lemma PatchedBehind(buffer: seq<bv8>, bytes: seq<bv8>, i: nat, j: nat)
    requires |bytes| <= i <= j <= |buffer|
    ensures Patched(buffer, 0, bytes)[i..j] == buffer[i..j]
  {
    forall k | i <= k < j
      ensures Patched(buffer, 0, bytes)[k] == buffer[k]
    {
      assert buffer[|bytes|..][k - |bytes|] == buffer[k];
    }
  }

  lemma PieceJoins(was: seq<bv8>, at: nat, length: nat, key: Key)
    requires at + length <= |was|
    ensures var before := Patched(was, 0, Masked(was[..at], key, 0));
            before[at..at + length] == was[at..at + length]
            && Patched(before, at, Masked(was[at..at + length], key, at)) == Patched(was, 0, Masked(was[..at + length], key, 0))
  {
    hide Masked, Patched;
    PatchedBehind(was, Masked(was[..at], key, 0), at, at + length);
    MaskedJoined(was[..at], was[at..at + length], key, 0);
    assert was[..at] + was[at..at + length] == was[..at + length];
    PatchedTwice(was, 0, Masked(was[..at], key, 0), Masked(was[at..at + length], key, at));
  }

  lemma MaskedTwice(data: seq<bv8>, key: Key, offset: nat)
    ensures Masked(Masked(data, key, offset), key, offset) == data
  {
  }

  /** What one machine masked, cut its own way, another machine unmasks, cut another way. */
  lemma StreamUnmasksStream(sender: Machine, sent: seq<Step>, receiver: Machine, received: seq<Step>, key: Key)
    requires sender.Supported() && receiver.Supported()
    requires Joined(received) == MaskStream(sender, sent, PrepareMaskingKey(sender, key)).0
    ensures MaskStream(receiver, received, PrepareMaskingKey(receiver, key)).0 == Joined(sent)
  {
    StreamIsByteMask(sender, sent, key);
    StreamIsByteMask(receiver, received, key);
    MaskedTwice(Joined(sent), key, 0);
  }

  /** The ways to mask a buffer in place: each one-shot form, or the circular forms piece by piece. */
  datatype Way = ByByte | ByWord(m: Machine) | ByPieces(m: Machine, cuts: seq<Cut>)

  predicate Covers(way: Way, length: nat) {
    match way
    case ByByte => true
    case ByWord(m) => m.Supported()
    case ByPieces(m, cuts) => m.Supported() && TotalLength(cuts) == length
  }

  method MaskBy(way: Way, buffer: array<bv8>, key: Key)
    requires Covers(way, buffer.Length)
    modifies buffer
    ensures buffer[..] == Masked(old(buffer[..]), key, 0)
  {
    hide Masked, Patched, TotalLength;
    ghost var was := buffer[..];
    assert was[0..buffer.Length] == was[..buffer.Length] == was && buffer[0..buffer.Length] == was;
    PatchedWhole(was, Masked(was, key, 0));
    match way
    case ByByte => ByteMask(buffer, 0, buffer.Length, buffer, 0, key, 0);
    case ByWord(m) => WordMaskExact(m, buffer, 0, buffer, 0, buffer.Length, key);
    case ByPieces(m, cuts) => MaskInPieces(m, buffer, cuts, key);
  }

  lemma PatchedWhole(was: seq<bv8>, bytes: seq<bv8>)
    requires |was| == |bytes|
    ensures Patched(was, 0, bytes) == bytes
  {
  }

  /** Masking twice under any two of the four forms, each on its own machine and cut its own way, restores the buffer. */
  method MaskTwice(first: Way, second: Way, buffer: array<bv8>, key: Key)
    requires Covers(first, buffer.Length) && Covers(second, buffer.Length)
    modifies buffer
    ensures buffer[..] == old(buffer[..])
  {
    hide *;
    MaskedTwice(buffer[..], key, 0);
    MaskBy(first, buffer, key);
    MaskBy(second, buffer, key);
  }

  /** In memory, byte i and byte i + 4 of the word agree. */
  ghost predicate Repeats(m: Machine, preparedKey: Word)
    requires m.Supported() && |preparedKey| == m.wordSize
  {
    forall i: nat :: i + 4 < m.wordSize ==> Store(m, preparedKey)[i] == Store(m, preparedKey)[i + 4]
  }

  lemma RepeatingKeyAgrees(m: Machine, preparedKey: Word, data: seq<bv8>)
    requires m.Supported() && |preparedKey| == m.wordSize && Repeats(m, preparedKey)
    ensures ByteCircMasked(m, data, preparedKey) == WordCircMasked(m, data, preparedKey)
  {
    var key: Key := Store(m, preparedKey)[..4];
    assert Carries(m, preparedKey, key, 0);
    WordCircIsMasked(m, data, preparedKey, key, 0);
    ByteCircIsMasked(m, data, preparedKey, key, 0);
  }

  /** Masking zeros writes the key bytes themselves. */
  lemma ZerosShowKey(m: Machine, preparedKey: Word, i: nat)
    requires m.Supported() && |preparedKey| == m.wordSize && i + 4 < m.wordSize
    ensures WordCircMasked(m, Zeros(8), preparedKey)[i] == Store(m, preparedKey)[i]
    ensures WordCircMasked(m, Zeros(8), preparedKey)[i + 4] == Store(m, preparedKey)[i + 4]
    ensures ByteCircMasked(m, Zeros(8), preparedKey)[i] == ByteCircMasked(m, Zeros(8), preparedKey)[i + 4]
  {
    assert m.Slot(i) == i && m.Slot(i + 4) == i + 4;
    WordCircAt(m, Zeros(8), preparedKey, i);
    WordCircAt(m, Zeros(8), preparedKey, i + 4);
    assert KeyIndex(0 + i) == KeyIndex(0 + (i + 4));
    var memory := Store(m, preparedKey);
    XorZero(memory[i]);
    XorZero(memory[i + 4]);
    hide Store, WordCircMasked;
  }

  lemma XorZero(b: bv8)
    ensures 0 ^ b == b
  {
  }

  /** The byte form keeps only half of an 8-byte word: it agrees with the word form exactly for keys that repeat. */
  lemma FormsAgreeIffKeyRepeats(m: Machine, preparedKey: Word)
    requires m.Supported() && |preparedKey| == m.wordSize
    ensures (forall data :: ByteCircMasked(m, data, preparedKey) == WordCircMasked(m, data, preparedKey))
       <==> Repeats(m, preparedKey)
  {
    if Repeats(m, preparedKey) {
      forall data: seq<bv8>
        ensures ByteCircMasked(m, data, preparedKey) == WordCircMasked(m, data, preparedKey)
      {
        RepeatingKeyAgrees(m, preparedKey, data);
      }
    } else {
      var i: nat :| i + 4 < m.wordSize && Store(m, preparedKey)[i] != Store(m, preparedKey)[i + 4];
      ZerosShowKey(m, preparedKey, i);
    }
  }
}
