/**
 * `basic_streambuf` of asio: a byte queue kept as get and put pointers into one growable array, compacted and
 * resized by `reserve`, with a hard limit on its size. Pointers are offsets into the array; `std::length_error`
 * is a false result.
 */
module Streambuf {
  import opened Wrappers

  const BUFFER_DELTA := 128

  function Min(a: nat, b: nat): nat {
    if a < b then a else b
  }

  function Max(a: nat, b: nat): nat {
    if a < b then b else a
  }

  /** A buffer after the `count` bytes at `from` were moved to its start (`memmove`). */
  function Shifted(buffer: seq<bv8>, from: nat, count: nat): (r: seq<bv8>)
    requires from + count <= |buffer|
    ensures |r| == |buffer|
  {
    buffer[from..from + count] + buffer[count..]
  }

  /** The array after a `reserve` that threw: moved bytes, seen through pointers that were not moved. */
  function AfterThrow(buffer: seq<bv8>, gptr: nat, pptr: nat): (r: seq<bv8>)
    requires gptr <= pptr <= |buffer|
    ensures |r| == |buffer|
  {
    if gptr > 0 then Shifted(buffer, gptr, pptr - gptr) else buffer
  }

  /** The input sequence seen after a throw, when `gap` bytes of the array were before it. */
  function DataAfterThrow(data: seq<bv8>, gap: nat): (r: seq<bv8>)
    ensures |r| == |data|
  {
    if gap < |data| then data[gap..] + data[|data| - gap..] else data
  }

  lemma ShiftedFront(buffer: seq<bv8>, from: nat, count: nat)
    requires from + count <= |buffer|
    ensures Shifted(buffer, from, count)[..count] == buffer[from..from + count]
  {
  }

  lemma Filled(was: seq<bv8>, now: seq<bv8>, gptr: nat, pptr: nat, epptr: nat, bytes: seq<bv8>)
    requires gptr <= pptr <= pptr + |bytes| <= epptr <= |was| == |now|
    requires forall i :: 0 <= i < |now| ==> now[i] == if pptr <= i < pptr + |bytes| then bytes[i - pptr] else was[i]
    ensures now[gptr..pptr] == was[gptr..pptr] && now[pptr..epptr] == bytes + was[pptr..epptr][|bytes|..]
  {
  }

  /** The input and the output sequence. */
  datatype State = State(data: seq<bv8>, output: seq<bv8>)

  class Streambuf {
    const maxSize: nat
    var buffer: array<bv8>
    var gptr: nat
    var egptr: nat
    var pptr: nat
    var epptr: nat

    ghost predicate Valid()
      reads this
    {
      && gptr <= egptr <= pptr <= epptr <= maxSize
      && buffer.Length == Max(epptr, 1)
    }

    /** The input sequence. */
    function Data(): seq<bv8>
      requires Valid()
      reads this, buffer
    {
      buffer[gptr..pptr]
    }

    /** The output sequence. */
    function Output(): seq<bv8>
      requires Valid()
      reads this, buffer
    {
      buffer[pptr..epptr]
    }

    /** Both sequences, the state a caller sees. */
    function View(): (s: State)
      requires Valid()
      reads this, buffer
      ensures |s.data| + |s.output| <= maxSize
    {
      State(Data(), Output())
    }

    function Size(): (n: nat)
      requires Valid()
      reads this, buffer
      ensures n == |Data()| <= maxSize
    {
      pptr - gptr
    }

    constructor (maximumSize: nat)
      ensures Valid() && fresh(buffer) && maxSize == maximumSize && gptr == 0
      ensures View().data == [] && |View().output| == Min(maximumSize, 128)
    {
      maxSize := maximumSize;
      var pend := Min(maximumSize, BUFFER_DELTA);
      buffer := new bv8[Max(pend, 1)](_ => 0);
      gptr, egptr, pptr, epptr := 0, 0, 0, pend;
    }

    /** `buffer_.resize(size)`, to no less than the current size. */
    method Resize(size: nat)
      requires buffer.Length <= size
      modifies this`buffer
      ensures buffer.Length == size && fresh(buffer)
      ensures buffer[..old(buffer.Length)] == old(buffer[..])
    {
      var bigger := new bv8[size](_ => 0);
      forall i | 0 <= i < buffer.Length {
        bigger[i] := buffer[i];
      }
      buffer := bigger;
    }

    /** Shifts the input sequence to the start of the array, and gives its end there. */
    method ShiftToStart() returns (pnext: nat)
      requires Valid()
      modifies buffer
      ensures pnext == pptr - gptr && buffer[..pnext] == old(Data())
      ensures buffer[..] == AfterThrow(old(buffer[..]), gptr, pptr)
    {
      ghost var was := buffer[..];
      pnext := pptr;
      if gptr > 0 {
        pnext := pnext - gptr;
        MoveToStart(gptr, pnext);
        ShiftedFront(was, gptr, pnext);
        hide Shifted;
        assert buffer[..pnext] == buffer[..][..pnext] == was[gptr..pptr];
      }
    }

    method MoveToStart(from: nat, count: nat)
      requires from + count <= buffer.Length
      modifies buffer
      ensures buffer[..] == Shifted(old(buffer[..]), from, count)
    {
      forall i | 0 <= i < count {
        buffer[i] := buffer[from + i];
      }
    }

    /** Makes room for n more bytes. When it throws the bytes have been moved but the pointers have not. */
    method Reserve(n: nat) returns (ok: bool)
      requires Valid()
      modifies this, buffer
      ensures Valid() && (buffer == old(buffer) || fresh(buffer))
      ensures ok <==> old(Size()) + n <= maxSize
      ensures ok ==> Data() == old(Data()) && n <= epptr - pptr
      ensures ok ==> gptr == old(gptr) || gptr == 0
      ensures n <= |old(Output())| ==> View() == old(View())
      ensures ok && n > |old(Output())| ==> |Output()| == Max(n, |old(Output())| + old(gptr))
      ensures !ok ==> buffer == old(buffer) && gptr == old(gptr) && egptr == old(egptr) && pptr == old(pptr) && epptr == old(epptr)
      ensures !ok ==> buffer[..] == AfterThrow(old(buffer[..]), gptr, pptr)
    {
      hide AfterThrow, Shifted;
      if n <= epptr - pptr {
        return true;
      }
      ghost var data := Data();
      var pnext := ShiftToStart();
      var pend := epptr;
      if n > pend - pnext {
        if n <= maxSize && pnext <= maxSize - n {
          pend := pnext + n;
          ghost var front := buffer[..];
          Resize(Max(pend, 1));
          assert buffer[..pnext] == front[..pnext];
        } else {
          return false;
        }
      }
      assert buffer[..pnext] == data;
      gptr, egptr, pptr, epptr := 0, pnext, pnext, pend;
      ok := true;
    }

    /** What the input sequence must be like to survive a `prepare` that throws: nothing of the array before it, or
        at least as much as it holds, or it repeats with that period. */
    ghost predicate SurvivesThrow()
      requires Valid()
      reads this, buffer
    {
      var data := Data();
      gptr >= |data| || data[gptr..] == data[..|data| - gptr]
    }

    /** Makes an output sequence of at least n bytes. It throws when documented, and then `data()` may have changed. */
    method Prepare(n: nat) returns (ok: bool)
      requires Valid()
      modifies this, buffer
      ensures Valid() && (buffer == old(buffer) || fresh(buffer))
      ensures ok <==> old(Size()) + n <= maxSize
      ensures ok ==> Data() == old(Data()) && n <= epptr - pptr
      ensures ok ==> gptr == old(gptr) || gptr == 0
      ensures n <= |old(Output())| ==> View() == old(View())
      ensures ok && n > |old(Output())| ==> |Output()| == Max(n, |old(Output())| + old(gptr))
      ensures !ok ==> buffer == old(buffer) && gptr == old(gptr) && egptr == old(egptr) && pptr == old(pptr) && epptr == old(epptr)
      ensures Data() == old(Data()) <==> old(Size()) + n <= maxSize || old(SurvivesThrow())
      ensures !ok ==> Data() == DataAfterThrow(old(Data()), gptr)
    {
      hide AfterThrow, DataAfterThrow;
      ghost var was := buffer[..];
      assert was[gptr..pptr] == Data();
      ok := Reserve(n);
      if !ok {
        assert buffer[..][gptr..pptr] == Data();
        ThrownData(was, gptr, pptr);
        ThrowKeepsDataIff(was[gptr..pptr], gptr);
      }
    }

    /** What a caller does with the buffers `prepare` returned. */
    method FillOutput(bytes: seq<bv8>)
      requires Valid() && |bytes| <= epptr - pptr
      modifies buffer
      ensures Valid() && Data() == old(Data())
      ensures Output() == bytes + old(Output())[|bytes|..]
    {
      ghost var was := buffer[..];
      forall i | 0 <= i < |bytes| {
        buffer[pptr + i] := bytes[i];
      }
      Filled(was, buffer[..], gptr, pptr, epptr, bytes);
      assert buffer[..][gptr..pptr] == buffer[gptr..pptr] && buffer[..][pptr..epptr] == buffer[pptr..epptr];
    }

    /** The front of the output sequence joins the input sequence. */
    method Commit(n: nat)
      requires Valid()
      modifies this`pptr, this`egptr
      ensures Valid()
      ensures Data() == old(Data()) + old(Output())[..Min(n, |old(Output())|)]
      ensures Output() == old(Output())[Min(n, |old(Output())|)..]
      ensures gptr == old(gptr) && egptr == pptr
    {
      var count := Min(n, epptr - pptr);
      pptr := pptr + count;
      egptr := pptr;
    }

    method Consume(n: nat)
      requires Valid()
      modifies this`gptr, this`egptr
      ensures Valid()
      ensures Data() == old(Data())[Min(n, old(Size()))..] && Output() == old(Output())
      ensures egptr == pptr
      ensures gptr == old(gptr) + Min(n, old(Size()))
    {
      var count := n;
      if egptr < pptr {
        egptr := pptr;
      }
      if gptr + n > pptr {
        count := pptr - gptr;
      }
      gptr := gptr + count;
    }

    method Underflow() returns (c: Option<bv8>)
      requires Valid()
      modifies this`egptr
      ensures Valid() && View() == old(View())
      ensures c == if Data() == [] then None else Some(Data()[0])
      ensures c.Some? ==> egptr == pptr
    {
      if gptr < pptr {
        egptr := pptr;
        c := Some(buffer[gptr]);
      } else {
        c := None;
      }
    }

    /** `*pptr() = c; pbump(1)` */
    method PutNext(c: bv8)
      requires Valid() && pptr < epptr
      modifies this`pptr, buffer
      ensures Valid() && Data() == old(Data()) + [c]
      ensures Output() == old(Output())[1..]
    {
      ghost var data, output := Data(), Output();
      buffer[pptr] := c;
      pptr := pptr + 1;
      assert Data() == data + [c];
      assert Output() == output[1..];
    }

    /** `None` stands for end of file. A character that does not fit leaves everything as it was. */
    method Overflow(c: Option<bv8>) returns (ok: bool)
      requires Valid()
      modifies this, buffer
      ensures Valid() && (buffer == old(buffer) || fresh(buffer))
      ensures ok <==> c.None? || old(Size()) < maxSize
      ensures Data() == if ok && c.Some? then old(Data()) + [c.value] else old(Data())
      ensures if c.None? then Output() == old(Output()) else old(Output()) != [] ==> Output() == old(Output())[1..]
      ensures ok && c.Some? && old(Output()) == [] ==> |Output()| + 1 == Max(Min(128, maxSize - old(Size())), old(gptr))
      ensures !ok ==> buffer == old(buffer) && buffer[..] == old(buffer[..])
      ensures !ok ==> gptr == old(gptr) && egptr == old(egptr) && pptr == old(pptr) && epptr == old(epptr)
    {
      hide *;
      ok := true;
      if c.Some? {
        ok := EnsureRoom();
        if ok {
          PutNext(c.value);
        }
      }
    }

    method EnsureRoom() returns (ok: bool)
      requires Valid()
      modifies this, buffer
      ensures Valid() && (buffer == old(buffer) || fresh(buffer))
      ensures ok <==> old(Size()) < maxSize
      ensures Data() == old(Data()) && (old(Output()) != [] ==> ok && Output() == old(Output()))
      ensures ok ==> pptr < epptr && |Output()| > 0
      ensures ok && old(Output()) == [] ==> |Output()| == Max(Min(128, maxSize - old(Size())), old(gptr))
      ensures !ok ==> buffer == old(buffer) && buffer[..] == old(buffer[..])
      ensures !ok ==> gptr == old(gptr) && egptr == old(egptr) && pptr == old(pptr) && epptr == old(epptr)
    {
      ok := true;
      if pptr == epptr {
        ok := ReserveMore();
      }
      hide Max, Min;
    }

    /** The room `overflow` asks for: another `buffer_delta` bytes, or what is left up to the limit. */
    method ReserveMore() returns (ok: bool)
      requires Valid() && pptr == epptr
      modifies this, buffer
      ensures Valid() && (buffer == old(buffer) || fresh(buffer))
      ensures ok <==> old(Size()) < maxSize
      ensures ok ==> Data() == old(Data()) && pptr < epptr
      ensures ok ==> |Output()| == Max(Min(128, maxSize - old(Size())), old(gptr))
      ensures !ok ==> buffer == old(buffer) && buffer[..] == old(buffer[..])
      ensures !ok ==> gptr == old(gptr) && egptr == old(egptr) && pptr == old(pptr) && epptr == old(epptr)
    {
      var bufferSize := pptr - gptr;
      if bufferSize < maxSize && maxSize - bufferSize < BUFFER_DELTA {
        ok := Reserve(maxSize - bufferSize);
      } else {
        ok := Reserve(BUFFER_DELTA);
      }
    }

    /** How much the read operations ask `prepare` for. The capacity of the vector is at least its size. */
    method ReadSizeHelper(capacity: nat, maximum: nat) returns (n: nat)
      requires Valid() && capacity >= buffer.Length
      ensures n <= maximum && Size() + n <= maxSize && (n <= 512 || n <= capacity - Size())
      ensures n < maximum && Size() + n < maxSize ==> n >= 512 && n >= capacity - Size()
      ensures n == 0 <==> maximum == 0 || Size() == maxSize
    {
      n := Min(Max(512, capacity - Size()), Min(maximum, maxSize - Size()));
    }

    /** `sputc` of `std::streambuf`: store at the put pointer, or call `overflow` when there is no room. */
    method Sputc(c: bv8) returns (ok: bool)
      requires Valid()
      modifies this, buffer
      ensures Valid() && (buffer == old(buffer) || fresh(buffer))
      ensures ok <==> old(Size()) < maxSize
      ensures Data() == if ok then old(Data()) + [c] else old(Data())
      ensures old(Output()) != [] ==> Output() == old(Output())[1..]
    {
      if pptr < epptr {
        PutNext(c);
        ok := true;
      } else {
        ok := Overflow(Some(c));
      }
    }

    /** `sbumpc` of `std::streambuf`: take the byte at the get pointer, asking `underflow` when none is known. */
    method Sbumpc() returns (c: Option<bv8>)
      requires Valid()
      modifies this`gptr, this`egptr
      ensures Valid() && Output() == old(Output())
      ensures old(Data()) == [] ==> c == None && Data() == []
      ensures old(Data()) != [] ==> c == Some(old(Data())[0]) && Data() == old(Data())[1..]
    {
      if gptr < egptr {
        c := Some(buffer[gptr]);
        gptr := gptr + 1;
      } else {
        c := Underflow();
        if c.Some? {
          gptr := gptr + 1;
        }
      }
    }
  }

  // ---------- the queue over whole runs ----------

  /** What can be done with a streambuf, in any order. `Write` stores bytes in the buffers `prepare` returned, as many as fit. */
  datatype Op = Prepare(n: nat) | Write(bytes: seq<bv8>) | Commit(n: nat) | Consume(n: nat) | Sputc(c: bv8) | Sbumpc

  /** The bytes an operation adds at the back of the queue. */
  function Added(maxSize: nat, s: State, op: Op): seq<bv8> {
    match op
    case Commit(n) => s.output[..Min(n, |s.output|)]
    case Sputc(c) => if |s.data| < maxSize then [c] else []
    case _ => []
  }

  /** The bytes it takes from the front. */
  function Taken(s: State, op: Op): (r: seq<bv8>)
    ensures r <= s.data
  {
    match op
    case Consume(n) => s.data[..Min(n, |s.data|)]
    case Sbumpc => s.data[..Min(1, |s.data|)]
    case _ => []
  }

  /** What becomes of the output sequence. Only the bytes of room that had to be made are not determined. */
  predicate OutputAfter(s: State, op: Op, output: seq<bv8>) {
    match op
    case Prepare(n) => n <= |output| && (n <= |s.output| ==> output == s.output)
    case Write(bytes) => output == bytes[..Min(|bytes|, |s.output|)] + s.output[Min(|bytes|, |s.output|)..]
    case Commit(n) => output == s.output[Min(n, |s.output|)..]
    case Sputc(_) => s.output != [] ==> output == s.output[1..]
    case _ => output == s.output
  }

  predicate Throws(maxSize: nat, s: State, op: Op) {
    op.Prepare? && |s.data| + op.n > maxSize
  }

  predicate Next(maxSize: nat, s: State, op: Op, t: State) {
    && !Throws(maxSize, s, op)
    && t.data == s.data[|Taken(s, op)|..] + Added(maxSize, s, op)
    && OutputAfter(s, op, t.output)
    && |t.data| + |t.output| <= maxSize
  }

  /** A run: where it started and, after each operation, the state it led to. */
  datatype History = Start(s: State) | Then(before: History, op: Op, s: State) {
    function Ops(): seq<Op> {
      if Start? then [] else before.Ops() + [op]
    }

    /** Every state follows from the one before it, and the queue starts empty. */
    predicate Follows(maxSize: nat) {
      if Start? then s.data == [] && |s.output| <= maxSize
      else before.Follows(maxSize) && Next(maxSize, before.s, op, s)
    }

    function AllAdded(maxSize: nat): seq<bv8> {
      if Start? then [] else before.AllAdded(maxSize) + Added(maxSize, before.s, op)
    }

    function AllTaken(): seq<bv8> {
      if Start? then [] else before.AllTaken() + Taken(before.s, op)
    }
  }

  /** First in, first out: in every run the bytes taken, then the bytes held, are the bytes added, in order. */
  lemma {:induction false} FirstInFirstOut(maxSize: nat, h: History)
    requires h.Follows(maxSize)
    ensures h.AllTaken() + h.s.data == h.AllAdded(maxSize)
    ensures |h.s.data| + |h.s.output| <= maxSize
  {
    if h.Then? {
      FirstInFirstOut(maxSize, h.before);
      StepKeepsBytes(h.before.AllTaken(), h.before.s.data, Taken(h.before.s, h.op), Added(maxSize, h.before.s, h.op));
    }
  }

  lemma StepKeepsBytes(taken: seq<bv8>, data: seq<bv8>, out: seq<bv8>, added: seq<bv8>)
    requires out <= data
    ensures (taken + out) + (data[|out|..] + added) == (taken + data) + added
  {
    assert out + data[|out|..] == data;
  }

  // ---------- the queue its callers see ----------

  /** A caller that commits only what it wrote into buffers it prepared: `written` stands at the front of `room` bytes. */
  datatype Queue = Queue(taken: seq<bv8>, data: seq<bv8>, room: nat, written: seq<bv8>)

  /** One operation; none when `prepare` throws, or the caller uses bytes it did not prepare or did not write. */
  function After(maxSize: nat, q: Queue, op: Op): Option<Queue> {
    match op
    case Prepare(n) => if |q.data| + n > maxSize then None else Some(q.(room := n, written := []))
    case Write(bytes) => if |bytes| > q.room then None else Some(q.(written := bytes))
    case Commit(n) =>
      if n > |q.written| || n > q.room then None
      else Some(q.(data := q.data + q.written[..n], room := q.room - n, written := q.written[n..]))
    case Consume(n) => Some(Take(q, Min(n, |q.data|)))
    case Sbumpc => Some(Take(q, Min(1, |q.data|)))
    case Sputc(c) =>
      if |q.data| == maxSize then Some(q)
      else if q.room == 0 then Some(q.(data := q.data + [c], written := []))
      else Some(q.(data := q.data + [c], room := q.room - 1, written := if q.written == [] then [] else q.written[1..]))
  }

  function Take(q: Queue, n: nat): Queue
    requires n <= |q.data|
  {
    q.(taken := q.taken + q.data[..n], data := q.data[n..])
  }

  function QueueAfter(maxSize: nat, ops: seq<Op>): Option<Queue> {
    if ops == [] then Some(Queue([], [], 0, []))
    else
      match QueueAfter(maxSize, ops[..|ops| - 1])
      case None => None
      case Some(q) => After(maxSize, q, ops[|ops| - 1])
  }

  predicate Shows(q: Queue, s: State) {
    s.data == q.data && |q.written| <= q.room <= |s.output| && q.written <= s.output
  }

  predicate StepAgrees(maxSize: nat, q: Queue, s: State, op: Op, t: State) {
    match After(maxSize, q, op)
    case None => true
    case Some(p) => Shows(p, t) && p.taken == q.taken + Taken(s, op)
  }

  lemma PutShows(maxSize: nat, q: Queue, s: State, c: bv8, t: State)
    requires Shows(q, s) && Next(maxSize, s, Sputc(c), t) && |s.data| + |s.output| <= maxSize
    ensures StepAgrees(maxSize, q, s, Sputc(c), t)
  {
    assert s.data[0..] == s.data && s.data + [] == s.data;
    if q.written != [] {
      assert q.written[1..] == s.output[1..][..|q.written| - 1];
    }
  }

  lemma CommitShows(maxSize: nat, q: Queue, s: State, n: nat, t: State)
    requires Shows(q, s) && Next(maxSize, s, Commit(n), t) && |s.data| + |s.output| <= maxSize
    ensures StepAgrees(maxSize, q, s, Commit(n), t)
  {
    if n <= |q.written| {
      assert q.written[..n] == s.output[..n];
      assert q.written[n..] == s.output[n..][..|q.written| - n];
    }
  }

  lemma StepShows(maxSize: nat, q: Queue, s: State, op: Op, t: State)
    requires Shows(q, s) && Next(maxSize, s, op, t) && |s.data| + |s.output| <= maxSize
    ensures StepAgrees(maxSize, q, s, op, t)
  {
    if op.Sputc? {
      PutShows(maxSize, q, s, op.c, t);
    } else if op.Commit? {
      CommitShows(maxSize, q, s, op.n, t);
    }
  }

  /** Wherever the queue is defined, every run is that queue: same bytes taken, same bytes held. */
  lemma {:induction false} RunIsQueue(maxSize: nat, h: History)
    requires h.Follows(maxSize)
    ensures match QueueAfter(maxSize, h.Ops())
            case None => true
            case Some(q) => Shows(q, h.s) && q.taken == h.AllTaken()
  {
    if h.Then? {
      var ops := h.Ops();
      assert ops[..|ops| - 1] == h.before.Ops() && ops[|ops| - 1] == h.op;
      RunIsQueue(maxSize, h.before);
      FirstInFirstOut(maxSize, h.before);
      var before := QueueAfter(maxSize, h.before.Ops());
      if before.Some? {
        StepShows(maxSize, before.value, h.before.s, h.op, h.s);
      }
    }
  }

  lemma {:induction false} DefinedBefore(maxSize: nat, ops: seq<Op>, k: nat)
    requires k <= |ops| && QueueAfter(maxSize, ops).Some?
    ensures QueueAfter(maxSize, ops[..k]).Some?
  {
    if k == |ops| {
      assert ops[..k] == ops;
    } else {
      DefinedBefore(maxSize, ops[..|ops| - 1], k);
      assert ops[..|ops| - 1][..k] == ops[..k];
    }
  }

  lemma LastOp(maxSize: nat, ops: seq<Op>, k: nat)
    requires k < |ops|
    ensures QueueAfter(maxSize, ops[..k + 1])
         == match QueueAfter(maxSize, ops[..k])
            case None => None
            case Some(q) => After(maxSize, q, ops[k])
  {
    assert ops[..k + 1][..k] == ops[..k];
  }

  lemma DefinedIsNotThrown(maxSize: nat, q: Queue, s: State, op: Op)
    requires Shows(q, s) && After(maxSize, q, op).Some?
    ensures !Throws(maxSize, s, op)
  {
  }

  /** Where the queue is defined no `prepare` throws. */
  lemma NeverThrows(maxSize: nat, ops: seq<Op>, k: nat, h: History)
    requires k < |ops| && QueueAfter(maxSize, ops).Some?
    requires h.Follows(maxSize) && h.Ops() == ops[..k]
    ensures !Throws(maxSize, h.s, ops[k])
  {
    hide *;
    DefinedBefore(maxSize, ops, k + 1);
    LastOp(maxSize, ops, k);
    RunIsQueue(maxSize, h);
    DefinedIsNotThrown(maxSize, QueueAfter(maxSize, ops[..k]).value, h.s, ops[k]);
  }

  /** The usual sequence is defined whenever it fits, and puts the bytes committed, and nothing else, at the back. */
  lemma Received(maxSize: nat, q: Queue, n: nat, bytes: seq<bv8>, k: nat)
    requires |q.data| + n <= maxSize && k <= |bytes| <= n
    ensures var prepared := After(maxSize, q, Prepare(n));
            && prepared.Some?
            && var written := After(maxSize, prepared.value, Write(bytes));
            && written.Some?
            && After(maxSize, written.value, Commit(k)) == Some(Queue(q.taken, q.data + bytes[..k], n - k, bytes[k..]))
  {
  }

  /** The other operations are always defined; a full queue refuses another byte. */
  lemma TakenOrPut(maxSize: nat, q: Queue, n: nat, c: bv8)
    requires |q.data| <= maxSize
    ensures var p := After(maxSize, q, Consume(n));
            p.Some? && p.value.taken + p.value.data == q.taken + q.data && |p.value.data| == if n < |q.data| then |q.data| - n else 0
    ensures After(maxSize, q, Sbumpc) == After(maxSize, q, Consume(1))
    ensures var p := After(maxSize, q, Sputc(c));
            p.Some? && p.value.taken == q.taken && p.value.data == if |q.data| < maxSize then q.data + [c] else q.data
  {
    assert q.data == q.data[..Min(n, |q.data|)] + q.data[Min(n, |q.data|)..];
  }

  // ---------- the streambuf is that queue ----------

  lemma RoomMade(maxSize: nat, s: State, n: nat, t: State)
    requires |s.data| + n <= maxSize && |t.data| + |t.output| <= maxSize
    requires t.data == s.data && n <= |t.output| && (n <= |s.output| ==> t == s)
    ensures Taken(s, Prepare(n)) == [] && Next(maxSize, s, Prepare(n), t)
  {
  }

  lemma BytesWritten(maxSize: nat, s: State, bytes: seq<bv8>, t: State)
    requires |s.data| + |s.output| <= maxSize
    requires t.data == s.data && t.output == bytes[..Min(|bytes|, |s.output|)] + s.output[Min(|bytes|, |s.output|)..]
    ensures Taken(s, Write(bytes)) == [] && Next(maxSize, s, Write(bytes), t)
  {
  }

  lemma BytesCommitted(maxSize: nat, s: State, n: nat, t: State)
    requires |s.data| + |s.output| <= maxSize
    requires t == State(s.data + s.output[..Min(n, |s.output|)], s.output[Min(n, |s.output|)..])
    ensures Taken(s, Commit(n)) == [] && Next(maxSize, s, Commit(n), t)
  {
  }

  lemma BytesTaken(maxSize: nat, s: State, op: Op, n: nat, t: State)
    requires |s.data| + |s.output| <= maxSize
    requires op == Consume(n) || (op == Sbumpc && n == 1)
    requires t == State(s.data[Min(n, |s.data|)..], s.output)
    ensures Taken(s, op) == s.data[..Min(n, |s.data|)] && Next(maxSize, s, op, t)
  {
  }

  lemma BytePut(maxSize: nat, s: State, c: bv8, t: State)
    requires |s.data| <= maxSize && |t.data| + |t.output| <= maxSize
    requires t.data == if |s.data| < maxSize then s.data + [c] else s.data
    requires s.output != [] ==> t.output == s.output[1..]
    ensures Taken(s, Sputc(c)) == [] && Next(maxSize, s, Sputc(c), t)
  {
  }

  lemma ThrowsWhen(maxSize: nat, s: State, op: Op)
    ensures Throws(maxSize, s, op) <==> op.Prepare? && |s.data| + op.n > maxSize
  {
  }

  method TakeBytes(sb: Streambuf, n: nat) returns (out: seq<bv8>)
    requires sb.Valid()
    modifies sb`gptr, sb`egptr
    ensures sb.Valid()
    ensures out == Taken(old(sb.View()), Consume(n)) && Next(sb.maxSize, old(sb.View()), Consume(n), sb.View())
  {
    hide Next, Taken;
    ghost var before := sb.View();
    out := sb.Data()[..Min(n, sb.Size())];
    sb.Consume(n);
    BytesTaken(sb.maxSize, before, Consume(n), n, sb.View());
  }

  method TakeByte(sb: Streambuf) returns (out: seq<bv8>)
    requires sb.Valid()
    modifies sb`gptr, sb`egptr
    ensures sb.Valid()
    ensures out == Taken(old(sb.View()), Sbumpc) && Next(sb.maxSize, old(sb.View()), Sbumpc, sb.View())
  {
    hide Next, Taken;
    ghost var before := sb.View();
    var c := sb.Sbumpc();
    out := if c.Some? then [c.value] else [];
    BytesTaken(sb.maxSize, before, Sbumpc, 1, sb.View());
  }

  method WriteBytes(sb: Streambuf, bytes: seq<bv8>)
    requires sb.Valid()
    modifies sb.buffer
    ensures sb.Valid()
    ensures Taken(old(sb.View()), Write(bytes)) == [] && Next(sb.maxSize, old(sb.View()), Write(bytes), sb.View())
  {
    hide Next, Taken;
    ghost var before := sb.View();
    sb.FillOutput(bytes[..Min(|bytes|, |sb.Output()|)]);
    BytesWritten(sb.maxSize, before, bytes, sb.View());
  }

  method PrepareRoom(sb: Streambuf, n: nat) returns (ok: bool)
    requires sb.Valid()
    modifies sb, sb.buffer
    ensures sb.Valid() && (sb.buffer == old(sb.buffer) || fresh(sb.buffer))
    ensures ok <==> !Throws(sb.maxSize, old(sb.View()), Prepare(n))
    ensures ok ==> Taken(old(sb.View()), Prepare(n)) == [] && Next(sb.maxSize, old(sb.View()), Prepare(n), sb.View())
  {
    hide Next, Taken, Throws;
    ghost var before := sb.View();
    ThrowsWhen(sb.maxSize, before, Prepare(n));
    ok := sb.Prepare(n);
    if ok {
      RoomMade(sb.maxSize, before, n, sb.View());
    }
  }

  method CommitBytes(sb: Streambuf, n: nat)
    requires sb.Valid()
    modifies sb`pptr, sb`egptr
    ensures sb.Valid()
    ensures Taken(old(sb.View()), Commit(n)) == [] && Next(sb.maxSize, old(sb.View()), Commit(n), sb.View())
  {
    hide Next, Taken;
    ghost var before := sb.View();
    sb.Commit(n);
    BytesCommitted(sb.maxSize, before, n, sb.View());
  }

  method PutByte(sb: Streambuf, c: bv8)
    requires sb.Valid()
    modifies sb, sb.buffer
    ensures sb.Valid() && (sb.buffer == old(sb.buffer) || fresh(sb.buffer))
    ensures Taken(old(sb.View()), Sputc(c)) == [] && Next(sb.maxSize, old(sb.View()), Sputc(c), sb.View())
  {
    hide Next, Taken;
    ghost var before := sb.View();
    var stored := sb.Sputc(c);
    BytePut(sb.maxSize, before, c, sb.View());
  }

  method Apply(sb: Streambuf, op: Op) returns (ok: bool, out: seq<bv8>)
    requires sb.Valid()
    modifies sb, sb.buffer
    ensures sb.Valid() && (sb.buffer == old(sb.buffer) || fresh(sb.buffer))
    ensures ok <==> !Throws(sb.maxSize, old(sb.View()), op)
    ensures ok ==> out == Taken(old(sb.View()), op) && Next(sb.maxSize, old(sb.View()), op, sb.View())
  {
    hide *;
    ThrowsWhen(sb.maxSize, sb.View(), op);
    ok, out := true, [];
    match op
    case Prepare(n) => ok := PrepareRoom(sb, n);
    case Write(bytes) => WriteBytes(sb, bytes);
    case Commit(n) => CommitBytes(sb, n);
    case Consume(n) => out := TakeBytes(sb, n);
    case Sputc(c) => PutByte(sb, c);
    case Sbumpc => out := TakeByte(sb);
  }

  lemma OneMoreStep(maxSize: nat, h: History, op: Op, s: State)
    ensures Then(h, op, s).Ops() == h.Ops() + [op]
    ensures Then(h, op, s).AllTaken() == h.AllTaken() + Taken(h.s, op)
    ensures h.Follows(maxSize) && Next(maxSize, h.s, op, s) ==> Then(h, op, s).Follows(maxSize)
  {
  }

  lemma RunStarts(maxSize: nat, s: State)
    requires s.data == [] && |s.output| == Min(maxSize, 128)
    ensures Start(s).Follows(maxSize) && Start(s).Ops() == [] && Start(s).AllTaken() == []
  {
  }

  method TakeStep(sb: Streambuf, op: Op, ghost h: History) returns (ok: bool, out: seq<bv8>, ghost next: History)
    requires sb.Valid() && h.Follows(sb.maxSize) && h.s == sb.View()
    modifies sb, sb.buffer
    ensures sb.Valid() && (sb.buffer == old(sb.buffer) || fresh(sb.buffer))
    ensures ok <==> !Throws(sb.maxSize, h.s, op)
    ensures ok ==> next.Follows(sb.maxSize) && next.s == sb.View()
    ensures ok ==> next.Ops() == h.Ops() + [op] && next.AllTaken() == h.AllTaken() + out
  {
    hide *;
    ok, out := Apply(sb, op);
    next := Then(h, op, sb.View());
    OneMoreStep(sb.maxSize, h, op, sb.View());
  }

  lemma OneMoreOp(ops: seq<Op>, i: nat)
    requires i < |ops|
    ensures ops[..i + 1] == ops[..i] + [ops[i]]
  {
  }

  /** Every run of operations on a new streambuf is a run of the queue: first in, first out, and over early only at a
      `prepare` that throws. */
  method Run(maximumSize: nat, ops: seq<Op>) returns (sb: Streambuf, taken: seq<bv8>, done: nat, ghost h: History)
    ensures fresh(sb) && sb.Valid() && sb.maxSize == maximumSize
    ensures done <= |ops| && h.Ops() == ops[..done] && h.Follows(maximumSize)
    ensures taken == h.AllTaken() && taken + h.s.data == h.AllAdded(maximumSize)
    ensures if done < |ops| then Throws(maximumSize, h.s, ops[done]) else h.s == sb.View()
  {
    hide *;
    sb := new Streambuf(maximumSize);
    taken, done, h := [], 0, Start(sb.View());
    RunStarts(maximumSize, sb.View());
    FirstInFirstOut(maximumSize, h);
    var ok := true;
    while ok && done < |ops|
      invariant fresh(sb) && fresh(sb.buffer) && sb.Valid() && sb.maxSize == maximumSize
      invariant done <= |ops| && h.Ops() == ops[..done] && h.Follows(maximumSize)
      invariant taken == h.AllTaken() && taken + h.s.data == h.AllAdded(maximumSize)
      invariant if ok then h.s == sb.View() else done < |ops| && Throws(maximumSize, h.s, ops[done])
      decreases |ops| - done, ok
    {
      var out;
      ghost var next;
      ok, out, next := TakeStep(sb, ops[done], h);
      if ok {
        OneMoreOp(ops, done);
        FirstInFirstOut(maximumSize, next);
        taken, done, h := taken + out, done + 1, next;
      }
    }
  }

  /** First in, first out, of the streambuf itself: what was taken, and what `data()` still shows, is what was added. */
  method RunQueue(maximumSize: nat, ops: seq<Op>) returns (ok: bool, taken: seq<bv8>, data: seq<bv8>)
    ensures match QueueAfter(maximumSize, ops)
            case None => true
            case Some(q) => ok && taken == q.taken && data == q.data
  {
    var sb, done;
    ghost var h;
    sb, taken, done, h := Run(maximumSize, ops);
    ok, data := done == |ops|, [];
    if ok {
      data := sb.Data();
      assert ops[..done] == ops;
      RunIsQueue(maximumSize, h);
    } else if QueueAfter(maximumSize, ops).Some? {
      NeverThrows(maximumSize, ops, done, h);
    }
  }

  /** `prepare(read_size_helper(sb, maximum))` never throws. */
  method PrepareForRead(sb: Streambuf, capacity: nat, maximum: nat) returns (ok: bool, n: nat)
    requires sb.Valid() && capacity >= sb.buffer.Length
    modifies sb, sb.buffer
    ensures sb.Valid() && ok && sb.Data() == old(sb.Data())
    ensures n <= maximum && n <= sb.epptr - sb.pptr
  {
    n := sb.ReadSizeHelper(capacity, maximum);
    ok := sb.Prepare(n);
  }

  // ---------- a `prepare` that throws ----------

  lemma ThrownData(buffer: seq<bv8>, gptr: nat, pptr: nat)
    requires gptr <= pptr <= |buffer|
    ensures AfterThrow(buffer, gptr, pptr)[gptr..pptr] == DataAfterThrow(buffer[gptr..pptr], gptr)
  {
    var data, count := buffer[gptr..pptr], pptr - gptr;
    var after := AfterThrow(buffer, gptr, pptr);
    forall i | 0 <= i < count
      ensures after[gptr..pptr][i] == DataAfterThrow(data, gptr)[i]
    {
      ThrownByte(buffer, gptr, pptr, gptr + i);
      hide AfterThrow;
      if gptr + i < count {
        assert data[gptr + i] == DataAfterThrow(data, gptr)[i];
      } else {
        assert buffer[gptr + i] == data[i];
      }
    }
  }

  lemma ThrownByte(buffer: seq<bv8>, gptr: nat, pptr: nat, k: nat)
    requires gptr <= pptr <= |buffer| && k < pptr
    ensures AfterThrow(buffer, gptr, pptr)[k] == if k < pptr - gptr then buffer[gptr + k] else buffer[k]
  {
    var count := pptr - gptr;
    if k < count {
      assert buffer[gptr..pptr][k] == buffer[gptr + k];
    } else {
      assert buffer[count..][k - count] == buffer[k];
    }
  }

  lemma ThrowKeepsDataIff(data: seq<bv8>, gap: nat)
    ensures DataAfterThrow(data, gap) == data <==> gap >= |data| || data[gap..] == data[..|data| - gap]
  {
    if gap < |data| {
      var n := |data| - gap;
      assert (data[gap..] + data[n..])[..n] == data[gap..];
      assert data == data[..n] + data[n..];
    }
  }

  /** Three bytes committed, one consumed, then a `prepare` beyond the limit: the two bytes left change. */
  method ThrowingPrepareLosesData() returns (before: seq<bv8>, after: seq<bv8>)
    ensures before == [2, 3] && after == [3, 3]
  {
    var sb := ThreeCommitted();
    hide *;
    OneConsumed(sb);
    sb.Consume(1);
    before := sb.Data();
    var ok := sb.Prepare(3);
    after := sb.Data();
    OneLost(before, 1);
  }

  method ThreeCommitted() returns (sb: Streambuf)
    ensures fresh(sb) && fresh(sb.buffer) && sb.Valid() && sb.maxSize == 4 && sb.gptr == 0 && sb.Data() == [1, 2, 3]
  {
    sb := new Streambuf(4);
    var ok := sb.Prepare(3);
    sb.FillOutput([1, 2, 3]);
    sb.Commit(3);
  }

  lemma OneConsumed(sb: Streambuf)
    requires sb.Valid() && sb.Data() == [1, 2, 3]
    ensures Min(1, sb.Size()) == 1 && sb.Data()[1..] == [2, 3]
  {
  }

  lemma OneLost(data: seq<bv8>, gap: nat)
    ensures data == [2, 3] && gap == 1 ==> DataAfterThrow(data, gap) == [3, 3]
  {
  }
}
