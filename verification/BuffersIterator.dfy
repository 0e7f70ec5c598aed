/**
 * `buffers_iterator` of asio: a random-access iterator over the bytes of a list of buffers, any of which may be
 * empty. Its reference is the plain concatenation of the buffers, and its fields are a function of its position.
 */
module BuffersIterator {

  // ---------- the reference: positions in the concatenation ----------

  function Flatten<T>(buffers: seq<seq<T>>): seq<T> {
    if buffers == [] then [] else Flatten(buffers[..|buffers| - 1]) + buffers[|buffers| - 1]
  }

  /** The position at which buffer k starts. */
  function Start<T>(buffers: seq<seq<T>>, k: nat): nat
    requires k <= |buffers|
  {
    if k == 0 then 0 else Start(buffers, k - 1) + |buffers[k - 1]|
  }

  function Total<T>(buffers: seq<seq<T>>): nat {
    Start(buffers, |buffers|)
  }

  /** A buffer and an offset into it. */
  datatype Cursor = Cursor(current: nat, offset: nat)

  /** The cursor names position p: a byte of a (non-empty) buffer, or the end of the list. */
  ghost predicate Names<T>(buffers: seq<seq<T>>, c: Cursor, p: nat) {
    && c.current <= |buffers|
    && p == Start(buffers, c.current) + c.offset
    && if c.current < |buffers| then c.offset < |buffers[c.current]| else c.offset == 0
  }

  function LocateFrom<T>(buffers: seq<seq<T>>, k: nat, p: nat): (c: Cursor)
    requires k <= |buffers| && Start(buffers, k) <= p <= Total(buffers)
    ensures Names(buffers, c, p)
    decreases |buffers| - k
  {
    if k == |buffers| then Cursor(k, 0)
    else if p - Start(buffers, k) < |buffers[k]| then Cursor(k, p - Start(buffers, k))
    else LocateFrom(buffers, k + 1, p)
  }

  /** The cursor of position p. */
  function Locate<T>(buffers: seq<seq<T>>, p: nat): (c: Cursor)
    requires p <= Total(buffers)
    ensures Names(buffers, c, p)
  {
    LocateFrom(buffers, 0, p)
  }

  lemma {:induction false} StartMonotone<T>(buffers: seq<seq<T>>, i: nat, j: nat)
    requires i <= j <= |buffers|
    ensures Start(buffers, i) <= Start(buffers, j)
    decreases j - i
  {
    if i < j {
      StartMonotone(buffers, i, j - 1);
    }
  }

  /** Canonical form: at most one cursor names a position. */
  lemma NamesUnique<T>(buffers: seq<seq<T>>, c: Cursor, d: Cursor, p: nat)
    requires Names(buffers, c, p) && Names(buffers, d, p)
    ensures c == d
  {
    if c.current < d.current {
      StartMonotone(buffers, c.current + 1, d.current);
    } else if d.current < c.current {
      StartMonotone(buffers, d.current + 1, c.current);
    }
  }

  lemma {:induction false} StartOfFront<T>(buffers: seq<seq<T>>, n: nat, k: nat)
    requires k <= n <= |buffers|
    ensures Start(buffers[..n], k) == Start(buffers, k)
  {
    if k > 0 {
      StartOfFront(buffers, n, k - 1);
    }
  }

  lemma LastBuffer<T>(buffers: seq<seq<T>>)
    requires buffers != []
    ensures Flatten(buffers) == Flatten(buffers[..|buffers| - 1]) + buffers[|buffers| - 1]
  {
  }

  /** The byte under the cursor is the byte of the concatenation; the end cursor is past its last byte. */
  lemma {:induction false} CursorByte<T>(buffers: seq<seq<T>>, c: Cursor, p: nat)
    requires Names(buffers, c, p)
    ensures |Flatten(buffers)| == Total(buffers)
    ensures p < Total(buffers) <==> c.current < |buffers|
    ensures p <= Total(buffers)
    ensures p < Total(buffers) ==> Flatten(buffers)[p] == buffers[c.current][c.offset]
    decreases |buffers|
  {
    if buffers != [] {
      var n := |buffers| - 1;
      var front := buffers[..n];
      StartOfFront(buffers, n, n);
      LastBuffer(buffers);
      hide Flatten;
      if c.current < n {
        StartOfFront(buffers, n, c.current);
        CursorByte(front, c, p);
        StartMonotone(buffers, c.current + 1, n);
      } else {
        CursorByte(front, Cursor(n, 0), Total(front));
      }
    }
  }

  // ---------- the iterator ----------

  class BuffersIterator<T> {
    const buffers: seq<seq<T>>
    var currentBuffer: seq<T>
    var currentBufferPosition: nat
    var current: nat
    var position: nat

    /** At the end `current_buffer_` may be left over from before, so nothing is said of it there. */
    ghost predicate Valid()
      reads this
    {
      && Names(buffers, Cursor(current, currentBufferPosition), position)
      && (current < |buffers| ==> currentBuffer == buffers[current])
    }

    function State(): Cursor
      reads this
    {
      Cursor(current, currentBufferPosition)
    }

    /** The position is one of the concatenation, and it determines the state. */
    lemma StateIsLocated()
      requires Valid()
      ensures position <= Total(buffers) && State() == Locate(buffers, position)
      ensures position < Total(buffers) <==> current < |buffers|
    {
      CursorByte(buffers, State(), position);
      NamesUnique(buffers, State(), Locate(buffers, position), position);
    }

    constructor Begin(buffers: seq<seq<T>>)
      ensures this.buffers == buffers
      ensures Valid() && position == 0
    {
      this.buffers := buffers;
      currentBuffer, currentBufferPosition, current, position := [], 0, 0, 0;
      new;
      while current != |buffers|
        invariant current <= |buffers| && this.buffers == buffers
        invariant currentBufferPosition == 0 && position == 0 == Start(buffers, current)
        decreases |buffers| - current
      {
        currentBuffer := buffers[current];
        if |currentBuffer| > 0 {
          break;
        }
        current := current + 1;
      }
    }

    constructor End(buffers: seq<seq<T>>)
      ensures this.buffers == buffers
      ensures Valid() && position == Total(buffers)
    {
      this.buffers := buffers;
      currentBuffer, currentBufferPosition, current, position := [], 0, 0, 0;
      new;
      while current != |buffers|
        invariant current <= |buffers| && this.buffers == buffers
        invariant currentBufferPosition == 0 && position == Start(buffers, current)
        decreases |buffers| - current
      {
        position := position + |buffers[current]|;
        current := current + 1;
      }
    }

    constructor Copy(other: BuffersIterator<T>)
      requires other.Valid()
      ensures buffers == other.buffers && Valid() && position == other.position
    {
      buffers := other.buffers;
      currentBuffer, currentBufferPosition := other.currentBuffer, other.currentBufferPosition;
      current, position := other.current, other.position;
    }

    method Dereference() returns (b: T)
      requires Valid() && position < Total(buffers)
      ensures |Flatten(buffers)| == Total(buffers) && b == Flatten(buffers)[position]
    {
      CursorByte(buffers, State(), position);
      b := currentBuffer[currentBufferPosition];
    }

    method Equal(other: BuffersIterator<T>) returns (equal: bool)
      requires Valid() && other.Valid() && buffers == other.buffers
      ensures equal <==> State() == other.State()
      ensures equal <==> position == other.position
    {
      equal := position == other.position;
      if equal {
        NamesUnique(buffers, State(), other.State(), position);
      }
    }

    method DistanceTo(other: BuffersIterator<T>) returns (distance: int)
      requires Valid() && other.Valid() && buffers == other.buffers
      ensures position + distance == other.position
      ensures distance == 0 <==> State() == other.State()
    {
      distance := other.position - position;
      if distance == 0 {
        NamesUnique(buffers, State(), other.State(), position);
      }
    }

    method Increment()
      requires Valid() && position < Total(buffers)
      modifies this
      ensures Valid() && position == old(position) + 1
      ensures position <= Total(buffers) && State() == Locate(buffers, position)
    {
      StateIsLocated();
      position := position + 1;
      currentBufferPosition := currentBufferPosition + 1;
      if currentBufferPosition != |currentBuffer| {
        StateIsLocated();
        return;
      }
      current := current + 1;
      currentBufferPosition := 0;
      while current != |buffers|
        invariant current <= |buffers|
        invariant currentBufferPosition == 0 && position == Start(buffers, current) == old(position) + 1
        decreases |buffers| - current
      {
        currentBuffer := buffers[current];
        if |currentBuffer| > 0 {
          StateIsLocated();
          return;
        }
        current := current + 1;
      }
      StateIsLocated();
    }

    method Decrement()
      requires Valid() && position > 0
      modifies this
      ensures Valid() && position == old(position) - 1
      ensures position <= Total(buffers) && State() == Locate(buffers, position)
    {
      position := position - 1;
      if currentBufferPosition != 0 {
        currentBufferPosition := currentBufferPosition - 1;
        StateIsLocated();
        return;
      }
      var iter := current;
      while iter != 0
        invariant 0 <= iter <= current <= |buffers|
        invariant Start(buffers, iter) == position + 1
        invariant current == old(current)
      {
        iter := iter - 1;
        var buffer := buffers[iter];
        if |buffer| > 0 {
          current := iter;
          currentBuffer := buffer;
          currentBufferPosition := |buffer| - 1;
          StateIsLocated();
          return;
        }
      }
    }

    /** Any distance that stays within the buffers: the iterator ends where that many single steps would take it. */
    method Advance(n: int)
      requires Valid() && 0 <= position + n <= Total(buffers)
      modifies this
      ensures Valid() && position == old(position) + n
      ensures position <= Total(buffers) && State() == Locate(buffers, position)
    {
      StateIsLocated();
      if n > 0 {
        AdvanceForward(n);
      } else if n < 0 {
        AdvanceBackward(-n);
      }
    }

    /** The branch of `advance` for a positive distance. */
    method AdvanceForward(distance: nat)
      requires Valid() && distance > 0 && position + distance <= Total(buffers)
      modifies this
      ensures Valid() && position == old(position) + distance
      ensures position <= Total(buffers) && State() == Locate(buffers, position)
    {
      StateIsLocated();
      var n: nat := distance;
      while true
        invariant current < |buffers| && currentBuffer == buffers[current]
        invariant currentBufferPosition <= |currentBuffer|
        invariant position == Start(buffers, current) + currentBufferPosition
        invariant position + n == old(position) + distance
        decreases |buffers| - current
      {
        var balance := |currentBuffer| - currentBufferPosition;
        if balance > n {
          position := position + n;
          currentBufferPosition := currentBufferPosition + n;
          StateIsLocated();
          return;
        }
        n := n - balance;
        position := position + balance;
        current := current + 1;
        if current == |buffers| {
          assert n == 0;
          currentBuffer := [];
          currentBufferPosition := 0;
          StateIsLocated();
          return;
        }
        currentBuffer := buffers[current];
        currentBufferPosition := 0;
      }
    }

    /** The branch of `advance` for a negative distance. */
    method AdvanceBackward(distance: nat)
      requires Valid() && 0 < distance <= position
      modifies this
      ensures Valid() && position == old(position) - distance
      ensures position <= Total(buffers) && State() == Locate(buffers, position)
    {
      var n := distance;
      while true
        invariant current <= |buffers| && n > 0
        invariant current < |buffers| ==> currentBuffer == buffers[current] && currentBufferPosition <= |currentBuffer|
        invariant current == |buffers| ==> currentBufferPosition == 0
        invariant position == Start(buffers, current) + currentBufferPosition
        invariant n <= position && position - n == old(position) - distance
        decreases current
      {
        if currentBufferPosition >= n {
          position := position - n;
          currentBufferPosition := currentBufferPosition - n;
          StateIsLocated();
          return;
        }
        n := n - currentBufferPosition;
        position := position - currentBufferPosition;
        // Running past the beginning would need n > position.
        assert current != 0;
        PreviousNonEmpty();
      }
    }

    /** The inner search of `advance`: the last non-empty buffer before the current one, to be left from its end. */
    method PreviousNonEmpty()
      requires 0 < current <= |buffers| && 0 < position == Start(buffers, current)
      modifies this
      ensures current < old(current) && currentBuffer == buffers[current]
      ensures currentBufferPosition == |currentBuffer| > 0
      ensures position == old(position) == Start(buffers, current) + currentBufferPosition
    {
      var iter := current;
      while iter != 0
        invariant 0 <= iter <= current == old(current)
        invariant position == old(position) == Start(buffers, iter)
      {
        iter := iter - 1;
        var buffer := buffers[iter];
        if |buffer| > 0 {
          current := iter;
          currentBuffer := buffer;
          currentBufferPosition := |buffer|;
          return;
        }
      }
    }

    /** `operator[]` */
    method Index(difference: int) returns (b: T)
      requires Valid() && 0 <= position + difference < Total(buffers)
      ensures |Flatten(buffers)| == Total(buffers) && b == Flatten(buffers)[position + difference]
    {
      var tmp := new BuffersIterator<T>.Copy(this);
      tmp.Advance(difference);
      b := tmp.Dereference();
    }
  }

  // ---------- programs over iterators ----------

  /** One `advance(n)` leaves the same state as n increments, or as -n decrements. */
  method AdvanceBySteps<T>(leaping: BuffersIterator<T>, stepping: BuffersIterator<T>, n: int)
    requires leaping != stepping && leaping.Valid() && stepping.Valid()
    requires leaping.buffers == stepping.buffers && leaping.position == stepping.position
    requires 0 <= leaping.position + n <= Total(leaping.buffers)
    modifies leaping, stepping
    ensures leaping.Valid() && stepping.Valid()
    ensures leaping.State() == stepping.State() && leaping.position == stepping.position == old(leaping.position) + n
  {
    leaping.Advance(n);
    var k := 0;
    while k != n
      invariant if n >= 0 then 0 <= k <= n else n <= k <= 0
      invariant stepping.Valid() && stepping.position == old(stepping.position) + k
      modifies stepping
      decreases if n >= 0 then n - k else k - n
    {
      if n > 0 {
        stepping.Increment();
        k := k + 1;
      } else {
        stepping.Decrement();
        k := k - 1;
      }
    }
    stepping.StateIsLocated();
  }

  /** `advance(-n)` undoes `advance(n)`. */
  method AdvanceThereAndBack<T>(it: BuffersIterator<T>, n: int)
    requires it.Valid() && 0 <= it.position + n <= Total(it.buffers)
    modifies it
    ensures it.Valid() && it.State() == old(it.State()) && it.position == old(it.position)
  {
    it.StateIsLocated();
    it.Advance(n);
    it.Advance(-n);
  }

  /** `*it++` */
  method ReadAndStep<T>(it: BuffersIterator<T>) returns (b: T)
    requires it.Valid() && it.position < Total(it.buffers) == |Flatten(it.buffers)|
    modifies it
    ensures it.Valid() && it.position == old(it.position) + 1 <= |Flatten(it.buffers)|
    ensures b == Flatten(it.buffers)[old(it.position)]
  {
    hide *;
    b := it.Dereference();
    it.Increment();
  }

  /** Going from `begin` to `end` visits exactly the bytes of the concatenation, in order. */
  method Traverse<T>(buffers: seq<seq<T>>) returns (bytes: seq<T>)
    ensures bytes == Flatten(buffers)
  {
    var it := new BuffersIterator<T>.Begin(buffers);
    var end := new BuffersIterator<T>.End(buffers);
    CursorByte(buffers, end.State(), end.position);
    hide *;
    ghost var all := Flatten(buffers);
    bytes := [];
    var atEnd := it.Equal(end);
    while !atEnd
      invariant it.Valid() && it.buffers == buffers
      invariant it.position <= |all| && bytes == all[..it.position]
      invariant atEnd <==> it.position == |all|
      modifies it
      decreases |all| - it.position
    {
      OneMoreByte(all, it.position);
      var b := ReadAndStep(it);
      bytes := bytes + [b];
      atEnd := it.Equal(end);
    }
  }

  lemma OneMoreByte<T>(bytes: seq<T>, i: nat)
    requires i < |bytes|
    ensures bytes[..i + 1] == bytes[..i] + [bytes[i]]
  {
  }
}
