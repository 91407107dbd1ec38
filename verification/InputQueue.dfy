/** The ring buffer of src/libs/queue.c: its functions on values, then the object they update. */
module InputQueue {
  import opened Words

  /** What QUEUE_EMPTY is once getchar has stored it in an unsigned char (queue.h:4, scan.c:17). */
  const EMPTY: byte := 255

  datatype Ring = Ring(values: seq<byte>, head: int, tail: int, size: int, capacity: int)

  /** The place k after the place `from`, going round. */
  function Place(from: int, k: int, capacity: int): int {
    if from + k < capacity then from + k else from + k - capacity
  }

  /** (x + 1) % capacity, as C computes it on places. */
  function Next(x: int, capacity: int): (r: int)
    requires 0 <= x < capacity
    ensures r == Place(x, 1, capacity)
  {
    (x + 1) % capacity
  }

  /** n characters are queued from the head on. The size field may count more while a removal is
      under way, so n is a parameter. */
  predicate Holds(r: Ring, n: int) {
    if r.capacity <= 0 then n == r.size == 0
    else
      && |r.values| == r.capacity && 0 <= r.head < r.capacity
      && 0 <= n <= r.size <= r.capacity && r.tail == Place(r.head, n, r.capacity)
  }

  /** The n characters from the head on. */
  function Queued(r: Ring, n: int): (q: seq<byte>)
    requires Holds(r, n)
    ensures |q| == n
  {
    seq(n, i requires 0 <= i < n => r.values[Place(r.head, i, r.capacity)])
  }

  /** queue_enqueue; the flag says whether there was room. A tail outside the values never occurs. */
  function Pushed(r: Ring, c: byte): (Ring, bool) {
    if r.size >= r.capacity || !(0 <= r.tail < Min(r.capacity, |r.values|)) then (r, false)
    else (r.(values := r.values[r.tail := c], size := r.size + 1,
             tail := Next(r.tail, r.capacity)), true)
  }

  /** queue_dequeue, undisturbed. */
  function Popped(r: Ring): (Ring, byte)
    requires Holds(r, r.size)
  {
    if r.size <= 0 then (r, EMPTY)
    else (r.(head := Next(r.head, r.capacity), size := r.size - 1), r.values[r.head])
  }

  /** An accepted character goes to the end of what is queued; it is accepted exactly when the
      size field is below the capacity. */
  lemma EnqueueAppends(r: Ring, n: int, c: byte)
    requires Holds(r, n)
    ensures var (r', room) := Pushed(r, c);
            && room == (r.size < r.capacity)
            && (room ==> r'.size == r.size + 1 && Holds(r', n + 1) && Queued(r', n + 1) == Queued(r, n) + [c])
            && (!room ==> r' == r)
  {
    if r.size < r.capacity {
      var (r', room) := Pushed(r, c);
      forall i | 0 <= i < n + 1
        ensures r'.values[Place(r'.head, i, r'.capacity)] == (Queued(r, n) + [c])[i]
      {}
    }
  }

  /** Moving the head drops the first character and keeps the others. */
  lemma HeadMoves(r: Ring, n: int)
    requires Holds(r, n) && n > 0
    ensures 0 <= r.head < r.capacity == |r.values| && r.values[r.head] == Queued(r, n)[0]
    ensures var r' := r.(head := Next(r.head, r.capacity)); Holds(r', n - 1) && Queued(r', n - 1) == Queued(r, n)[1..]
  {}

  lemma DequeueTakes(r: Ring)
    requires Holds(r, r.size)
    ensures var (r', c) := Popped(r);
            && Holds(r', r'.size)
            && (if r.size == 0 then r' == r && c == EMPTY
                else [c] + Queued(r', r'.size) == Queued(r, r.size))
  {
    if r.size > 0 {
      HeadMoves(r, r.size);
      var moved := r.(head := Next(r.head, r.capacity));
      assert Queued(Popped(r).0, r.size - 1) == Queued(moved, r.size - 1);
    }
  }

  /** A queued 255 is returned as QUEUE_EMPTY is: the result alone does not tell them apart. */
  lemma EmptyIsAmbiguous(r: Ring)
    requires Holds(r, r.size)
    ensures Popped(r).1 == EMPTY <==> r.size == 0 || Queued(r, r.size)[0] == EMPTY
  {
    DequeueTakes(r);
  }

  class Queue {
    const values: array<byte>
    const capacity: int
    var head: int
    var tail: int
    var size: int

    /** queue_init, when the memory it asks for is there. */
    constructor (maxSize: int)
      ensures Valid() && fresh(values) && capacity == maxSize && Contents() == []
    {
      capacity := maxSize;
      values := new byte[if maxSize > 0 then maxSize else 0];
      size, head, tail := 0, 0, 0;
    }

    function Snapshot(): Ring
      reads this, values
    {
      Ring(values[..], head, tail, size, capacity)
    }

    ghost predicate Valid()
      reads this, values
    {
      Holds(Snapshot(), size)
    }

    ghost function Contents(): seq<byte>
      requires Valid()
      reads this, values
    {
      Queued(Snapshot(), size)
    }

    method Enqueue(c: byte) returns (full: bool)
      requires Valid()
      modifies this, values
      ensures Valid() && full == (old(|Contents()|) >= capacity)
      ensures Contents() == if full then old(Contents()) else old(Contents()) + [c]
      ensures (Snapshot(), !full) == Pushed(old(Snapshot()), c)
    {
      EnqueueAppends(Snapshot(), size, c);
      if size >= capacity {
        return true;
      }
      values[tail] := c;
      size := size + 1;
      tail := (tail + 1) % capacity;
      full := false;
    }

    method Dequeue() returns (c: byte)
      requires Valid()
      modifies this
      ensures Valid() && (Snapshot(), c) == Popped(old(Snapshot()))
      ensures if old(Contents()) == [] then c == EMPTY && Contents() == []
              else [c] + Contents() == old(Contents())
    {
      DequeueTakes(Snapshot());
      if size <= 0 {
        return EMPTY;
      }
      c := values[head];
      head := (head + 1) % capacity;
      size := size - 1;
    }

    method Flush()
      requires Valid()
      modifies this
      ensures Valid() && Contents() == []
    {
      size, head, tail := 0, 0, 0;
    }
  }
}
