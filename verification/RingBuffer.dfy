/**
 The circular queue of integers under the bounded buffer (week7/queuep.c).

 `Ring` is the value of the C struct; `Put` and `Get` are what `queue_put` and `queue_get` do to
 it, including the two branches that do nothing. `CircularQueue` is the struct itself, updated in
 place, and its methods are proved against those two functions.
 */
module RingBuffer {
  import opened Arithmetic

  /** The slot `i` places after `head` in a buffer of `n` slots. */
  function Slot(head: nat, i: nat, n: nat): (slot: nat)
    requires head < n && i <= n
    ensures slot == (if head + i < n then head + i else head + i - n)
    ensures slot < n
  {
    var lap := if head + i < n then 0 else 1;
    DivModUnique(head + i, n, lap, head + i - lap * n);
    (head + i) % n
  }

  /** The fields of the C struct; `capacity` is the length of `data`. */
  datatype RingFields = RingFields(data: seq<int>, head: nat, tail: nat, size: nat) {
    predicate WellFormed() {
      if |data| == 0 then head == 0 && tail == 0 && size == 0
      else head < |data| && size <= |data| && tail == Slot(head, size, |data|)
    }
  }

  type Ring = r: RingFields | r.WellFormed() witness RingFields([], 0, 0, 0)

  /** The queued integers, oldest first. */
  function Contents(r: Ring): (s: seq<int>)
    ensures |s| == r.size
  {
    seq(r.size, i requires 0 <= i < r.size => r.data[Slot(r.head, i, |r.data|)])
  }

  predicate Full(r: Ring) { r.size == |r.data| }

  predicate Empty(r: Ring) { r.size == 0 }

  function Put(r: Ring, value: int): Ring {
    if r.size < |r.data| then
      RingFields(r.data[r.tail := value], r.head, Slot(r.tail, 1, |r.data|), r.size + 1)
    else r
  }

  /** The new ring and the integer taken, -1 when there is none. */
  function Get(r: Ring): (Ring, int) {
    if r.size > 0 then
      (RingFields(r.data, Slot(r.head, 1, |r.data|), r.tail, r.size - 1), r.data[r.head])
    else (r, -1)
  }

  /** `queue_put` appends when there is room and otherwise drops the value silently. */
  lemma PutAppends(r: Ring, value: int)
    ensures |Put(r, value).data| == |r.data|
    ensures Contents(Put(r, value)) == if |Contents(r)| == |r.data| then Contents(r) else Contents(r) + [value]
  {
    if !Full(r) {
      assert Contents(Put(r, value)) == Contents(r) + [value];
    }
  }

  /** `queue_get` takes the oldest integer, and answers -1 without a change when there is none. */
  lemma GetTakesOldest(r: Ring)
    ensures |Get(r).0.data| == |r.data|
    ensures Contents(r) == [] ==> Get(r) == (r, -1)
    ensures Contents(r) != [] ==> Contents(r) == [Get(r).1] + Contents(Get(r).0)
  {
    if !Empty(r) {
      assert Contents(r) == [Get(r).1] + Contents(Get(r).0);
    }
  }

  /** The C struct, whose four fields and buffer are overwritten in place. */
  class CircularQueue {
    var data: array<int>
    var head: nat
    var tail: nat
    var size: nat

    ghost function Fields(): RingFields
      reads this, data
    {
      RingFields(data[..], head, tail, size)
    }

    ghost predicate Valid()
      reads this, data
    {
      Fields().WellFormed()
    }

    constructor (capacity: nat)
      ensures Valid() && fresh(data) && data.Length == capacity
      ensures Contents(Fields()) == []
    {
      data := new int[capacity];
      head, tail, size := 0, 0, 0;
    }

    method QueuePut(value: int)
      requires Valid()
      modifies this, data
      ensures Valid() && data == old(data)
      ensures Fields() == Put(old(Fields()), value)
      ensures var before := old(Contents(Fields()));
              Contents(Fields()) == if |before| == data.Length then before else before + [value]
    {
      hide Contents;
      ghost var before := Fields();
      if size < data.Length {
        data[tail] := value;
        tail := (tail + 1) % data.Length;
        size := size + 1;
      }
      PutAppends(before, value);
    }

    method QueueGet() returns (result: int)
      requires Valid()
      modifies this
      ensures Valid() && data == old(data)
      ensures (Fields(), result) == Get(old(Fields()))
      ensures if old(Contents(Fields())) == [] then result == -1 && Contents(Fields()) == []
              else old(Contents(Fields())) == [result] + Contents(Fields())
    {
      hide Contents;
      ghost var before := Fields();
      result := -1;
      if size > 0 {
        result := data[head];
        head := (head + 1) % data.Length;
        size := size - 1;
      }
      GetTakesOldest(before);
    }

    method QueueEmpty() returns (b: bool)
      requires Valid()
      ensures b <==> Contents(Fields()) == []
    {
      b := size == 0;
    }

    method QueueFull() returns (b: bool)
      requires Valid()
      ensures b <==> |Contents(Fields())| == data.Length
    {
      b := size == data.Length;
    }
  }
}
