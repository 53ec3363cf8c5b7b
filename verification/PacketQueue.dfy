/**
 The firmware's packet queue: a singly linked list with head, tail and a running byte total, bounded
 by 32768 bytes. Operations are atomic, as the mutex around them makes them.
 */
module PacketQueue {
  import opened Framing

  const MAX_QUEUE_LENGTH := 1024 * 32

  datatype Code = QUEUE_OK | QUEUE_FULL | QUEUE_ERROR

  class QueueElement {
    const data: bytes
    var next: QueueElement?

    constructor (data: bytes)
      ensures this.data == data && next == null
    {
      this.data := data;
      next := null;
    }
  }

  function Total(ps: seq<bytes>): nat {
    if ps == [] then 0 else |ps[0]| + Total(ps[1..])
  }

  lemma {:induction false} TotalSnoc(ps: seq<bytes>, p: bytes)
    ensures Total(ps + [p]) == Total(ps) + |p|
  {
    if ps == [] {
      assert [] + [p] == [p] && [p][1..] == [];
    } else {
      assert (ps + [p])[1..] == ps[1..] + [p];
      TotalSnoc(ps[1..], p);
    }
  }

  /** There is a packet, and room and memory for it behind those queued. */
  predicate Takeable(queue: seq<bytes>, p: bytes, elementOk: bool, dataOk: bool) {
    p != [] && Total(queue) + |p| <= MAX_QUEUE_LENGTH && elementOk && dataOk
  }

  function DataOf(spine: seq<QueueElement>): seq<bytes> {
    seq(|spine|, i requires 0 <= i < |spine| => spine[i].data)
  }

  lemma DataOfSnoc(spine: seq<QueueElement>, x: QueueElement)
    ensures DataOf(spine + [x]) == DataOf(spine) + [x.data]
  {
  }

  /** `spine` is a null-terminated chain of distinct elements. */
  ghost predicate Linked(spine: seq<QueueElement>)
    reads spine
  {
    && (forall i, j :: 0 <= i < j < |spine| ==> spine[i] != spine[j])
    && (forall i :: 0 <= i < |spine| - 1 ==> spine[i].next == spine[i + 1])
    && (spine != [] ==> spine[|spine| - 1].next == null)
  }

  class ThreadSafeQueue {
    var head: QueueElement?
    var tail: QueueElement?
    var currentTotalLength: int
    ghost var spine: seq<QueueElement>

    ghost predicate Valid()
      reads this, spine
    {
      && Linked(spine)
      && (if spine == [] then head == null && tail == null else head == spine[0] && tail == spine[|spine| - 1])
      && currentTotalLength == Total(Contents()) <= MAX_QUEUE_LENGTH
      && forall p <- Contents() :: p != []
    }

    /** The queued packets, oldest first. */
    ghost function Contents(): seq<bytes>
      reads this
    {
      DataOf(spine)
    }

    ghost predicate Takes(p: bytes, elementOk: bool, dataOk: bool)
      reads this
    {
      Takeable(Contents(), p, elementOk, dataOk)
    }

    constructor ()
      ensures Valid() && Contents() == []
    {
      head, tail, currentTotalLength, spine := null, null, 0, [];
    }

    /** Appends a copy of `data` (None for a null pointer), or changes nothing and says why. */
    method Enqueue(data: Option<bytes>, elementOk: bool, dataOk: bool) returns (code: Code)
      requires Valid()
      modifies this, spine
      ensures Valid() && forall x <- spine :: x in old(spine) || fresh(x)
      ensures code == if data.None? || data.value == [] then QUEUE_ERROR
                      else if Total(old(Contents())) + |data.value| > 32768 then QUEUE_FULL
                      else if !elementOk || !dataOk then QUEUE_ERROR else QUEUE_OK
      ensures Contents() == if code.QUEUE_OK? then old(Contents()) + [data.value] else old(Contents())
      ensures !code.QUEUE_OK? ==> head == old(head) && tail == old(tail) && spine == old(spine)
    {
      hide DataOf, Total;
      if data.None? || data.value == [] {
        return QUEUE_ERROR;
      }
      var length := |data.value|;
      if currentTotalLength + length > MAX_QUEUE_LENGTH {
        return QUEUE_FULL;
      }
      if !elementOk || !dataOk {
        return QUEUE_ERROR;
      }
      var element := new QueueElement(data.value);
      if tail == null {
        head := element;
      } else {
        tail.next := element;
      }
      tail := element;
      currentTotalLength := currentTotalLength + length;
      spine := spine + [element];
      DataOfSnoc(old(spine), element);
      TotalSnoc(old(Contents()), data.value);
      return QUEUE_OK;
    }

    /** Removes and returns the oldest packet, if there is one. */
    method Dequeue() returns (code: Code, data: bytes)
      requires Valid()
      modifies this
      ensures Valid() && forall x <- spine :: x in old(spine)
      ensures if old(Contents()) == [] then code == QUEUE_ERROR && Contents() == []
              else code == QUEUE_OK && old(Contents()) == [data] + Contents()
    {
      if head == null {
        return QUEUE_ERROR, [];
      }
      data := head.data;
      head := head.next;
      if head == null {
        tail := null;
      }
      currentTotalLength := currentTotalLength - |data|;
      spine := spine[1..];
      assert Contents() == old(Contents())[1..];
      assert forall p <- Contents() :: p in old(Contents());
      return QUEUE_OK, data;
    }

    /** Frees every element. */
    method Clear()
      requires Valid()
      modifies this
      ensures Valid() && Contents() == []
    {
      var current := head;
      ghost var k := 0;
      while current != null
        invariant 0 <= k <= |spine| && current == if k < |spine| then spine[k] else null
        decreases |spine| - k
      {
        current := current.next;
        k := k + 1;
      }
      head, tail, currentTotalLength, spine := null, null, 0, [];
    }
  }
}
