/** The bounded ring queue under the blocking queue: one slot more than it may hold. */
module CircularQueue {
  import opened BoundedSeq
  import opened Modular

  class CircularQ<T(0)> {
    var maxItems: nat
    var head: nat
    var tail: nat
    var overrunCounter: nat
    var v: array<T>

    /** (i + 1) % maxItems and (head + i) % maxItems, without the modulus. */
    static lemma Wrapped(i: nat, m: nat)
      requires i < 2 * m
      ensures i % m == if i < m then i else i - m
    {
      if i < m {
        ModBelow(i, m);
      } else {
        ModOnce(i, m);
      }
    }

    ghost predicate Valid()
      reads this
    {
      if maxItems == 0 then head == tail == 0
      else v.Length == maxItems && head < maxItems && tail < maxItems
    }

    /** The cells from head up to tail, modulo the length. */
    static function Window(s: seq<T>, head: nat, tail: nat): seq<T>
      requires head < |s| && tail < |s|
    {
      if tail >= head then s[head..tail] else s[head..] + s[..tail]
    }

    /** Storing at the tail and moving it appends; if that meets the head, moving the head drops the oldest. */
    static lemma WindowGrows(s: seq<T>, head: nat, tail: nat, x: T)
      requires head < |s| && tail < |s|
      ensures var next := if tail + 1 < |s| then tail + 1 else 0;
              var after := if head + 1 < |s| then head + 1 else 0;
              && (next != head ==> Window(s[tail := x], head, next) == Window(s, head, tail) + [x])
              && (next == head ==> Window(s[tail := x], after, next) == (Window(s, head, tail) + [x])[1..])
    {
    }

    /** The tail meets the head exactly when no slot was left. */
    static lemma MeetsWhenFull(s: seq<T>, head: nat, tail: nat)
      requires head < |s| && tail < |s|
      ensures (tail + 1) % |s| == head <==> |Window(s, head, tail)| == |s| - 1
    {
      Wrapped(tail + 1, |s|);
    }

    /** A store at the tail while a slot is left. */
    static lemma PlainPush(s: seq<T>, head: nat, tail: nat, x: T)
      requires head < |s| && tail < |s| && (tail + 1) % |s| != head
      ensures Window(s[tail := x], head, (tail + 1) % |s|) == Push(Window(s, head, tail), x, |s| - 1)
    {
      Wrapped(tail + 1, |s|);
      WindowGrows(s, head, tail, x);
      MeetsWhenFull(s, head, tail);
    }

    /** A store at the tail of a full queue. */
    static lemma OverrunPush(s: seq<T>, head: nat, tail: nat, x: T)
      requires head < |s| && tail < |s| && (tail + 1) % |s| == head
      ensures Window(s[tail := x], (head + 1) % |s|, head) == Push(Window(s, head, tail), x, |s| - 1)
    {
      Wrapped(tail + 1, |s|);
      Wrapped(head + 1, |s|);
      WindowGrows(s, head, tail, x);
      MeetsWhenFull(s, head, tail);
    }

    /** The usable slots; a disabled queue has none. */
    function Slots(): nat
      reads this
    {
      if maxItems == 0 then 0 else maxItems - 1
    }

    function Size(): (n: nat)
      reads this
      requires Valid()
      ensures n <= Slots()
      ensures n == 0 <==> tail == head
    {
      if tail >= head then tail - head else maxItems - (head - tail)
    }

    /** What the queue holds, oldest first. */
    function Contents(): (s: seq<T>)
      reads this, v
      requires Valid()
      ensures |s| == Size()
    {
      if maxItems == 0 then [] else Window(v[..], head, tail)
    }

    /** The disabled queue. */
    constructor Disabled()
      ensures Valid() && Slots() == 0 && Contents() == [] && overrunCounter == 0 && maxItems == 0
    {
      maxItems, head, tail, overrunCounter := 0, 0, 0, 0;
      v := new T[0];
    }

    constructor (max: nat)
      ensures Valid() && fresh(v) && Slots() == max && Contents() == [] && overrunCounter == 0 && maxItems > 0
    {
      maxItems, head, tail, overrunCounter := max + 1, 0, 0, 0;
      v := new T[max + 1];
    }

    /** The two assignments that append. */
    method Store(item: T)
      requires Valid() && maxItems > 0
      modifies this`tail, v
      ensures v[..] == old(v[..])[old(tail) := item] && tail == (old(tail) + 1) % maxItems
    {
      v[tail] := item;
      tail := (tail + 1) % maxItems;
    }

    method PushBack(item: T)
      requires Valid()
      modifies this, v
      ensures Valid() && Slots() == old(Slots()) && maxItems == old(maxItems) && v == old(v)
      ensures maxItems == 0 ==> Contents() == [] && overrunCounter == old(overrunCounter)
      ensures maxItems > 0 ==>
        && Contents() == Push(old(Contents()), item, Slots())
        && overrunCounter == old(overrunCounter) + (if old(Size()) == Slots() then 1 else 0)
    {
      if maxItems > 0 {
        ghost var t, before := tail, v[..];
        MeetsWhenFull(before, head, t);
        Store(item);
        if tail == head {
          OverrunPush(before, head, t, item);
          head := (head + 1) % maxItems;
          overrunCounter := overrunCounter + 1;
        } else {
          PlainPush(before, head, t, item);
        }
      }
    }

    method Front() returns (x: T)
      requires Valid() && Contents() != []
      ensures x == Contents()[0]
    {
      x := v[head];
    }

    method At(i: nat) returns (x: T)
      requires Valid() && i < Size()
      ensures x == Contents()[i]
    {
      Wrapped(head + i, maxItems);
      x := v[(head + i) % maxItems];
    }

    method PopFront()
      requires Valid() && Contents() != []
      modifies this`head
      ensures Valid() && Slots() == old(Slots())
      ensures Contents() == old(Contents())[1..]
    {
      Wrapped(head + 1, maxItems);
      head := (head + 1) % maxItems;
    }

    method IsEmpty() returns (b: bool)
      requires Valid()
      ensures b <==> Contents() == []
    {
      b := tail == head;
    }

    /** An enabled queue is full when no slot is left; a disabled one never says so. */
    method IsFull() returns (b: bool)
      requires Valid()
      ensures b <==> maxItems > 0 && |Contents()| == Slots()
    {
      if maxItems > 0 {
        Wrapped(tail + 1, maxItems);
      }
      b := maxItems > 0 && (tail + 1) % maxItems == head;
    }

    method ResetOverrunCounter()
      requires Valid()
      modifies this`overrunCounter
      ensures Valid() && overrunCounter == 0 && Contents() == old(Contents())
    {
      overrunCounter := 0;
    }

    /** Takes over another queue's slots and leaves that queue disabled, even if it is this one. */
    method MoveFrom(other: CircularQ<T>)
      requires other.Valid()
      modifies this, other
      ensures this != other ==>
        && Valid() && Slots() == old(other.Slots()) && maxItems == old(other.maxItems)
        && Contents() == old(other.Contents()) && overrunCounter == old(other.overrunCounter)
      ensures other.Valid() && other.maxItems == 0 && other.Contents() == [] && other.overrunCounter == 0
    {
      maxItems, head, tail := other.maxItems, other.head, other.tail;
      overrunCounter, v := other.overrunCounter, other.v;
      other.maxItems := 0;
      other.head, other.tail := 0, 0;
      other.overrunCounter := 0;
      other.v := new T[0];
    }
  }
}
