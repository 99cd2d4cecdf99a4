/** The queues of kademlia_dht/my_queues.py and kademlia/my_queues.py: an
    unbounded list queue and a fixed array queue that never wraps around.
    The two copies have the same logic; they differ only in what
    InfiniteLinearQueue.enqueue returns (None in kademlia_dht, True in
    kademlia). */
module Queues {
  import opened Wrappers

  // ------------------------------------------------------------------
  // The unbounded queue as a value
  // ------------------------------------------------------------------

  /** One call on a queue: enqueue(item) or dequeue(). */
  datatype Op<T> = Put(item: T) | Take

  /** One call on the items of an InfiniteLinearQueue: the new items and what
      the call returns (dequeue's item, or None). */
  function Step<T>(items: seq<T>, op: Op<T>): (seq<T>, Option<T>)
  {
    match op
    case Put(x) => (items + [x], None)
    case Take => if items == [] then (items, None) else (items[1..], Some(items[0]))
  }

  /** A run of calls from the given items: the final items and the items the
      dequeues returned, in order. */
  function Run<T>(items: seq<T>, ops: seq<Op<T>>): (seq<T>, seq<T>)
    decreases |ops|
  {
    if ops == [] then (items, [])
    else
      var (next, out) := Step(items, ops[0]);
      var (final, outs) := Run(next, ops[1..]);
      (final, (if out.Some? then [out.value] else []) + outs)
  }

  /** The items a run enqueues, in order. */
  function Enqueued<T>(ops: seq<Op<T>>): seq<T>
    decreases |ops|
  {
    if ops == [] then []
    else (if ops[0].Put? then [ops[0].item] else []) + Enqueued(ops[1..])
  }

  /** Nothing is lost or invented: what the dequeues returned followed by
      what is still queued is what was there followed by what was enqueued. */
  lemma {:induction false} RunConserves<T>(items: seq<T>, ops: seq<Op<T>>)
    ensures Run(items, ops).1 + Run(items, ops).0 == items + Enqueued(ops)
    decreases |ops|
  {
    if ops != [] {
      var (next, out) := Step(items, ops[0]);
      RunConserves(next, ops[1..]);
      match ops[0]
      case Put(x) =>
        assert next == items + [x];
        assert Enqueued(ops) == [x] + Enqueued(ops[1..]);
        assert next + Enqueued(ops[1..]) == items + ([x] + Enqueued(ops[1..]));
      case Take =>
        assert Enqueued(ops) == Enqueued(ops[1..]);
        if items != [] {
          var (final, outs) := Run(next, ops[1..]);
          assert Run(items, ops) == (final, [items[0]] + outs);
          assert [items[0]] + outs + final == [items[0]] + (outs + final);
          assert items == [items[0]] + items[1..];
        }
    }
  }

  /** FIFO: from an empty queue, the dequeued items are a prefix of the
      enqueued ones, in the same order, and the queue holds the rest. */
  lemma FifoOrder<T>(ops: seq<Op<T>>)
    ensures var (final, outs) := Run([], ops);
      outs <= Enqueued(ops) && outs + final == Enqueued(ops)
  {
    RunConserves([], ops);
    assert [] + Enqueued(ops) == Enqueued(ops);
  }

  /** dequeue on an empty queue returns None and leaves it empty; enqueue
      makes it non-empty. */
  lemma EmptyDequeue<T>(x: T)
    ensures Step<T>([], Take) == ([], None)
    ensures Step([], Put(x)).0 != [] && Step(Step([], Put(x)).0, Take) == ([], Some(x))
  {
    assert [] + [x] == [x] && [x][1..] == [];
  }

  /** InfiniteLinearQueue: the list `items`, appended to and popped at 0. */
  class InfiniteLinearQueue<T> {
    var items: seq<T>

    constructor ()
      ensures items == []
    {
      items := [];
    }

    /** is_empty(). */
    function IsEmpty(): (r: bool)
      reads this
      ensures r <==> |items| == 0
    {
      |items| == 0
    }

    /** enqueue(item): appends; the result is kademlia/my_queues.py's True. */
    method Enqueue(item: T) returns (ok: bool)
      modifies this
      ensures ok
      ensures (items, None) == Step(old(items), Put(item))
    {
      items := items + [item];
      ok := true;
    }

    /** dequeue(): pop(0), or None when empty. */
    method Dequeue() returns (r: Option<T>)
      modifies this
      ensures (items, r) == Step(old(items), Take)
    {
      if !IsEmpty() {
        r := Some(items[0]);
        items := items[1..];
      } else {
        r := None;
      }
    }
  }

  // ------------------------------------------------------------------
  // __str__: the slots separated by single spaces
  // ------------------------------------------------------------------

  /** The strings separated by single spaces. */
  function Join(xs: seq<string>): string
    decreases |xs|
  {
    if |xs| == 0 then ""
    else if |xs| == 1 then xs[0]
    else xs[0] + " " + Join(xs[1..])
  }

  /** str.split(" "): the pieces between single spaces, at least one. */
  function Split(s: string): (r: seq<string>)
    ensures |r| >= 1
    decreases |s|
  {
    if s == [] then [""]
    else
      var rest := Split(s[1..]);
      if s[0] == ' ' then [""] + rest else [[s[0]] + rest[0]] + rest[1..]
  }

  lemma {:induction false} JoinSnoc(xs: seq<string>, x: string)
    requires xs != []
    ensures Join(xs + [x]) == Join(xs) + " " + x
    decreases |xs|
  {
    if |xs| > 1 {
      assert (xs + [x])[1..] == xs[1..] + [x];
      JoinSnoc(xs[1..], x);
    } else {
      assert xs + [x] == [xs[0], x];
    }
  }

  lemma {:induction false} SplitNoSpace(a: string)
    requires ' ' !in a
    ensures Split(a) == [a]
    decreases |a|
  {
    if a != [] {
      SplitNoSpace(a[1..]);
      assert [a[0]] + a[1..] == a;
    }
  }

  lemma {:induction false} SplitAfter(a: string, b: string)
    requires ' ' !in a
    ensures Split(a + " " + b) == [a] + Split(b)
    decreases |a|
  {
    if a == [] {
      assert a + " " + b == " " + b;
      assert (" " + b)[1..] == b;
    } else {
      assert (a + " " + b)[1..] == a[1..] + " " + b;
      SplitAfter(a[1..], b);
      assert [a[0]] + a[1..] == a;
    }
  }

  /** The output of __str__ splits back into the items' strings when none of
      them holds a space. */
  lemma {:induction false} JoinSplit(xs: seq<string>)
    requires xs != []
    requires forall i :: 0 <= i < |xs| ==> ' ' !in xs[i]
    ensures Split(Join(xs)) == xs
    decreases |xs|
  {
    if |xs| == 1 {
      SplitNoSpace(xs[0]);
    } else {
      JoinSplit(xs[1..]);
      SplitAfter(xs[0], Join(xs[1..]));
      assert xs == [xs[0]] + xs[1..];
    }
  }

  /** str() of each item. */
  function Shown<T>(items: seq<T>, show: T -> string): (r: seq<string>)
    ensures |r| == |items|
    ensures forall i :: 0 <= i < |items| ==> r[i] == show(items[i])
  {
    seq(|items|, i requires 0 <= i < |items| => show(items[i]))
  }

  // ------------------------------------------------------------------
  // LinearQueue: a fixed array with front, rear and size counters
  // ------------------------------------------------------------------

  /** LinearQueue(queue_size). Slots front..rear hold the queue; a dequeued
      slot is never reused, so `history`, every item ever accepted, fills the
      slots 0..rear. */
  class LinearQueue<T> {
    var queue: array<Option<T>>
    var front: int
    var rear: int
    var size: int
    const maxSize: int
    ghost var history: seq<T>

    ghost predicate Valid()
      reads this, queue
    {
      && queue.Length == (if maxSize < 0 then 0 else maxSize)
      && -1 <= rear < queue.Length
      && 0 <= front <= rear + 1
      && size == rear - front + 1
      && |history| == rear + 1
      && (forall i :: 0 <= i < |history| ==> queue[i] == Some(history[i]))
    }

    /** The items queued now, front first. */
    ghost function Contents(): (r: seq<T>)
      reads this, queue
      requires Valid()
      ensures |r| == size
    {
      history[front..]
    }

    /** `[None] * queue_size` (empty for a negative size), front 0, rear -1. */
    constructor (queueSize: int)
      ensures Valid() && fresh(queue)
      ensures maxSize == queueSize && history == [] && Contents() == []
    {
      maxSize := queueSize;
      queue := new Option<T>[if queueSize < 0 then 0 else queueSize](_ => None);
      front := 0;
      rear := -1;
      size := 0;
      history := [];
    }

    /** is_full(): rear >= max_size - 1, that is, every slot has been used. */
    function IsFull(): (r: bool)
      reads this, queue
      requires Valid()
      ensures r <==> |history| == queue.Length
    {
      rear >= maxSize - 1
    }

    /** is_empty(): size == 0. */
    function IsEmpty(): (r: bool)
      reads this, queue
      requires Valid()
      ensures r <==> Contents() == []
    {
      size == 0
    }

    /** enqueue(item): False and no change when full; otherwise the item goes
        into slot rear + 1 and joins the back of the queue. */
    method Enqueue(item: T) returns (ok: bool)
      requires Valid()
      modifies this, queue
      ensures Valid() && |history| <= queue.Length && queue == old(queue)
      ensures ok <==> old(|history|) < old(queue.Length)
      ensures ok ==>
        && history == old(history) + [item]
        && Contents() == old(Contents()) + [item]
        && front == old(front) && rear == old(rear) + 1 && size == old(size) + 1
        && queue[..] == old(queue[..])[rear := Some(item)]
      ensures !ok ==> unchanged(this) && unchanged(queue)
    {
      if IsFull() {
        return false;
      }
      rear := rear + 1;
      queue[rear] := Some(item);
      size := size + 1;
      history := history + [item];
      ok := true;
    }

    /** dequeue(): None when empty; otherwise the front item, and front moves
        past its slot. */
    method Dequeue() returns (r: Option<T>)
      requires Valid()
      modifies this
      ensures Valid() && queue == old(queue) && history == old(history) && rear == old(rear)
      ensures old(size) == 0 ==> r == None && unchanged(this)
      ensures old(size) != 0 ==>
        && r == Some(old(Contents())[0])
        && Contents() == old(Contents())[1..]
        && front == old(front) + 1 && size == old(size) - 1
    {
      if IsEmpty() {
        return None;
      }
      size := size - 1;
      r := queue[front];
      front := front + 1;
    }

    /** __str__(): str() of the slots front..rear, separated by single
        spaces (output[:-1] drops the last space; "" stays ""). */
    method ToString(show: T -> string) returns (s: string)
      requires Valid()
      ensures s == Join(Shown(Contents(), show))
    {
      ghost var strs := Shown(Contents(), show);
      var output := "";
      for index := front to rear + 1
        invariant index == front ==> output == ""
        invariant index > front ==> output == Join(strs[..index - front]) + " "
      {
        ghost var done := strs[..index - front];
        assert strs[..index + 1 - front] == done + [strs[index - front]];
        assert queue[index] == Some(history[index]);
        if index > front {
          JoinSnoc(done, strs[index - front]);
        } else {
          assert done + [strs[0]] == [strs[0]];
        }
        output := output + show(queue[index].value) + " ";
      }
      assert strs[..rear + 1 - front] == strs;
      s := if |output| == 0 then "" else output[..|output| - 1];
    }
  }
}
