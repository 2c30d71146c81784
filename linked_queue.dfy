/** The receive queue of Kernel.old/LinkedQueue.c: a header owning one
    linked list, with operations that forward to it. */
module LinkedQueue {
  import opened LinkedList

  class Queue<T> {
    var l: List<T>
    ghost var Repr: set<object>

    ghost predicate Valid()
      reads this, Repr
    {
      this in Repr && l in Repr && l.Repr <= Repr && this !in l.Repr && l.Valid()
    }

    /** The queue's contents: the state of its list. */
    ghost function Abstract(): Shape<T>
      reads this, l
    {
      l.Abstract()
    }

    constructor (list: List<T>)
      requires list.Valid()
      ensures Valid() && l == list && Repr == {this} + list.Repr
    {
      l := list;
      Repr := {this} + list.Repr;
    }
  }

  /** LinkedQueue_create: a queue owning a fresh empty list; null when
      either allocation fails (the queue's own is then freed again). */
  method Create<T>(allocatesQueue: bool, allocatesList: bool) returns (q: Queue?<T>)
    ensures q != null <==> allocatesQueue && allocatesList
    ensures q != null ==> q.Valid() && fresh(q.Repr) && q.Abstract() == Empty()
  {
    if allocatesQueue {
      var list := LinkedList.Create<T>(allocatesList);
      if list != null {
        q := new Queue(list);
        return;
      }
    }
    return null;
  }

  /** c_LinkedQueue_enqueue: -1 for a null queue, otherwise 0 exactly when
      LinkedList_append succeeds.  That append never moves `last` once the
      list is non-empty, so the queue inherits its defect. */
  method Enqueue<T>(q: Queue?<T>, p: T, allocates: bool) returns (r: int)
    requires q != null ==> q.Valid()
    modifies if q != null then q.Repr else {}
    ensures r == (if q != null && allocates then 0 else -1)
    ensures q != null ==> q.Valid() && fresh(q.Repr - old(q.Repr))
    ensures q != null ==> q.Abstract() == if r == 0 then Appended(old(q.Abstract()), p) else old(q.Abstract())
  {
    if q != null {
      var appended := Append(q.l, p, allocates);
      q.Repr := q.Repr + q.l.Repr;
      return if appended < 0 then -1 else 0;
    }
    return -1;
  }

  /** c_LinkedQueue_enqueue over the corrected append, which moves `last`
      to the new element. */
  method EnqueueFixed<T>(q: Queue?<T>, p: T, allocates: bool) returns (r: int)
    requires q != null ==> q.Valid()
    modifies if q != null then q.Repr else {}
    ensures r == (if q != null && allocates then 0 else -1)
    ensures q != null ==> q.Valid() && fresh(q.Repr - old(q.Repr))
    ensures q != null ==> q.Abstract() == if r == 0 then AppendedFixed(old(q.Abstract()), p) else old(q.Abstract())
  {
    if q != null {
      var appended := AppendFixed(q.l, p, allocates);
      q.Repr := q.Repr + q.l.Repr;
      return if appended < 0 then -1 else 0;
    }
    return -1;
  }

  /** c_LinkedQueue_dequeue: None for a null queue, otherwise what
      LinkedList_popFront returns. */
  method Dequeue<T>(q: Queue?<T>) returns (r: Option<T>)
    requires q != null ==> q.Valid()
    modifies if q != null then {q.l} else {}
    ensures q == null ==> r == None
    ensures q != null ==> q.Valid() && (r, q.Abstract()) == Popped(old(q.Abstract()))
  {
    if q != null {
      r := PopFront(q.l);
      return;
    }
    return None;
  }

  /** c_LinkedQueue_getSize: 0 for a null queue, the list's counter
      otherwise. */
  method GetSize<T>(q: Queue?<T>) returns (n: int)
    requires q != null ==> q.Valid()
    ensures n == if q == null then 0 else q.Abstract().size
  {
    if q != null {
      n := LinkedList.GetSize(q.l);
      return;
    }
    return 0;
  }

  /** The queue as written: with `a` queued, enqueueing `b` and `c` and
      dequeueing three times yields `a`, then `c`, then nothing, while
      getSize still reports one element. */
  lemma QueueLosesMiddle<T>(a: T, b: T, c: T)
    ensures var s := Appended(Appended(Appended(Empty(), a), b), c);
      var (x, s1) := Popped(s);
      var (y, s2) := Popped(s1);
      var (z, s3) := Popped(s2);
      x == Some(a) && y == Some(c) && z == None && s3.size == 1
  {
    SizeOutrunsContents(a, b, c);
    var s1 := Appended(Empty(), a);
    var s2 := Appended(s1, b);
    assert [a, b, c][1..] == [b, c] && [b, c][1..] == [c] && [c][1..] == [];
    assert AppendAll(Empty(), [a, b, c]) == AppendAll(s1, [b, c]);
    assert AppendAll(s1, [b, c]) == AppendAll(s2, [c]);
    assert AppendAll(s2, [c]) == Appended(s2, c);
  }

  /** The queue over the corrected append (EnqueueFixed) returns what it
      was given, in order: from a tidy state a successful enqueue adds at
      the back and a dequeue takes the front. */
  lemma QueueIsFifo<T>(s: Shape<T>, p: T)
    requires Tidy(s) && |s.contents| < WORD - 1
    ensures var (x, t) := Popped(AppendedFixed(s, p));
      Tidy(t) && x == Some((s.contents + [p])[0]) && t.contents == (s.contents + [p])[1..]
  {
    AppendedFixedIsFifo(s, p);
    PoppedKeepsTidy(AppendedFixed(s, p));
  }
}
