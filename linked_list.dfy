/** The singly linked list of Kernel.old/LinkedList.c: a header with
    `first`, `last` and an unsigned `size`, and elements carrying `next`, a
    back pointer to their list and a payload.  The allocator's answer is a
    parameter; a freed element stays an object no longer reachable from
    `first`. */
module LinkedList {

  datatype Option<T> = None | Some(value: T)

  /** 2^32: `size` is an `unsigned int`. */
  const WORD: int := 0x1_0000_0000

  // ---------------------------------------------------------------------------
  // Abstract state

  /** What a list header describes: the payloads reachable from `first`, in
      order; where `last` points among them (-1 when it is null, which
      happens exactly when nothing is reachable, or when it points at an
      element no longer reachable); and the `size` counter. */
  datatype Shape<T> = Shape(contents: seq<T>, lastAt: int, size: int)

  function Empty<T>(): Shape<T> { Shape([], -1, 0) }

  /** The payloads reachable after a new element is linked behind `last`:
      linking to an unreachable element reaches nothing new, and linking
      behind a reachable one cuts off whatever followed it. */
  function Linked<T>(s: Shape<T>, p: T): (r: seq<T>)
    ensures |s.contents| == 0 ==> r == [p]
    ensures 0 <= s.lastAt < |s.contents| ==> |r| == s.lastAt + 2 && r[s.lastAt + 1] == p && r[..s.lastAt + 1] == s.contents[..s.lastAt + 1]
    ensures |s.contents| > 0 && s.lastAt < 0 ==> r == s.contents
  {
    if |s.contents| == 0 then [p]
    else if 0 <= s.lastAt < |s.contents| then s.contents[..s.lastAt + 1] + [p]
    else s.contents
  }

  /** LinkedList_append as written: `last` moves only when the list was
      empty. */
  function Appended<T>(s: Shape<T>, p: T): Shape<T>
  {
    Shape(Linked(s, p), if |s.contents| == 0 then 0 else s.lastAt, (s.size + 1) % WORD)
  }

  /** LinkedList_append with `last` moved to the new element. */
  function AppendedFixed<T>(s: Shape<T>, p: T): Shape<T>
  {
    var c := Linked(s, p);
    Shape(c, if |s.contents| == 0 || 0 <= s.lastAt then |c| - 1 else -1, (s.size + 1) % WORD)
  }

  /** LinkedList_popFront: nothing for an empty list; otherwise the first
      payload, its successor becomes `first`, `size` goes down by one with
      unsigned wrap-around, and `last` is reset only when nothing is left. */
  function Popped<T>(s: Shape<T>): (Option<T>, Shape<T>)
  {
    if |s.contents| == 0 then (None, s)
    else
      var lastAt := if |s.contents| == 1 || s.lastAt <= 0 then -1 else s.lastAt - 1;
      (Some(s.contents[0]), Shape(s.contents[1..], lastAt, (s.size - 1) % WORD))
  }

  /** The state the corrected code keeps: `last` is the final reachable
      element and `size` counts the reachable elements. */
  predicate Tidy<T>(s: Shape<T>)
  {
    s.lastAt == |s.contents| - 1 && s.size == |s.contents| < WORD
  }

  // ---------------------------------------------------------------------------
  // Properties of the abstract operations

  /** An append as written or corrected always counts one element more. */
  lemma AppendCounts<T>(s: Shape<T>, p: T)
    requires 0 <= s.size < WORD - 1
    ensures Appended(s, p).size == s.size + 1 && AppendedFixed(s, p).size == s.size + 1
  {
  }

  /** Appending to an empty list makes the new element both `first` and
      `last`. */
  lemma AppendToEmpty<T>(s: Shape<T>, p: T)
    requires |s.contents| == 0
    ensures Appended(s, p).contents == [p] && Appended(s, p).lastAt == 0
  {
  }

  /** Two appends to an empty list and two pops return the payloads in
      order and bring `size` back to zero: the as-written list is FIFO for
      such short histories. */
  lemma ShortHistoryIsFifo<T>(a: T, b: T)
    ensures var s2 := Appended(Appended(Empty(), a), b);
      var (x, s3) := Popped(s2);
      var (y, s4) := Popped(s3);
      x == Some(a) && y == Some(b) && s4 == Empty()
  {
  }

  /** The state the as-written list can reach from an empty one: at most
      two elements reachable, `last` pointing at the first of them or, once
      that one has been popped, at a freed element. */
  predicate Reachable<T>(s: Shape<T>)
  {
    (|s.contents| == 0 && s.lastAt == -1)
    || (s.lastAt == 0 && 1 <= |s.contents| <= 2)
    || (s.lastAt == -1 && |s.contents| == 1)
  }

  lemma ReachableFromEmpty<T>()
    ensures Reachable(Empty<T>())
  {
  }

  /** No history of as-written appends and pops ever reaches more than two
      elements. */
  lemma ReachableClosed<T>(s: Shape<T>, p: T)
    requires Reachable(s)
    ensures Reachable(Appended(s, p)) && Reachable(Popped(s).1)
    ensures |s.contents| <= 2
  {
  }

  /** `n` appends in a row. */
  function AppendAll<T>(s: Shape<T>, xs: seq<T>): Shape<T>
    decreases |xs|
  {
    if |xs| == 0 then s else AppendAll(Appended(s, xs[0]), xs[1..])
  }

  /** As-written appends to an empty list keep only the first and the most
      recent payload reachable, while `size` counts all of them. */
  lemma {:induction false} AppendAllKeepsEnds<T>(s: Shape<T>, xs: seq<T>)
    requires |s.contents| == 1 && s.lastAt == 0 && 0 <= s.size && s.size + |xs| < WORD
    ensures var r := AppendAll(s, xs);
      r.lastAt == 0 && r.size == s.size + |xs|
      && r.contents == if |xs| == 0 then s.contents else s.contents + [xs[|xs| - 1]]
    decreases |xs|
  {
    if |xs| > 0 {
      var t := Appended(s, xs[0]);
      assert t.contents == s.contents + [xs[0]];
      var u := Shape(s.contents, 0, t.size);
      AppendAllKeepsEnds(u, xs[1..]);
      if |xs| == 1 {
      } else {
        AppendGoesLast(t, u, xs[1..]);
        assert xs[1..][|xs[1..]| - 1] == xs[|xs| - 1];
      }
    }
  }

  /** Appending `xs` and then `ys` is appending `xs + ys`. */
  lemma {:induction false} AppendAllConcat<T>(s: Shape<T>, xs: seq<T>, ys: seq<T>)
    ensures AppendAll(s, xs + ys) == AppendAll(AppendAll(s, xs), ys)
    decreases |xs|
  {
    if |xs| > 0 {
      assert (xs + ys)[0] == xs[0] && (xs + ys)[1..] == xs[1..] + ys;
      AppendAllConcat(Appended(s, xs[0]), xs[1..], ys);
    } else {
      assert xs + ys == ys;
    }
  }

  /** Whatever appends leave reachable was reachable before or was
      appended. */
  lemma {:induction false} AppendAllReaches<T>(s: Shape<T>, xs: seq<T>, p: T)
    requires p in AppendAll(s, xs).contents
    ensures p in s.contents || p in xs
    decreases |xs|
  {
    if |xs| > 0 {
      var t := Appended(s, xs[0]);
      AppendAllReaches(t, xs[1..], p);
      if p in t.contents && p != xs[0] && 0 <= s.lastAt < |s.contents| {
        assert p in s.contents[..s.lastAt + 1];
      }
    }
  }

  /** Appending behind the first element forgets its second one. */
  lemma {:induction false} AppendGoesLast<T>(t: Shape<T>, u: Shape<T>, xs: seq<T>)
    requires |t.contents| == 2 && t.lastAt == 0 && u == Shape(t.contents[..1], 0, t.size) && |xs| > 0
    ensures AppendAll(t, xs) == AppendAll(u, xs)
  {
    assert Appended(t, xs[0]) == Appended(u, xs[0]);
  }

  /** The third append overwrites the link to the second element: the list
      then reaches the first and third payloads only, while `size` says
      three. */
  lemma ThirdAppendLosesSecond<T>(a: T, b: T, c: T)
    ensures var s := AppendAll(Empty(), [a, b, c]);
      s.contents == [a, c] && s.size == 3
  {
    var s1 := Appended(Empty(), a);
    assert s1 == Shape([a], 0, 1);
    AppendAllKeepsEnds(s1, [b, c]);
    assert AppendAll(Empty(), [a, b, c]) == AppendAll(s1, [b, c]);
  }

  /** After those three appends two pops empty the list, yet `size` still
      counts one element: LinkedList_getSize then disagrees with
      LinkedList_popFront. */
  lemma SizeOutrunsContents<T>(a: T, b: T, c: T)
    ensures var s := AppendAll(Empty(), [a, b, c]);
      var (x, s1) := Popped(s);
      var (y, s2) := Popped(s1);
      x == Some(a) && y == Some(c) && s2.contents == [] && s2.size == 1 && Popped(s2).0 == None
  {
    ThirdAppendLosesSecond(a, b, c);
  }

  /** Enqueueing onto an empty list and popping gives the payload back and
      leaves the list empty, with either append. */
  lemma AppendPopRoundTrip<T>(p: T)
    ensures Popped(Appended(Empty(), p)) == (Some(p), Empty())
    ensures Popped(AppendedFixed(Empty(), p)) == (Some(p), Empty())
  {
    assert [p][1..] == [];
  }

  /** The corrected append keeps the list tidy and adds the payload at the
      end. */
  lemma AppendedFixedIsFifo<T>(s: Shape<T>, p: T)
    requires Tidy(s) && |s.contents| < WORD - 1
    ensures Tidy(AppendedFixed(s, p)) && AppendedFixed(s, p).contents == s.contents + [p]
  {
  }

  /** Popping a tidy list returns its first payload and keeps it tidy. */
  lemma PoppedKeepsTidy<T>(s: Shape<T>)
    requires Tidy(s)
    ensures Tidy(Popped(s).1)
    ensures |s.contents| == 0 <==> Popped(s).0 == None
    ensures |s.contents| > 0 ==> Popped(s).0 == Some(s.contents[0]) && Popped(s).1.contents == s.contents[1..]
  {
  }

  /** Corrected appends in a row. */
  function AppendAllFixed<T>(s: Shape<T>, xs: seq<T>): Shape<T>
    decreases |xs|
  {
    if |xs| == 0 then s else AppendAllFixed(AppendedFixed(s, xs[0]), xs[1..])
  }

  /** Any number of corrected appends to a tidy list keeps it tidy and
      queues the payloads in order. */
  lemma {:induction false} AppendAllFixedIsFifo<T>(s: Shape<T>, xs: seq<T>)
    requires Tidy(s) && |s.contents| + |xs| < WORD
    ensures Tidy(AppendAllFixed(s, xs)) && AppendAllFixed(s, xs).contents == s.contents + xs
    decreases |xs|
  {
    if |xs| > 0 {
      var t := AppendedFixed(s, xs[0]);
      AppendedFixedIsFifo(s, xs[0]);
      AppendAllFixedIsFifo(t, xs[1..]);
      assert AppendAllFixed(s, xs) == AppendAllFixed(t, xs[1..]);
      assert t.contents + xs[1..] == s.contents + xs;
    }
  }

  // ---------------------------------------------------------------------------
  // The heap structure

  class Element<T> {
    var next: Element?<T>
    var list: List?<T>
    var payload: T

    constructor (l: List<T>, p: T)
      ensures next == null && list == l && payload == p
    {
      next := null;
      list := l;
      payload := p;
    }
  }

  class List<T> {
    var first: Element?<T>
    var last: Element?<T>
    var size: int
    /** The elements reachable from `first`, with their payloads. */
    ghost var chain: seq<Element<T>>
    ghost var contents: seq<T>
    ghost var lastAt: int
    ghost var Repr: set<object>

    ghost predicate Valid()
      reads this, Repr
    {
      && this in Repr
      && 0 <= size < WORD
      && |contents| == |chain|
      && (forall i :: 0 <= i < |chain| ==> chain[i] in Repr && chain[i].payload == contents[i] && chain[i].list == this)
      && (forall i, j :: 0 <= i < j < |chain| ==> chain[i] != chain[j])
      && (forall i :: 0 <= i < |chain| - 1 ==> chain[i].next == chain[i + 1])
      && (|chain| > 0 ==> chain[|chain| - 1].next == null)
      && first == (if |chain| == 0 then null else chain[0])
      && (last == null <==> |chain| == 0)
      && (last != null ==> last in Repr)
      && -1 <= lastAt < |chain|
      && (lastAt >= 0 ==> chain[lastAt] == last)
      && (lastAt < 0 ==> forall i :: 0 <= i < |chain| ==> chain[i] != last)
    }

    ghost function Abstract(): Shape<T>
      reads this
    {
      Shape(contents, lastAt, size)
    }

    /** The zeroed header LinkedList_create leaves. */
    constructor ()
      ensures Valid() && fresh(Repr) && Abstract() == Empty()
    {
      first := null;
      last := null;
      size := 0;
      chain := [];
      contents := [];
      lastAt := -1;
      Repr := {this};
    }
  }

  // ---------------------------------------------------------------------------
  // Operations

  /** LinkedList_create: a new empty list, or null when the allocation
      fails. */
  method Create<T>(allocates: bool) returns (l: List?<T>)
    ensures allocates <==> l != null
    ensures l != null ==> fresh(l.Repr) && l.Valid() && l.Abstract() == Empty()
  {
    if allocates {
      l := new List();
    } else {
      l := null;
    }
  }

  /** Lines 63-68: the first element of an empty list becomes both `first`
      and `last`, and is counted. */
  method LinkFirst<T>(l: List<T>, e: Element<T>)
    requires l.Valid() && l.last == null && e !in l.Repr && e.next == null && e.list == l
    modifies l
    ensures l.Valid() && l.Repr == old(l.Repr) + {e}
    ensures l.Abstract() == Appended(old(l.Abstract()), e.payload)
  {
    l.first := e;
    l.last := e;
    l.chain := [e];
    l.contents := [e.payload];
    l.lastAt := 0;
    l.size := (l.size + 1) % WORD;
    l.Repr := l.Repr + {e};
  }

  /** Lines 59-62 and 68: a new element linked behind `last`, which stays
      where it is, and counted. */
  method LinkBehind<T>(l: List<T>, e: Element<T>)
    requires l.Valid() && l.last != null && e !in l.Repr && e.next == null && e.list == l
    modifies l, l.last
    ensures l.Valid() && l.Repr == old(l.Repr) + {e} && l.last == old(l.last)
    ensures l.Abstract() == Appended(old(l.Abstract()), e.payload)
    ensures 0 <= l.lastAt ==> l.chain[|l.chain| - 1] == e
    ensures l.lastAt < 0 ==> forall i :: 0 <= i < |l.chain| ==> l.chain[i] != e
  {
    l.last.next := e;
    if l.lastAt >= 0 {
      l.chain := l.chain[..l.lastAt + 1] + [e];
      l.contents := l.contents[..l.lastAt + 1] + [e.payload];
    }
    l.size := (l.size + 1) % WORD;
    l.Repr := l.Repr + {e};
  }

  /** The correction: `last` moves to the element just linked. */
  method MoveLast<T>(l: List<T>, e: Element<T>)
    requires l.Valid() && e in l.Repr
    requires 0 <= l.lastAt ==> l.chain[|l.chain| - 1] == e
    requires l.lastAt < 0 ==> |l.chain| > 0 && forall i :: 0 <= i < |l.chain| ==> l.chain[i] != e
    modifies l
    ensures l.Valid() && l.Repr == old(l.Repr) && l.contents == old(l.contents) && l.size == old(l.size)
    ensures l.lastAt == if 0 <= old(l.lastAt) then |l.contents| - 1 else -1
    ensures l.Abstract() == Shape(old(l.contents), if 0 <= old(l.lastAt) then |l.contents| - 1 else -1, old(l.size))
  {
    l.last := e;
    if l.lastAt >= 0 {
      l.lastAt := |l.chain| - 1;
    }
  }

  /** Links a fresh element behind `last` (or makes it the only element),
      moving `last` to it when `moveLast` holds. */
  method Link<T>(l: List<T>, p: T, moveLast: bool)
    requires l.Valid()
    modifies l.Repr
    ensures l.Valid() && fresh(l.Repr - old(l.Repr))
    ensures l.Abstract() == if moveLast then AppendedFixed(old(l.Abstract()), p) else Appended(old(l.Abstract()), p)
  {
    var e := new Element(l, p);
    if l.last != null {
      LinkBehind(l, e);
      if moveLast {
        MoveLast(l, e);
      }
    } else {
      LinkFirst(l, e);
    }
  }

  /** LinkedList_append as written: -1 with nothing changed for a null
      list or a failed allocation, otherwise 0 after linking the element
      behind `last` without moving `last` on a non-empty list. */
  method Append<T>(l: List?<T>, p: T, allocates: bool) returns (r: int)
    requires l != null ==> l.Valid()
    modifies if l != null then l.Repr else {}
    ensures r == (if l != null && allocates then 0 else -1)
    ensures l != null ==> l.Valid() && fresh(l.Repr - old(l.Repr))
    ensures l != null ==> l.Abstract() == if r == 0 then Appended(old(l.Abstract()), p) else old(l.Abstract())
  {
    if l != null && allocates {
      Link(l, p, false);
      return 0;
    }
    return -1;
  }

  /** LinkedList_append with `last` moved to the new element. */
  method AppendFixed<T>(l: List?<T>, p: T, allocates: bool) returns (r: int)
    requires l != null ==> l.Valid()
    modifies if l != null then l.Repr else {}
    ensures r == (if l != null && allocates then 0 else -1)
    ensures l != null ==> l.Valid() && fresh(l.Repr - old(l.Repr))
    ensures l != null ==> l.Abstract() == if r == 0 then AppendedFixed(old(l.Abstract()), p) else old(l.Abstract())
  {
    if l != null && allocates {
      Link(l, p, true);
      return 0;
    }
    return -1;
  }

  /** LinkedList_popFront: None (the null pointer) for a null or empty
      list; otherwise the first payload, unlinked. */
  method PopFront<T>(l: List?<T>) returns (r: Option<T>)
    requires l != null ==> l.Valid()
    modifies if l != null then {l} else {}
    ensures l == null ==> r == None
    ensures l != null ==> l.Valid() && l.Repr == old(l.Repr) && (r, l.Abstract()) == Popped(old(l.Abstract()))
  {
    if l != null && l.first != null {
      var e := l.first;
      r := Some(e.payload);
      l.first := e.next;
      l.size := (l.size - 1) % WORD;
      l.chain := l.chain[1..];
      l.contents := l.contents[1..];
      if l.first == null {
        l.last := l.first;
      }
      l.lastAt := if |l.chain| == 0 || l.lastAt <= 0 then -1 else l.lastAt - 1;
      return;
    }
    return None;
  }

  /** LinkedList_getSize: 0 for a null list, the counter otherwise. */
  method GetSize<T>(l: List?<T>) returns (n: int)
    requires l != null ==> l.Valid()
    ensures n == if l == null then 0 else l.Abstract().size
  {
    if l != null {
      return l.size;
    }
    return 0;
  }
}
