/**
 * The three generic containers of SFDataStructures.swift: `List`, `Queue` and `Stack`.
 * Each is a value type over a private Swift array; here each is a class whose field
 * `items` is that array, and whose mutating methods reassign it.
 */
module DataStructures {
  import opened Options

  /** The lowest index at which `x` occurs in `s`, or -1 when it does not occur. */
  function FirstIndex<T(==)>(s: seq<T>, x: T): (r: int)
    ensures -1 <= r < |s|
    ensures r == -1 <==> x !in s
    ensures 0 <= r ==> s[r] == x && forall j :: 0 <= j < r ==> s[j] != x
  {
    if |s| == 0 then -1
    else if s[0] == x then 0
    else
      var k := FirstIndex(s[1..], x);
      if k == -1 then -1 else k + 1
  }

  /** `s` with position `i` taken out (Swift's `Array.remove(at:)`). */
  function RemoveAt<T>(s: seq<T>, i: nat): (r: seq<T>)
    requires i < |s|
    ensures |r| == |s| - 1
    ensures forall j :: 0 <= j < i ==> r[j] == s[j]
    ensures forall j :: i <= j < |r| ==> r[j] == s[j + 1]
    ensures multiset(r) + multiset{s[i]} == multiset(s)
  {
    assert s == s[..i] + [s[i]] + s[i + 1..];
    s[..i] + s[i + 1..]
  }

  /** `s` in reverse order: the order in which a stack gives its elements back. */
  function Reversed<T>(s: seq<T>): (r: seq<T>)
    ensures |r| == |s|
    ensures forall i :: 0 <= i < |s| ==> r[i] == s[|s| - 1 - i]
  {
    if s == [] then [] else [s[|s| - 1]] + Reversed(s[..|s| - 1])
  }

  /** A random-access list; duplicates are allowed and insertion order is kept. */
  class List<T(==)> {
    /** The array behind the list. */
    var items: seq<T>

    constructor ()
      ensures items == []
    {
      items := [];
    }

    /** Number of elements. */
    function Count(): (n: nat)
      reads this
      ensures n == 0 <==> items == []
    {
      |items|
    }

    /** Removes the element at `index`; Swift traps on an index out of range. */
    method DeleteAt(index: int)
      requires 0 <= index < |items|
      modifies this
      ensures items == RemoveAt(old(items), index)
    {
      items := items[..index] + items[index + 1..];
    }

    /** Removes the first occurrence of `x`; reports whether one was removed. */
    method Delete(x: T) returns (removed: bool)
      modifies this
      ensures removed <==> x in old(items)
      ensures !removed ==> items == old(items)
      ensures removed ==> items == RemoveAt(old(items), FirstIndex(old(items), x))
    {
      var first := Search(x);
      if !(first > -1) {
        return false;
      }
      items := items[..first] + items[first + 1..];
      return true;
    }

    /** Appends `x` at the end. */
    method Insert(x: T)
      modifies this
      ensures items == old(items) + [x]
    {
      items := items + [x];
    }

    /** The element at `index`, or `None` for any index out of range (`safeObject(at:)`). */
    function SearchAt(index: int): (r: Option<T>)
      reads this
      ensures r.Some? <==> 0 <= index < |items|
      ensures r.Some? ==> r.value == items[index]
    {
      if 0 <= index < |items| then Some(items[index]) else None
    }

    /** The lowest index holding `x`, or -1 when no element equals `x`. */
    method Search(x: T) returns (index: int)
      ensures -1 <= index < |items|
      ensures index == -1 <==> x !in items
      ensures 0 <= index ==> items[index] == x && forall j :: 0 <= j < index ==> items[j] != x
    {
      var i := 0;
      while i < |items|
        invariant 0 <= i <= |items|
        invariant forall j :: 0 <= j < i ==> items[j] != x
      {
        if items[i] == x {
          return i;
        }
        i := i + 1;
      }
      return -1;
    }
  }

  /** A first-in first-out queue. */
  class Queue<T> {
    /** The array behind the queue; its head is `items[0]`. */
    var items: seq<T>

    constructor ()
      ensures items == []
    {
      items := [];
    }

    /** Number of elements. */
    function Count(): (n: nat)
      reads this
      ensures n == 0 <==> items == []
    {
      |items|
    }

    /** Removes the head; reports false, changing nothing, on an empty queue. */
    method Dequeue() returns (removed: bool)
      modifies this
      ensures removed <==> old(items) != []
      ensures items == if removed then old(items)[1..] else old(items)
    {
      if items != [] {
        items := items[1..];
        return true;
      }
      return false;
    }

    /** Removes every element (Swift's `empty()`, a destructive clear unlike `Stack.Empty`). */
    method Empty()
      modifies this
      ensures items == []
    {
      items := [];
    }

    /** Appends `x` at the tail. */
    method Enqueue(x: T)
      modifies this
      ensures items == old(items) + [x]
    {
      items := items + [x];
    }

    /** The head without removing it, or `None` when the queue is empty. */
    function Top(): (r: Option<T>)
      reads this
      ensures r.Some? <==> items != []
      ensures r.Some? ==> r.value == items[0]
    {
      if items == [] then None else Some(items[0])
    }
  }

  /** A last-in first-out stack; the top is the last element of `items`. */
  class Stack<T> {
    /** The array behind the stack. */
    var items: seq<T>

    constructor ()
      ensures items == []
    {
      items := [];
    }

    /** Number of elements. */
    function Count(): (n: nat)
      reads this
      ensures n == 0 <==> items == []
    {
      |items|
    }

    /** Whether the stack holds no element (Swift's `empty()`, a query unlike `Queue.Empty`). */
    function Empty(): (r: bool)
      reads this
      ensures r <==> Count() == 0
    {
      items == []
    }

    /** Removes and returns the top, or returns `None` and changes nothing on an empty stack. */
    method Pop() returns (r: Option<T>)
      modifies this
      ensures old(items) == [] ==> r == None && items == []
      ensures old(items) != [] ==>
                r == Some(old(items)[|old(items)| - 1]) && items == old(items)[..|old(items)| - 1]
    {
      r := None;
      if !Empty() {
        r := Some(items[|items| - 1]);
        items := items[..|items| - 1];
      }
    }

    /** Puts `x` on top. */
    method Push(x: T)
      modifies this
      ensures items == old(items) + [x]
    {
      items := items + [x];
    }
  }

  /** Emptying a queue with `Top` and `Dequeue` gives its elements back in insertion order. */
  method DrainQueue<T>(q: Queue<T>) returns (out: seq<T>)
    modifies q
    ensures out == old(q.items) && q.items == []
  {
    out := [];
    while q.Count() > 0
      invariant out + q.items == old(q.items)
      decreases |q.items|
    {
      var head := q.Top();
      var removed := q.Dequeue();
      out := out + [head.value];
    }
  }

  /** Emptying a stack with `Pop` gives its elements back in reverse insertion order. */
  method DrainStack<T>(s: Stack<T>) returns (out: seq<T>)
    modifies s
    ensures out == Reversed(old(s.items)) && s.items == []
  {
    out := [];
    ghost var original := s.items;
    while !s.Empty()
      invariant |out| + |s.items| == |original|
      invariant s.items == original[..|s.items|]
      invariant forall i :: 0 <= i < |out| ==> out[i] == original[|original| - 1 - i]
      decreases |s.items|
    {
      var top := s.Pop();
      out := out + [top.value];
    }
  }

  /** After `Empty`, one `Enqueue(x)` leaves exactly `x` at the head and a count of one. */
  method EmptyThenEnqueue<T>(q: Queue<T>, x: T) returns (top: Option<T>, count: nat)
    modifies q
    ensures top == Some(x) && count == 1 && q.items == [x]
  {
    q.Empty();
    q.Enqueue(x);
    top := q.Top();
    count := q.Count();
  }

  /** `Push(x)` then `Pop()` returns `x` and gives the stack back its earlier contents. */
  method PushThenPop<T>(s: Stack<T>, x: T) returns (popped: Option<T>)
    modifies s
    ensures popped == Some(x) && s.items == old(s.items)
  {
    s.Push(x);
    popped := s.Pop();
  }
}
