/** The behaviour the repository's unit tests check, stated as contracts of
    small client methods over the linked list. Each method builds its own
    list, so none of them changes anything its caller can see. */
module Scenarios {
  import opened Outcomes
  import opened Collections

  /** Appending three elements, then reading them back by position. */
  method AddAndGet() returns (empty: bool, n: int, a: Result<int>, b: Result<int>, c: Result<int>)
    ensures empty && n == 3
    ensures a == Ok(1) && b == Ok(2) && c == Ok(3)
  {
    var list := new SimpleLinkedList<int>();
    empty := list.IsEmpty();
    var _ := list.Add(1);
    var _ := list.Add(2);
    var _ := list.Add(3);
    n := list.Size();
    a := list.Get(0);
    b := list.Get(1);
    c := list.Get(2);
  }

  /** Inserting between two elements shifts the later one up. */
  method AddAtIndex() returns (n: int, a: Result<string>, b: Result<string>, c: Result<string>)
    ensures n == 3
    ensures a == Ok("a") && b == Ok("b") && c == Ok("c")
  {
    var list := new SimpleLinkedList<string>();
    var _ := list.Add("a");
    var _ := list.Add("c");
    var _ := list.AddAt(1, "b");
    n := list.Size();
    a := list.Get(0);
    b := list.Get(1);
    c := list.Get(2);
  }

  /** Replacing an element returns the one it replaced. */
  method SetReplaces() returns (previous: Result<int>, now: Result<int>)
    ensures previous == Ok(20) && now == Ok(99)
  {
    var list := new SimpleLinkedList<int>();
    var _ := list.Add(10);
    var _ := list.Add(20);
    previous := list.Set(1, 99);
    now := list.Get(1);
  }

  /** Removing by position returns the element and closes the gap. */
  method RemoveByIndex() returns (removed: Result<int>, n: int, after: Result<int>)
    ensures removed == Ok(20) && n == 2 && after == Ok(30)
  {
    var list := new SimpleLinkedList<int>();
    var _ := list.Add(10);
    var _ := list.Add(20);
    var _ := list.Add(30);
    removed := list.RemoveAt(1);
    n := list.Size();
    after := list.Get(1);
  }

  /** Removing by value takes out only the first occurrence. */
  method RemoveByObject() returns (removed: bool, n: int, a: Result<string>, b: Result<string>)
    ensures removed && n == 2 && a == Ok("y") && b == Ok("x")
  {
    var list := new SimpleLinkedList<string>();
    var _ := list.Add("x");
    var _ := list.Add("y");
    var _ := list.Add("x");
    removed := list.RemoveValue("x");
    n := list.Size();
    a := list.Get(0);
    b := list.Get(1);
  }

  /** Membership and the position of the first occurrence, -1 for absent. */
  method ContainsAndIndexOf() returns (has: bool, at: int, missing: int)
    ensures has && at == 1 && missing == -1
  {
    var list := new SimpleLinkedList<int>();
    var _ := list.Add(5);
    var _ := list.Add(7);
    var _ := list.Add(9);
    has := list.Contains(7);
    at := list.IndexOf(7);
    missing := list.IndexOf(100);
  }

  /** The sum of a sequence of integers. */
  function Sum(s: seq<int>): int
  {
    if s == [] then 0 else Sum(s[..|s| - 1]) + s[|s| - 1]
  }

  /** The sum the traversal below expects. */
  lemma SumOneTwoThree()
    ensures Sum([1, 2, 3]) == 6
  {
    assert [1][..0] == [] && [1, 2][..1] == [1] && [1, 2, 3][..2] == [1, 2];
  }

  /** Walking any list with `HasNext`/`Next` visits every element once, in
      order, and every `Next` succeeds. */
  method Traverse<T(==)>(list: SimpleLinkedList<T>) returns (seen: seq<T>)
    requires list.Valid()
    ensures seen == list.Elements
  {
    var it := list.Iterator();
    seen := [];
    while it.HasNext()
      invariant it.Valid() && it.list == list && it.expectedModCount == list.modCount
      invariant seen == list.Elements[..it.nextIndex]
      decreases |list.Elements| - it.nextIndex
    {
      var x := it.Next();
      seen := seen + [x.value];
    }
    assert list.Elements[..it.nextIndex] == list.Elements;
  }

  /** Summing the elements met by the iterator over 1, 2, 3 gives 6. */
  method TraverseAll() returns (seen: seq<int>, sum: int)
    ensures seen == [1, 2, 3] && sum == 6
  {
    var list := new SimpleLinkedList<int>();
    var _ := list.Add(1);
    var _ := list.Add(2);
    var _ := list.Add(3);
    seen := Traverse(list);
    SumOneTwoThree();
    sum := Sum(seen);
  }

  /** An element added behind a live iterator makes its next `Next` fail. */
  method FailFast() returns (more: bool, r: Result<int>)
    ensures more && r == Err(ConcurrentModification)
  {
    var list := new SimpleLinkedList<int>();
    var _ := list.Add(1);
    var _ := list.Add(2);
    var it := list.Iterator();
    more := it.HasNext();
    var _ := list.Add(3);
    r := it.Next();
  }

  /** A `removeAll` that removes nothing and an `addAll` of nothing are not
      modifications: a live iterator carries on undisturbed. */
  method NoOpKeepsIterator() returns (first: Result<int>, second: Result<int>)
    ensures first == Ok(1) && second == Err(NoSuchElement)
  {
    var list := new SimpleLinkedList<int>();
    var _ := list.Add(1);
    var it := list.Iterator();
    var _ := list.RemoveAll(Some([7]));
    first := it.Next();
    var _ := list.AddAll(Some([]));
    second := it.Next();
  }

  /** Clearing leaves an empty list. */
  method ClearEmpties() returns (n: int, empty: bool)
    ensures n == 0 && empty
  {
    var list := new SimpleLinkedList<int>();
    var _ := list.Add(1);
    var _ := list.Add(2);
    list.Clear();
    n := list.Size();
    empty := list.IsEmpty();
  }

  /** Positions outside the list are refused by every indexed operation. */
  method InvalidIndexes()
    returns (low: Result<int>, high: Result<int>, insert: Outcome, remove: Result<int>, replace: Result<int>)
    ensures low == Err(IndexOutOfBounds) && high == Err(IndexOutOfBounds)
    ensures insert == Fail(IndexOutOfBounds)
    ensures remove == Err(IndexOutOfBounds) && replace == Err(IndexOutOfBounds)
  {
    var list := new SimpleLinkedList<int>();
    var _ := list.Add(1);
    var _ := list.Add(2);
    low := list.Get(-1);
    high := list.Get(2);
    insert := list.AddAt(3, 99);
    remove := list.RemoveAt(2);
    replace := list.Set(2, 0);
  }

  /** Both array copies hold the elements in order; an empty array passed
      in is replaced by a new one of the right length, and a null one is
      refused. */
  method ToArrayCopies()
    returns (a: seq<Option<string>>, b: seq<Option<string>>, c: Result<array<Option<string>>>)
    ensures a == [Some("a"), Some("b")] && b == [Some("a"), Some("b")]
    ensures c == Err(NullPointer)
  {
    var list := new SimpleLinkedList<string>();
    var _ := list.Add("a");
    var _ := list.Add("b");
    var arr := list.ToArray();
    a := arr[..];
    var empty := new Option<string>[0];
    var arr2 := list.ToArrayInto(empty);
    b := arr2.value[..];
    c := list.ToArrayInto(null);
  }
}
