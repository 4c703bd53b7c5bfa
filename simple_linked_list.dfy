/** The generic doubly-linked list `SimpleLinkedList` and its fail-fast
    iterator `Itr`.

    The list is a chain of `Node` objects from `head` to `tail`. Its ghost
    state gives the abstract view: `Elements` is the sequence of items,
    `Nodes` the chain in order and `Repr` the objects the list owns.
    `Valid()` ties the pointers, `size` and the items to that view. Every
    structural change (insertion, removal, clear) bumps `modCount`; an
    iterator remembers the `modCount` it last saw and refuses to go on once
    the list has moved past it. Exceptions are returned as `Outcome` or
    `Result` values. */
module Collections {
  import opened Outcomes
  import opened ListSpec

  /** The element at position `i` of `s` occurs nowhere else in `s`. */
  ghost predicate UniqueAt<T>(s: seq<T>, i: int)
  {
    0 <= i < |s| && forall j :: 0 <= j < |s| && j != i ==> s[j] != s[i]
  }

  /** One cell of the chain. */
  class Node<T> {
    var item: T
    var prev: Node?<T>
    var next: Node?<T>

    constructor (item: T, prev: Node?<T>, next: Node?<T>)
      ensures this.item == item && this.prev == prev && this.next == next
    {
      this.item := item;
      this.prev := prev;
      this.next := next;
    }
  }

  class SimpleLinkedList<T(==)> {
    var head: Node?<T>
    var tail: Node?<T>
    var size: int
    /** Number of structural modifications so far. */
    var modCount: int

    ghost var Elements: seq<T>
    ghost var Nodes: seq<Node<T>>
    ghost var Repr: set<object>

    /** Node `i` of the chain belongs to the list, occurs nowhere else in
        the chain, holds element `i`, points back to node `i - 1` (to nothing
        when it is the first) and on to node `i + 1` (to nothing when it is
        the last). */
    ghost predicate Linked(i: int)
      reads this, Repr
    {
      0 <= i < |Nodes| == |Elements| && Nodes[i] in Repr && UniqueAt(Nodes, i)
      && Nodes[i].item == Elements[i]
      && Nodes[i].prev == (if i == 0 then null else Nodes[i - 1])
      && Nodes[i].next == (if i == |Nodes| - 1 then null else Nodes[i + 1])
    }

    /** The chain runs from `head` through `next` links to `tail`, the `prev`
        links run back the same way, no node occurs twice, and the items
        along it are `Elements`. */
    ghost predicate Valid()
      reads this, Repr
      ensures Valid() ==> this in Repr
    {
      this in Repr
      && |Nodes| == |Elements| == size
      && head == (if |Nodes| == 0 then null else Nodes[0])
      && tail == (if |Nodes| == 0 then null else Nodes[|Nodes| - 1])
      && (forall i :: 0 <= i < |Nodes| ==> Linked(i))
    }

    constructor ()
      ensures Valid() && fresh(Repr - {this})
      ensures Elements == [] && modCount == 0
    {
      head, tail, size, modCount := null, null, 0, 0;
      Elements, Nodes, Repr := [], [], {this};
    }

    // ---------- Linking primitives ----------

    /** Puts `e` in a new node in front of `head`. */
    method LinkFirst(e: T)
      requires Valid()
      modifies Repr
      ensures Valid() && fresh(Repr - old(Repr))
      ensures Elements == [e] + old(Elements)
      ensures modCount == old(modCount) + 1
    {
      ghost var nodes := Nodes;
      if 0 < |nodes| {
        assert Linked(0);
      }
      var h := head;
      var newNode := new Node(e, null, h);
      head := newNode;
      if h == null {
        tail := newNode;
      } else {
        h.prev := newNode;
      }
      size := size + 1;
      modCount := modCount + 1;
      Elements := [e] + Elements;
      Nodes := [newNode] + nodes;
      Repr := Repr + {newNode};
      forall i | 0 <= i < |Nodes|
        ensures Linked(i)
      {
        if 0 < i {
          assert old(Linked(i - 1));
        }
      }
    }

    /** Puts `e` in a new node after `tail`. */
    method LinkLast(e: T)
      requires Valid()
      modifies Repr
      ensures Valid() && fresh(Repr - old(Repr))
      ensures Elements == old(Elements) + [e]
      ensures modCount == old(modCount) + 1
    {
      ghost var nodes := Nodes;
      if 0 < |nodes| {
        assert Linked(|nodes| - 1);
      }
      var t := tail;
      var newNode := new Node(e, t, null);
      tail := newNode;
      if t == null {
        head := newNode;
      } else {
        t.next := newNode;
      }
      size := size + 1;
      modCount := modCount + 1;
      Elements := Elements + [e];
      Nodes := nodes + [newNode];
      Repr := Repr + {newNode};
      forall i | 0 <= i < |Nodes|
        ensures Linked(i)
      {
        if i < |nodes| {
          assert old(Linked(i));
        }
      }
    }

    /** Puts `e` in a new node just before `succ`, the node at position `k`. */
    method LinkBefore(e: T, succ: Node<T>, ghost k: int)
      requires Valid() && 0 <= k < |Nodes| && succ == Nodes[k]
      modifies Repr
      ensures Valid() && fresh(Repr - old(Repr))
      ensures Elements == Inserted(old(Elements), k, e)
      ensures modCount == old(modCount) + 1
    {
      ghost var nodes := Nodes;
      assert Linked(k);
      if 0 < k {
        assert Linked(k - 1);
      }
      var pred := succ.prev;
      var newNode := new Node(e, pred, succ);
      succ.prev := newNode;
      if pred == null {
        head := newNode;
      } else {
        pred.next := newNode;
      }
      size := size + 1;
      modCount := modCount + 1;
      Elements := Inserted(Elements, k, e);
      Nodes := Inserted(nodes, k, newNode);
      Repr := Repr + {newNode};
      forall i | 0 <= i < |Nodes|
        ensures Linked(i)
      {
        if i < k {
          assert old(Linked(i));
        } else if k < i {
          assert old(Linked(i - 1));
        }
      }
    }

    /** Takes `x`, the node at position `k`, out of the chain, clears its
        links and returns its item. */
    method Unlink(x: Node<T>, ghost k: int) returns (element: T)
      requires Valid() && 0 <= k < |Nodes| && x == Nodes[k]
      modifies Repr
      ensures Valid() && Repr == old(Repr) - {x}
      ensures element == old(Elements)[k]
      ensures Elements == Removed(old(Elements), k)
      ensures Nodes == Removed(old(Nodes), k)
      ensures x.prev == null && x.next == null
      ensures modCount == old(modCount) + 1
    {
      ghost var nodes := Nodes;
      assert Linked(k);
      if 0 < k {
        assert Linked(k - 1);
      }
      if k < |nodes| - 1 {
        assert Linked(k + 1);
      }
      element := x.item;
      var next := x.next;
      var prev := x.prev;
      size := size - 1;
      modCount := modCount + 1;
      Elements := Removed(Elements, k);
      Nodes := Removed(nodes, k);
      Repr := Repr - {x};
      if prev == null {
        head := next;
      } else {
        prev.next := next;
      }
      if next == null {
        tail := prev;
      } else {
        next.prev := prev;
      }
      x.next := null;
      x.prev := null;
      forall i | 0 <= i < |Nodes|
        ensures Linked(i)
      {
        if i < k {
          assert old(Linked(i));
        } else {
          assert old(Linked(i + 1));
        }
      }
    }

    /** The node at position `index`, reached from whichever end is closer. */
    method NodeAt(index: int) returns (x: Node<T>)
      requires Valid() && 0 <= index < size
      ensures x == Nodes[index] && x.item == Elements[index]
    {
      // `size >> 1` in the source; the same as `size / 2` for size >= 0
      if index < size / 2 {
        x := head;
        var i := 0;
        while i < index
          invariant Valid()
          invariant 0 <= i <= index && x == Nodes[i]
        {
          assert Linked(i);
          x := x.next;
          i := i + 1;
        }
      } else {
        x := tail;
        var i := size - 1;
        while i > index
          invariant Valid()
          invariant index <= i < size && x == Nodes[i]
        {
          assert Linked(i);
          x := x.prev;
          i := i - 1;
        }
      }
      assert Linked(index);
    }

    /** Accepts a position where an element may be inserted: 0 to size. */
    function CheckPositionIndex(index: int): (r: Outcome)
      requires Valid()
      reads this, Repr
      ensures r.Pass? <==> 0 <= index <= |Elements|
      ensures r.Fail? ==> r.error == IndexOutOfBounds
    {
      if index < 0 || index > size then Fail(IndexOutOfBounds) else Pass
    }

    /** Accepts the position of an existing element: 0 to size - 1. */
    function CheckElementIndex(index: int): (r: Outcome)
      requires Valid()
      reads this, Repr
      ensures r.Pass? <==> 0 <= index < |Elements|
      ensures r.Fail? ==> r.error == IndexOutOfBounds
    {
      if index < 0 || index >= size then Fail(IndexOutOfBounds) else Pass
    }

    // ---------- Queries ----------

    function Size(): (n: int)
      requires Valid()
      reads this, Repr
      ensures n == |Elements|
    {
      size
    }

    function IsEmpty(): (b: bool)
      requires Valid()
      reads this, Repr
      ensures b <==> Elements == []
    {
      size == 0
    }

    method Contains(o: T) returns (b: bool)
      requires Valid()
      ensures b <==> o in Elements
    {
      var i := IndexOf(o);
      return i != -1;
    }

    /** Walks forward from `head` to the first node holding `o`. */
    method IndexOf(o: T) returns (r: int)
      requires Valid()
      ensures r == FirstIndex(Elements, o)
    {
      r := 0;
      var x := head;
      while x != null
        invariant 0 <= r <= |Nodes|
        invariant x == (if r == |Nodes| then null else Nodes[r])
        invariant forall j :: 0 <= j < r ==> Elements[j] != o
        decreases |Nodes| - r
      {
        assert Linked(r);
        if o == x.item {
          return;
        }
        r := r + 1;
        x := x.next;
      }
      return -1;
    }

    /** Walks backward from `tail` to the last node holding `o`. */
    method LastIndexOf(o: T) returns (r: int)
      requires Valid()
      ensures r == LastIndex(Elements, o)
    {
      r := size - 1;
      var x := tail;
      while x != null
        invariant -1 <= r < |Nodes|
        invariant x == (if r == -1 then null else Nodes[r])
        invariant forall j :: r < j < |Nodes| ==> Elements[j] != o
        decreases r
      {
        assert Linked(r);
        if o == x.item {
          return;
        }
        r := r - 1;
        x := x.prev;
      }
    }

    method Get(index: int) returns (r: Result<T>)
      requires Valid()
      ensures 0 <= index < |Elements| ==> r == Ok(Elements[index])
      ensures !(0 <= index < |Elements|) ==> r == Err(IndexOutOfBounds)
    {
      var check := CheckElementIndex(index);
      if check.Fail? {
        return Err(check.error);
      }
      var x := NodeAt(index);
      return Ok(x.item);
    }

    /** A new array holding the items from `head` to `tail`; `None` stands
        for Java's `null` in an `Object[]` slot. */
    method ToArray() returns (arr: array<Option<T>>)
      requires Valid()
      ensures fresh(arr) && arr.Length == |Elements|
      ensures forall i :: 0 <= i < arr.Length ==> arr[i] == Some(Elements[i])
    {
      arr := new Option<T>[size](_ => None);
      var i := 0;
      var x := head;
      while x != null
        invariant 0 <= i <= |Nodes|
        invariant x == (if i == |Nodes| then null else Nodes[i])
        invariant forall j :: 0 <= j < i ==> arr[j] == Some(Elements[j])
        decreases |Nodes| - i
      {
        assert Linked(i);
        arr[i] := Some(x.item);
        i := i + 1;
        x := x.next;
      }
    }

    /** Copies the items into `a` when they fit, and otherwise into a new
        array of exactly their number; when `a` has room to spare, the slot
        just after the last item is set to `None` and the rest of `a` is
        left alone. */
    method ToArrayInto(a: array?<Option<T>>) returns (r: Result<array<Option<T>>>)
      requires Valid() && (a != null ==> a !in Repr)
      modifies a
      ensures a == null ==> r == Err(NullPointer)
      ensures a != null && a.Length < |Elements| ==>
                r.Ok? && fresh(r.value) && r.value.Length == |Elements| && unchanged(a)
      ensures a != null && |Elements| <= a.Length ==> r.Ok? && r.value == a
      ensures r.Ok? ==> |Elements| <= r.value.Length
                        && forall i :: 0 <= i < |Elements| ==> r.value[i] == Some(Elements[i])
      ensures a != null && |Elements| < a.Length ==>
                a[|Elements|] == None
                && forall i :: |Elements| < i < a.Length ==> a[i] == old(a[i])
    {
      if a == null {
        return Err(NullPointer);
      }
      var arr := a;
      if a.Length < size {
        arr := new Option<T>[size](_ => None);
      }
      var i := 0;
      var x := head;
      while x != null
        invariant 0 <= i <= |Nodes| <= arr.Length
        invariant arr == a || (fresh(arr) && unchanged(a))
        invariant x == (if i == |Nodes| then null else Nodes[i])
        invariant forall j :: 0 <= j < i ==> arr[j] == Some(Elements[j])
        invariant forall j :: |Nodes| < j < a.Length ==> a[j] == old(a[j])
        decreases |Nodes| - i
      {
        assert Linked(i);
        arr[i] := Some(x.item);
        i := i + 1;
        x := x.next;
      }
      if a.Length > size {
        a[size] := None;
      }
      return Ok(arr);
    }

    method Iterator() returns (it: Itr<T>)
      requires Valid()
      ensures fresh(it) && it.Valid() && it.list == this
      ensures it.nextIndex == 0 && it.lastReturned == null && it.expectedModCount == modCount
    {
      it := new Itr(this);
    }

    // ---------- Updates ----------

    method Add(e: T) returns (b: bool)
      requires Valid()
      modifies Repr
      ensures Valid() && fresh(Repr - old(Repr))
      ensures b && Elements == old(Elements) + [e]
      ensures modCount == old(modCount) + 1
    {
      LinkLast(e);
      return true;
    }

    /** Inserts `e` at position `index`, shifting the later elements up by one. */
    method AddAt(index: int, e: T) returns (r: Outcome)
      requires Valid()
      modifies Repr
      ensures Valid() && fresh(Repr - old(Repr))
      ensures !(0 <= index <= old(|Elements|)) ==> r == Fail(IndexOutOfBounds) && unchanged(this)
      ensures 0 <= index <= old(|Elements|) ==>
                r == Pass && Elements == Inserted(old(Elements), index, e)
                && modCount == old(modCount) + 1
    {
      r := CheckPositionIndex(index);
      if r.Fail? {
        return;
      }
      if index == size {
        LinkLast(e);
      } else {
        var succ := NodeAt(index);
        LinkBefore(e, succ, index);
      }
    }

    /** Removes the first element equal to `o`, if there is one. */
    method RemoveValue(o: T) returns (removed: bool)
      requires Valid()
      modifies Repr
      ensures Valid() && fresh(Repr - old(Repr))
      ensures removed <==> o in old(Elements)
      ensures removed ==>
                Elements == Removed(old(Elements), FirstIndex(old(Elements), o))
                && modCount == old(modCount) + 1
      ensures !removed ==> unchanged(this)
    {
      var x := head;
      ghost var i := 0;
      while x != null && x.item != o
        invariant 0 <= i <= |Nodes|
        invariant x == (if i == |Nodes| then null else Nodes[i])
        invariant forall j :: 0 <= j < i ==> Elements[j] != o
        decreases |Nodes| - i
      {
        assert Linked(i);
        x := x.next;
        i := i + 1;
      }
      if x == null {
        return false;
      }
      assert Linked(i);
      var _ := Unlink(x, i);
      return true;
    }

    /** Removes and returns the element at position `index`. */
    method RemoveAt(index: int) returns (r: Result<T>)
      requires Valid()
      modifies Repr
      ensures Valid() && fresh(Repr - old(Repr))
      ensures !(0 <= index < old(|Elements|)) ==> r == Err(IndexOutOfBounds) && unchanged(this)
      ensures 0 <= index < old(|Elements|) ==>
                r == Ok(old(Elements)[index]) && Elements == Removed(old(Elements), index)
                && modCount == old(modCount) + 1
    {
      var check := CheckElementIndex(index);
      if check.Fail? {
        return Err(check.error);
      }
      var x := NodeAt(index);
      var element := Unlink(x, index);
      return Ok(element);
    }

    /** Replaces the element at position `index` and returns the one it held;
        not a structural change. */
    method Set(index: int, e: T) returns (r: Result<T>)
      requires Valid()
      modifies Repr
      ensures Valid() && Repr == old(Repr) && Nodes == old(Nodes)
      ensures modCount == old(modCount)
      ensures !(0 <= index < old(|Elements|)) ==> r == Err(IndexOutOfBounds) && unchanged(this)
      ensures 0 <= index < old(|Elements|) ==>
                r == Ok(old(Elements)[index]) && Elements == old(Elements)[index := e]
    {
      var check := CheckElementIndex(index);
      if check.Fail? {
        return Err(check.error);
      }
      var x := NodeAt(index);
      assert Linked(index);
      var previous := x.item;
      x.item := e;
      Elements := Elements[index := e];
      forall i | 0 <= i < |Nodes|
        ensures Linked(i)
      {
        assert old(Linked(i));
      }
      return Ok(previous);
    }

    /** Detaches every node and empties the list. */
    method Clear()
      requires Valid()
      modifies Repr
      ensures Valid() && Repr == {this}
      ensures Elements == [] && modCount == old(modCount) + 1
      ensures forall i :: 0 <= i < |old(Nodes)| ==>
                old(Nodes)[i].prev == null && old(Nodes)[i].next == null
    {
      var x := head;
      ghost var i := 0;
      while x != null
        invariant unchanged(this)
        invariant 0 <= i <= |Nodes|
        invariant x == (if i == |Nodes| then null else Nodes[i])
        invariant forall j :: 0 <= j < i ==> Nodes[j].prev == null && Nodes[j].next == null
        invariant forall j :: i <= j < |Nodes| ==> Nodes[j].next == old(Nodes[j].next)
        decreases |Nodes| - i
      {
        assert old(Linked(i));
        var next := x.next;
        x.prev := null;
        x.next := null;
        x := next;
        i := i + 1;
      }
      head, tail := null, null;
      size := 0;
      modCount := modCount + 1;
      Elements, Nodes, Repr := [], [], {this};
    }

    // ---------- Bulk operations ----------

    /** Whether every element of `c` occurs in the list. */
    method ContainsAll(c: Option<seq<T>>) returns (r: Result<bool>)
      requires Valid()
      ensures c.None? ==> r == Err(NullPointer)
      ensures c.Some? ==> r == Ok(forall j :: 0 <= j < |c.value| ==> c.value[j] in Elements)
    {
      if c.None? {
        return Err(NullPointer);
      }
      var cs := c.value;
      var k := 0;
      while k < |cs|
        invariant 0 <= k <= |cs|
        invariant forall j :: 0 <= j < k ==> cs[j] in Elements
      {
        var b := Contains(cs[k]);
        if !b {
          return Ok(false);
        }
        k := k + 1;
      }
      return Ok(true);
    }

    /** Appends the elements of `c` in order; true when there were any. */
    method AddAll(c: Option<seq<T>>) returns (r: Result<bool>)
      requires Valid()
      modifies Repr
      ensures Valid() && fresh(Repr - old(Repr))
      ensures c.None? ==> r == Err(NullPointer) && unchanged(this)
      ensures c.Some? ==>
                r == Ok(|c.value| > 0) && Elements == old(Elements) + c.value
                && modCount == old(modCount) + |c.value|
      ensures c.Some? && |c.value| == 0 ==> unchanged(this)
    {
      if c.None? {
        return Err(NullPointer);
      }
      var cs := c.value;
      var modified := false;
      var k := 0;
      while k < |cs|
        invariant Valid() && fresh(Repr - old(Repr))
        invariant 0 <= k <= |cs|
        invariant Elements == old(Elements) + cs[..k]
        invariant modCount == old(modCount) + k
        invariant modified <==> k > 0
        invariant k == 0 ==> unchanged(this)
      {
        var _ := Add(cs[k]);
        modified := true;
        assert cs[..k + 1] == cs[..k] + [cs[k]];
        k := k + 1;
      }
      assert cs[..k] == cs;
      return Ok(modified);
    }

    /** Inserts the elements of `c`, in order, starting at position `index`. */
    method AddAllAt(index: int, c: Option<seq<T>>) returns (r: Result<bool>)
      requires Valid()
      modifies Repr
      ensures Valid() && fresh(Repr - old(Repr))
      ensures c.None? ==> r == Err(NullPointer) && unchanged(this)
      ensures c.Some? && !(0 <= index <= old(|Elements|)) ==>
                r == Err(IndexOutOfBounds) && unchanged(this)
      ensures c.Some? && 0 <= index <= old(|Elements|) ==>
                r == Ok(|c.value| > 0)
                && Elements == old(Elements)[..index] + c.value + old(Elements)[index..]
                && modCount == old(modCount) + |c.value|
      ensures c.Some? && |c.value| == 0 ==> unchanged(this)
    {
      if c.None? {
        return Err(NullPointer);
      }
      var check := CheckPositionIndex(index);
      if check.Fail? {
        return Err(check.error);
      }
      var cs := c.value;
      if |cs| == 0 {
        assert old(Elements)[..index] + old(Elements)[index..] == old(Elements);
        return Ok(false);
      }
      ghost var s := Elements;
      var i := index;
      var k := 0;
      while k < |cs|
        invariant Valid() && fresh(Repr - old(Repr))
        invariant 0 <= k <= |cs| && i == index + k
        invariant Elements == s[..index] + cs[..k] + s[index..]
        invariant modCount == old(modCount) + k
      {
        InsertedIntoSplice(s, index, cs, k);
        var _ := AddAt(i, cs[k]);
        i := i + 1;
        k := k + 1;
      }
      assert cs[..k] == cs;
      return Ok(true);
    }

    /** The state of the `removeAll`/`retainAll` walk over the original
        elements `s` once the first `k` have been examined: the list holds
        the kept ones followed by those still ahead, and `it` stands just
        after the kept ones, in step with the list. */
    ghost predicate Walking(it: Itr<T>, cs: seq<T>, member: bool, s: seq<T>, k: int)
      reads this, Repr, it
    {
      Valid() && it.list == this && it.Valid() && it.expectedModCount == modCount
      && 0 <= k <= |s| && Elements == Filtered(s, cs, member, k)
      && it.nextIndex == |Select(s[..k], cs, member)|
    }

    /** One round of the `removeAll`/`retainAll` walk: takes the next
        element, `s[k]`, from `it` and removes it through `it` when its
        membership in `cs` is not `member`. */
    method FilterStep(it: Itr<T>, cs: seq<T>, member: bool, ghost s: seq<T>, ghost k: int)
      returns (removed: bool, ghost k': int)
      requires Walking(it, cs, member, s, k) && k < |s|
      modifies it, Repr
      ensures k' == k + 1 && Walking(it, cs, member, s, k') && Repr <= old(Repr)
      ensures removed <==> (s[k] in cs) != member
      ensures it.nextIndex == old(it.nextIndex) + (if removed then 0 else 1)
      ensures modCount == old(modCount) + (if removed then 1 else 0)
      ensures !removed ==> Nodes == old(Nodes)
    {
      SelectStep(s, cs, member, k);
      k' := k + 1;
      var x := it.Next();
      removed := (x.value in cs) != member;
      if removed {
        var _ := it.Remove();
      }
    }

    /** Removes every element whose membership in `cs` is not `member`,
        walking the list with an iterator and removing through it; true when
        anything was removed. The shared loop of `removeAll` and `retainAll`. */
    method RemoveUnless(cs: seq<T>, member: bool) returns (modified: bool)
      requires Valid()
      modifies Repr
      ensures Valid() && Repr <= old(Repr)
      ensures Elements == Select(old(Elements), cs, member)
      ensures modified <==> |Elements| < |old(Elements)|
      ensures modCount == old(modCount) + (|old(Elements)| - |Elements|)
      ensures !modified ==> Nodes == old(Nodes)
    {
      ghost var s := Elements;
      modified := false;
      var it := Iterator();
      ghost var k := 0;
      var more := it.HasNext();
      while more
        invariant Walking(it, cs, member, s, k)
        invariant fresh(it)
        invariant Repr <= old(Repr)
        invariant more <==> k < |s|
        invariant modified <==> it.nextIndex < k
        invariant modCount == old(modCount) + (k - it.nextIndex)
        invariant !modified ==> Nodes == old(Nodes)
        decreases |s| - k
      {
        var removed;
        removed, k := FilterStep(it, cs, member, s, k);
        modified := modified || removed;
        more := it.HasNext();
      }
    }

    /** Removes every element that occurs in `c`. */
    method RemoveAll(c: Option<seq<T>>) returns (r: Result<bool>)
      requires Valid()
      modifies Repr
      ensures Valid() && Repr <= old(Repr)
      ensures c.None? ==> r == Err(NullPointer) && unchanged(this)
      ensures c.Some? ==>
                Elements == Select(old(Elements), c.value, false)
                && r == Ok(exists j :: 0 <= j < |old(Elements)| && old(Elements)[j] in c.value)
                && modCount == old(modCount) + (|old(Elements)| - |Elements|)
      ensures r == Ok(false) ==> Nodes == old(Nodes)
    {
      if c.None? {
        return Err(NullPointer);
      }
      ghost var s := Elements;
      var modified := RemoveUnless(c.value, false);
      SelectShorter(s, c.value, false);
      return Ok(modified);
    }

    /** Removes every element that does not occur in `c`. */
    method RetainAll(c: Option<seq<T>>) returns (r: Result<bool>)
      requires Valid()
      modifies Repr
      ensures Valid() && Repr <= old(Repr)
      ensures c.None? ==> r == Err(NullPointer) && unchanged(this)
      ensures c.Some? ==>
                Elements == Select(old(Elements), c.value, true)
                && r == Ok(exists j :: 0 <= j < |old(Elements)| && old(Elements)[j] !in c.value)
                && modCount == old(modCount) + (|old(Elements)| - |Elements|)
      ensures r == Ok(false) ==> Nodes == old(Nodes)
    {
      if c.None? {
        return Err(NullPointer);
      }
      ghost var s := Elements;
      var modified := RemoveUnless(c.value, true);
      SelectShorter(s, c.value, true);
      return Ok(modified);
    }
  }

  /** The fail-fast iterator. `next` is the node the next call to `Next`
      returns, `nextIndex` its position, `lastReturned` the node the last
      call returned (null once it has been removed), and `expectedModCount`
      the list's `modCount` as the iterator last saw it. */
  class Itr<T(==)> {
    const list: SimpleLinkedList<T>
    var next: Node?<T>
    var lastReturned: Node?<T>
    var nextIndex: int
    var expectedModCount: int

    /** The cursor fields describe a position in the list as it is now. */
    ghost predicate InSync()
      reads this, list
    {
      0 <= nextIndex <= |list.Nodes|
      && next == (if nextIndex == |list.Nodes| then null else list.Nodes[nextIndex])
      && (lastReturned != null ==> 0 < nextIndex && lastReturned == list.Nodes[nextIndex - 1])
    }

    /** The list has not been changed behind the iterator's back, or else
        its `modCount` has moved past `expectedModCount` for good. */
    ghost predicate Valid()
      reads this, list, list.Repr
    {
      list.Valid() && this !in list.Repr
      && 0 <= nextIndex
      && expectedModCount <= list.modCount
      && (expectedModCount == list.modCount ==> InSync())
    }

    /** The elements a traversal has yet to visit. */
    ghost function Remaining(): seq<T>
      reads this, list
      requires 0 <= nextIndex <= |list.Elements|
    {
      list.Elements[nextIndex..]
    }

    constructor (list: SimpleLinkedList<T>)
      requires list.Valid()
      ensures Valid() && this.list == list
      ensures nextIndex == 0 && lastReturned == null && expectedModCount == list.modCount
    {
      this.list := list;
      next := list.head;
      lastReturned := null;
      nextIndex := 0;
      expectedModCount := list.modCount;
    }

    function HasNext(): (b: bool)
      requires Valid()
      reads this, list, list.Repr
      ensures b <==> nextIndex < |list.Elements|
      ensures expectedModCount == list.modCount ==> (b <==> Remaining() != [])
    {
      nextIndex < list.size
    }

    function CheckForComodification(): (r: Outcome)
      reads this, list
      ensures r.Pass? <==> list.modCount == expectedModCount
      ensures r.Fail? ==> r.error == ConcurrentModification
    {
      if list.modCount != expectedModCount then Fail(ConcurrentModification) else Pass
    }

    /** Returns the next element and moves past it. */
    method Next() returns (r: Result<T>)
      requires Valid()
      modifies this
      ensures Valid()
      ensures old(expectedModCount) != list.modCount ==>
                r == Err(ConcurrentModification) && unchanged(this)
      ensures old(expectedModCount) == list.modCount && old(nextIndex) >= |list.Elements| ==>
                r == Err(NoSuchElement) && unchanged(this)
      ensures old(expectedModCount) == list.modCount && old(nextIndex) < |list.Elements| ==>
                nextIndex == old(nextIndex) + 1
                && r.Ok? && r.value == list.Elements[old(nextIndex)]
                && old(Remaining()) == [r.value] + Remaining() && lastReturned != null
                && expectedModCount == list.modCount
    {
      // checkForComodification()
      if list.modCount != expectedModCount {
        return Err(ConcurrentModification);
      }
      if !HasNext() {
        return Err(NoSuchElement);
      }
      assert list.Linked(nextIndex);
      lastReturned := next;
      next := next.next;
      nextIndex := nextIndex + 1;
      return Ok(lastReturned.item);
    }

    /** Removes from the list the element the last `Next` returned, and
        resynchronises so that the traversal carries on with the element
        after it. */
    method Remove() returns (r: Outcome)
      requires Valid()
      modifies this, list.Repr
      ensures Valid()
      ensures old(lastReturned) == null ==>
                r == Fail(IllegalState) && unchanged(this) && unchanged(list)
      ensures old(lastReturned) != null && old(expectedModCount) != old(list.modCount) ==>
                r == Fail(ConcurrentModification) && unchanged(this) && unchanged(list)
      ensures old(lastReturned) != null && old(expectedModCount) == old(list.modCount) ==>
                r == Pass
                && list.Elements == Removed(old(list.Elements), old(nextIndex) - 1)
                && nextIndex == old(nextIndex) - 1 && Remaining() == old(Remaining())
                && lastReturned == null
                && list.modCount == old(list.modCount) + 1 && expectedModCount == list.modCount
                && list.Repr == old(list.Repr) - {old(lastReturned)}
    {
      if lastReturned == null {
        return Fail(IllegalState);
      }
      // checkForComodification()
      if list.modCount != expectedModCount {
        return Fail(ConcurrentModification);
      }
      r := Pass;
      assert list.Linked(nextIndex - 1);
      var _ := list.Unlink(lastReturned, nextIndex - 1);
      if next == lastReturned {
        // The source resets `next` here; the cursor always lies past the
        // node it last returned, so this branch is never taken.
        assert false;
      } else {
        nextIndex := nextIndex - 1;
      }
      lastReturned := null;
      expectedModCount := list.modCount;
    }
  }
}
