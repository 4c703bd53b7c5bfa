/** The abstract meaning of the list operations, on the sequence of elements
    the list holds. The linked implementation in module Collections is proved
    against these functions. */
module ListSpec {

  /** `s` with `x` inserted at position `i`: what `add(i, x)` leaves. */
  function Inserted<T>(s: seq<T>, i: int, x: T): (r: seq<T>)
    requires 0 <= i <= |s|
    ensures |r| == |s| + 1 && r[i] == x
    ensures forall j :: 0 <= j < i ==> r[j] == s[j]
    ensures forall j :: i < j < |r| ==> r[j] == s[j - 1]
  {
    s[..i] + [x] + s[i..]
  }

  /** `s` without its element at position `i`: what `remove(i)` leaves. */
  function Removed<T>(s: seq<T>, i: int): (r: seq<T>)
    requires 0 <= i < |s|
    ensures |r| == |s| - 1
    ensures forall j :: 0 <= j < i ==> r[j] == s[j]
    ensures forall j :: i <= j < |r| ==> r[j] == s[j + 1]
  {
    s[..i] + s[i + 1..]
  }

  /** Removing what was just inserted at `i` restores the sequence. */
  lemma RemovedInserted<T>(s: seq<T>, i: int, x: T)
    requires 0 <= i <= |s|
    ensures Removed(Inserted(s, i, x), i) == s
  {
  }

  /** Re-inserting the removed element at its position restores the sequence. */
  lemma InsertedRemoved<T>(s: seq<T>, i: int)
    requires 0 <= i < |s|
    ensures Inserted(Removed(s, i), i, s[i]) == s
  {
  }

  /** One more element of `c` inserted just after the part of `c` already
      spliced in at `i` extends the splice by that element: the step of
      `addAll(index, c)`, which inserts the elements of `c` one by one. */
  lemma InsertedIntoSplice<T>(s: seq<T>, i: int, c: seq<T>, k: int)
    requires 0 <= i <= |s| && 0 <= k < |c|
    ensures Inserted(s[..i] + c[..k] + s[i..], i + k, c[k]) == s[..i] + c[..k + 1] + s[i..]
  {
  }

  /** The lowest position holding `x`, or -1 when there is none: the result
      of `indexOf`. */
  function FirstIndex<T(==)>(s: seq<T>, x: T): (r: int)
    ensures -1 <= r < |s|
    ensures r == -1 <==> x !in s
    ensures 0 <= r ==> s[r] == x && forall j :: 0 <= j < r ==> s[j] != x
  {
    if s == [] then -1
    else if s[0] == x then 0
    else
      var r := FirstIndex(s[1..], x);
      if r == -1 then -1 else r + 1
  }

  /** The highest position holding `x`, or -1 when there is none: the result
      of `lastIndexOf`. */
  function LastIndex<T(==)>(s: seq<T>, x: T): (r: int)
    ensures -1 <= r < |s|
    ensures r == -1 <==> x !in s
    ensures 0 <= r ==> s[r] == x && forall j :: r < j < |s| ==> s[j] != x
  {
    if s == [] then -1
    else if s[|s| - 1] == x then |s| - 1
    else
      var r := LastIndex(s[..|s| - 1], x);
      assert s == s[..|s| - 1] + [s[|s| - 1]];
      r
  }

  /** The elements `y` of `s`, in their order, for which `y in c` equals
      `member`: what `retainAll(c)` (member) and `removeAll(c)` (not member)
      leave. */
  function Select<T(==)>(s: seq<T>, c: seq<T>, member: bool): (r: seq<T>)
    ensures |r| <= |s|
    ensures forall i :: 0 <= i < |r| ==> (r[i] in c) == member
  {
    if s == [] then []
    else
      var init := Select(s[..|s| - 1], c, member);
      var last := s[|s| - 1];
      assert s == s[..|s| - 1] + [last];
      if (last in c) == member then init + [last] else init
  }

  /** `Select` keeps exactly the elements that pass, as many times as they
      occur in `s`, and drops the others. */
  lemma {:induction false} SelectCount<T>(s: seq<T>, c: seq<T>, member: bool, x: T)
    ensures multiset(Select(s, c, member))[x] ==
              if (x in c) == member then multiset(s)[x] else 0
  {
    if s != [] {
      var init := s[..|s| - 1];
      SelectCount(init, c, member, x);
      assert s == init + [s[|s| - 1]];
    }
  }

  /** Selecting from one more element: the step of the iterator loop in
      `removeAll`/`retainAll`. */
  lemma SelectPrefix<T>(s: seq<T>, c: seq<T>, member: bool, k: int)
    requires 0 <= k < |s|
    ensures Select(s[..k + 1], c, member) ==
              Select(s[..k], c, member) + (if (s[k] in c) == member then [s[k]] else [])
  {
    assert s[..k + 1][..k] == s[..k];
  }

  /** The sequence a filtering walk over `s` has left once it has examined
      the first `k` elements: the ones it kept, then the ones still ahead. */
  function Filtered<T(==)>(s: seq<T>, c: seq<T>, member: bool, k: int): (r: seq<T>)
    requires 0 <= k <= |s|
    ensures |r| == |Select(s[..k], c, member)| + (|s| - k)
    ensures k == |s| ==> r == Select(s, c, member)
  {
    assert s[..|s|] == s;
    Select(s[..k], c, member) + s[k..]
  }

  /** One round of the filtering walk over `t`, the list after the first `k`
      elements of `s` have been examined: the element at the walk's position
      `n` is `s[k]`, and keeping it (it passes) or removing it (it does not)
      gives the list after `k + 1` elements. */
  lemma SelectStep<T>(s: seq<T>, c: seq<T>, member: bool, k: int)
    requires 0 <= k < |s|
    ensures var t, n := Filtered(s, c, member, k), |Select(s[..k], c, member)|;
              n < |t| && t[n] == s[k]
              && ((s[k] in c) == member ==>
                    Filtered(s, c, member, k + 1) == t
                    && |Select(s[..k + 1], c, member)| == n + 1)
              && ((s[k] in c) != member ==>
                    Filtered(s, c, member, k + 1) == Removed(t, n)
                    && |Select(s[..k + 1], c, member)| == n)
  {
    SelectPrefix(s, c, member, k);
    var done := Select(s[..k], c, member);
    assert s[k..] == [s[k]] + s[k + 1..];
    if (s[k] in c) != member {
      assert Removed(done + s[k..], |done|) == done + s[k + 1..];
    }
  }

  /** Selecting drops something exactly when some element fails: the
      `modified` answer of `removeAll` and `retainAll`. */
  lemma {:induction false} SelectShorter<T>(s: seq<T>, c: seq<T>, member: bool)
    ensures |Select(s, c, member)| < |s| <==>
              exists i :: 0 <= i < |s| && (s[i] in c) != member
  {
    if s != [] {
      var init := s[..|s| - 1];
      SelectShorter(init, c, member);
      if (s[|s| - 1] in c) == member {
        if exists i :: 0 <= i < |s| && (s[i] in c) != member {
          var i :| 0 <= i < |s| && (s[i] in c) != member;
          assert init[i] == s[i];
        }
      } else {
        assert (s[|s| - 1] in c) != member;
      }
    }
  }

  /** Selecting changes nothing exactly when every element already passes. */
  lemma {:induction false} SelectIdentity<T>(s: seq<T>, c: seq<T>, member: bool)
    ensures Select(s, c, member) == s <==>
              forall i :: 0 <= i < |s| ==> (s[i] in c) == member
  {
    if s != [] {
      var init := s[..|s| - 1];
      SelectIdentity(init, c, member);
      if (s[|s| - 1] in c) == member {
        assert s == init + [s[|s| - 1]];
        if Select(s, c, member) == s {
          assert Select(init, c, member) == init;
        } else {
          assert exists i :: 0 <= i < |init| && (init[i] in c) != member;
        }
      } else {
        assert |Select(init, c, member)| <= |init| < |s|;
      }
    }
  }

  /** Selecting twice with the same collection is selecting once:
      `removeAll(c)` (or `retainAll(c)`) repeated removes nothing more. */
  lemma SelectIdempotent<T>(s: seq<T>, c: seq<T>, member: bool)
    ensures Select(Select(s, c, member), c, member) == Select(s, c, member)
  {
  }

  /** `retainAll(c)` and `removeAll(c)` split the elements between them:
      together they keep every element, with its multiplicity. */
  lemma {:induction false} SelectPartition<T>(s: seq<T>, c: seq<T>)
    ensures multiset(Select(s, c, true)) + multiset(Select(s, c, false)) == multiset(s)
  {
    if s != [] {
      var init := s[..|s| - 1];
      SelectPartition(init, c);
      assert s == init + [s[|s| - 1]];
    }
  }
}
