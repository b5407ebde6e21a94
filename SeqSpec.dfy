/** Reference definitions on sequences, used to state what the list operations compute. */
module SeqSpec {

  /** The first index holding `v`, or -1 when `v` does not occur. */
  function FirstIndex<T(==)>(s: seq<T>, v: T): (r: int)
    ensures -1 <= r < |s|
    ensures r == -1 <==> v !in s
    ensures r >= 0 ==> s[r] == v && forall j :: 0 <= j < r ==> s[j] != v
  {
    if s == [] then -1
    else if s[0] == v then 0
    else
      var r := FirstIndex(s[1..], v);
      if r == -1 then -1 else r + 1
  }

  /** `s` without its element at index `i`. */
  function RemoveAt<T>(s: seq<T>, i: nat): (r: seq<T>)
    requires i < |s|
    ensures |r| == |s| - 1
  {
    assert s == s[..i] + [s[i]] + s[i + 1..];
    s[..i] + s[i + 1..]
  }

  /** `r` is `s` without its element at index `i`, stated position by position. */
  ghost predicate IsRemoved<T>(s: seq<T>, i: int, r: seq<T>)
  {
    && 0 <= i < |s| && |r| == |s| - 1
    && (forall k {:trigger r[k]} :: 0 <= k < i ==> r[k] == s[k])
    && (forall k :: i <= k < |r| ==> r[k] == s[k + 1])
  }

  lemma RemoveAtIs<T>(s: seq<T>, i: nat)
    requires i < |s|
    ensures IsRemoved(s, i, RemoveAt(s, i))
  {
    var r := RemoveAt(s, i);
    assert r == s[..i] + s[i + 1..];
    forall k | i <= k < |r|
      ensures r[k] == s[k + 1]
    {
      assert r[k] == s[i + 1..][k - i];
    }
  }

  /** Removing one element keeps every element that differs from it, and adds none. */
  lemma RemovedMembers<T>(s: seq<T>, i: int, r: seq<T>)
    requires IsRemoved(s, i, r)
    ensures forall y :: y in r ==> y in s
    ensures forall y :: y in s && y != s[i] ==> y in r
  {
    forall y | y in r
      ensures y in s
    {
      var k :| 0 <= k < |r| && r[k] == y;
      if k >= i {
        assert s[k + 1] == y;
      }
    }
    forall y | y in s && y != s[i]
      ensures y in r
    {
      var k :| 0 <= k < |s| && s[k] == y;
      if k > i {
        assert r[k - 1] == y;
      } else if k < i {
        assert r[k] == y;
      }
    }
  }

  /** `s` with `x` inserted at index `i`. */
  function Inserted<T>(s: seq<T>, i: nat, x: T): (r: seq<T>)
    requires i <= |s|
    ensures |r| == |s| + 1
  {
    s[..i] + [x] + s[i..]
  }

  /** `r` is `s` with `x` inserted at index `i`, stated position by position. */
  ghost predicate IsInserted<T>(s: seq<T>, i: int, x: T, r: seq<T>)
  {
    && 0 <= i <= |s| && |r| == |s| + 1
    && (forall k {:trigger r[k]} :: 0 <= k < i ==> r[k] == s[k])
    && r[i] == x
    && (forall k :: i < k < |r| ==> r[k] == s[k - 1])
  }

  lemma InsertedIs<T>(s: seq<T>, i: nat, x: T)
    requires i <= |s|
    ensures IsInserted(s, i, x, Inserted(s, i, x))
  {
    var r := Inserted(s, i, x);
    forall k | i < k < |r|
      ensures r[k] == s[k - 1]
    {
      assert r[k] == s[i..][k - 1 - i];
    }
  }

  /** Inserting `x` adds `x` and keeps every element. */
  lemma InsertedMembers<T>(s: seq<T>, i: int, x: T, r: seq<T>)
    requires IsInserted(s, i, x, r)
    ensures forall y :: y in r <==> y in s || y == x
  {
    forall y | y in r
      ensures y in s || y == x
    {
      var k :| 0 <= k < |r| && r[k] == y;
      if k > i {
        assert s[k - 1] == y;
      }
    }
    forall y | y in s
      ensures y in r
    {
      var k :| 0 <= k < |s| && s[k] == y;
      if k >= i {
        assert r[k + 1] == y;
      } else {
        assert r[k] == y;
      }
    }
  }

  /** `s` with every occurrence of `x` dropped. */
  function Without<T(==)>(s: seq<T>, x: T): seq<T>
  {
    if s == [] then []
    else (if s[0] == x then [] else [s[0]]) + Without(s[1..], x)
  }

  /** `Without(s, x)` holds the elements of `s` other than `x`, and only those. */
  lemma {:induction false} WithoutMembers<T>(s: seq<T>, x: T)
    ensures forall y :: y in Without(s, x) <==> y in s && y != x
    ensures |Without(s, x)| <= |s|
  {
    if s != [] {
      WithoutMembers(s[1..], x);
      assert s == [s[0]] + s[1..];
    }
  }

  lemma {:induction false} WithoutAppend<T>(a: seq<T>, c: seq<T>, x: T)
    ensures Without(a + c, x) == Without(a, x) + Without(c, x)
  {
    if a == [] {
      assert a + c == c;
    } else {
      assert (a + c)[0] == a[0] && (a + c)[1..] == a[1..] + c;
      WithoutAppend(a[1..], c, x);
    }
  }

  lemma {:induction false} WithoutAbsent<T>(s: seq<T>, x: T)
    requires x !in s
    ensures Without(s, x) == s
  {
    if s != [] {
      assert s[0] != x && x !in s[1..];
      WithoutAbsent(s[1..], x);
      assert s == [s[0]] + s[1..];
    }
  }

  /** Inserting a new element and then dropping it gives back the original sequence. */
  lemma InsertedWithout<T>(s: seq<T>, i: nat, x: T)
    requires i <= |s| && x !in s
    ensures Without(Inserted(s, i, x), x) == s
  {
    assert x !in s[..i] && x !in s[i..] && s == s[..i] + s[i..];
    WithoutAppend(s[..i] + [x], s[i..], x);
    WithoutAppend(s[..i], [x], x);
    WithoutAbsent(s[..i], x);
    WithoutAbsent(s[i..], x);
    assert Without([x], x) == [] + Without([], x);
  }

  /** Removing the only occurrence of an element is dropping that element. */
  lemma RemoveAtWithout<T>(s: seq<T>, i: nat)
    requires i < |s| && forall j :: 0 <= j < |s| && j != i ==> s[j] != s[i]
    ensures Without(s, s[i]) == RemoveAt(s, i)
  {
    var x, a, c := s[i], s[..i], s[i + 1..];
    forall j | 0 <= j < |a|
      ensures a[j] != x
    {
      assert a[j] == s[j];
    }
    forall j | 0 <= j < |c|
      ensures c[j] != x
    {
      assert c[j] == s[i + 1 + j];
    }
    assert s == (a + [x]) + c;
    WithoutAppend(a + [x], c, x);
    WithoutAppend(a, [x], x);
    WithoutAbsent(a, x);
    WithoutAbsent(c, x);
    assert Without([x], x) == [];
    assert Without(a + [x], x) == a;
    assert RemoveAt(s, i) == a + c;
  }

  /** `s` in the opposite order. */
  function Reversed<T>(s: seq<T>): (r: seq<T>)
    ensures |r| == |s|
  {
    if s == [] then [] else Reversed(s[1..]) + [s[0]]
  }

  /** Position `k` of the reversal holds the element `k` places from the end. */
  lemma {:induction false} ReversedAt<T>(s: seq<T>)
    ensures forall k :: 0 <= k < |s| ==> Reversed(s)[k] == s[|s| - 1 - k]
  {
    if s != [] {
      ReversedAt(s[1..]);
    }
  }

  /** Reversing twice gives back the original sequence. */
  lemma ReversedReversed<T>(s: seq<T>)
    ensures Reversed(Reversed(s)) == s
  {
    ReversedAt(s);
    ReversedAt(Reversed(s));
  }

  /** Removing an element takes exactly one occurrence of it out of the multiset. */
  lemma RemoveAtMultiset<T>(s: seq<T>, i: nat)
    requires i < |s|
    ensures multiset(RemoveAt(s, i)) + multiset{s[i]} == multiset(s)
  {
    assert s == s[..i] + [s[i]] + s[i + 1..];
  }

  /** `s` with the elements at `i` and `j` exchanged. */
  function Swapped<T>(s: seq<T>, i: nat, j: nat): (r: seq<T>)
    requires i < |s| && j < |s|
    ensures |r| == |s| && r[i] == s[j] && r[j] == s[i]
    ensures forall k :: 0 <= k < |s| && k != i && k != j ==> r[k] == s[k]
    ensures multiset(r) == multiset(s)
  {
    s[i := s[j]][j := s[i]]
  }
}
