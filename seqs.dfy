/** Sequence helpers for ordered child lists: lookup, deletion, insertion and
    the "next element" relation, over lists without duplicates. */
module Seqs {

  datatype Option<+T> = None | Some(value: T)

  /** No element occurs twice (a DOM child list never holds a node twice). */
  predicate Distinct<T(==)>(s: seq<T>) {
    forall i, j | 0 <= i < j < |s| :: s[i] != s[j]
  }

  /** Position of the first occurrence of `x`. */
  function IndexOf<T(==)>(s: seq<T>, x: T): (i: nat)
    requires x in s
    ensures i < |s| && s[i] == x
    ensures forall k | 0 <= k < i :: s[k] != x
  {
    if s[0] == x then 0 else 1 + IndexOf(s[1..], x)
  }

  lemma IndexOfAt<T>(s: seq<T>, k: nat)
    requires Distinct(s) && k < |s|
    ensures IndexOf(s, s[k]) == k
  {
  }

  /** `s` with its first occurrence of `x` taken out. */
  function Delete<T(==)>(s: seq<T>, x: T): seq<T> {
    if x in s then s[..IndexOf(s, x)] + s[IndexOf(s, x) + 1..] else s
  }

  /** `s` with `x` placed at position `i`. */
  function Insert<T>(s: seq<T>, i: nat, x: T): seq<T>
    requires i <= |s|
  {
    s[..i] + [x] + s[i..]
  }

  /** The element right after `x`, if `x` occurs and is not last. */
  function Next<T(==)>(s: seq<T>, x: T): Option<T> {
    if x in s && IndexOf(s, x) + 1 < |s| then Some(s[IndexOf(s, x) + 1]) else None
  }

  function Last<T>(s: seq<T>): Option<T> {
    if |s| == 0 then None else Some(s[|s| - 1])
  }

  function First<T>(s: seq<T>): Option<T> {
    if |s| == 0 then None else Some(s[0])
  }

  lemma DeleteAt<T>(s: seq<T>, x: T)
    requires x in s
    ensures |Delete(s, x)| == |s| - 1
    ensures forall k | 0 <= k < |s| - 1 ::
      Delete(s, x)[k] == if k < IndexOf(s, x) then s[k] else s[k + 1]
  {
    var i := IndexOf(s, x);
    assert Delete(s, x) == s[..i] + s[i + 1..];
  }

  lemma DeleteMembers<T>(s: seq<T>, x: T)
    requires Distinct(s)
    ensures Distinct(Delete(s, x))
    ensures x !in Delete(s, x)
    ensures forall y :: y in Delete(s, x) <==> y in s && y != x
  {
    if x in s {
      var i := IndexOf(s, x);
      var d := Delete(s, x);
      DeleteAt(s, x);
      forall y | y in s && y != x
        ensures y in d
      {
        var k := IndexOf(s, y);
        assert d[if k < i then k else k - 1] == y;
      }
      forall y | y in d
        ensures y in s && y != x
      {
        var k :| 0 <= k < |d| && d[k] == y;
      }
    }
  }

  lemma InsertMembers<T>(s: seq<T>, i: nat, x: T)
    requires Distinct(s) && x !in s && i <= |s|
    ensures Distinct(Insert(s, i, x))
    ensures forall y :: y in Insert(s, i, x) <==> y in s || y == x
  {
    var r := Insert(s, i, x);
    assert forall k | 0 <= k < |r| :: r[k] == if k < i then s[k] else if k == i then x else s[k - 1];
    forall y | y in s
      ensures y in r
    {
      var k := IndexOf(s, y);
      assert r[if k < i then k else k + 1] == y;
    }
  }

  /** Deleting an element that does not occur changes nothing. */
  lemma DeleteAbsent<T>(s: seq<T>, x: T)
    requires x !in s
    ensures Delete(s, x) == s
  {
  }

  /** Taking out an element just put in gives back the list it was put into. */
  lemma DeleteInsert<T>(s: seq<T>, i: nat, x: T)
    requires x !in s && i <= |s|
    ensures Delete(Insert(s, i, x), x) == s
  {
    var r := Insert(s, i, x);
    assert r[..i] == s[..i] && r[i] == x && r[i + 1..] == s[i..];
    assert x !in r[..i];
    assert IndexOf(r, x) == i;
    assert s[..i] + s[i..] == s;
  }

  /** A list is its element `x` put back, at `x`'s own index, into the list
      without `x`; and `x`'s successor is the element found at that index. */
  lemma Split<T>(s: seq<T>, x: T)
    requires Distinct(s) && x in s
    ensures IndexOf(s, x) <= |Delete(s, x)|
    ensures s == Insert(Delete(s, x), IndexOf(s, x), x)
    ensures Next(s, x) == if IndexOf(s, x) < |Delete(s, x)| then Some(Delete(s, x)[IndexOf(s, x)]) else None
  {
    var i := IndexOf(s, x);
    var d := Delete(s, x);
    assert d[..i] == s[..i];
    assert d[i..] == s[i + 1..];
  }

  /** The successor of `x` right after `x` has been put at index `i`. */
  lemma NextOfInserted<T>(s: seq<T>, i: nat, x: T)
    requires Distinct(s) && x !in s && i <= |s|
    ensures Next(Insert(s, i, x), x) == if i < |s| then Some(s[i]) else None
  {
    var r := Insert(s, i, x);
    assert r[i] == x;
    assert IndexOf(r, x) == i;
  }

  /** After deleting `x`, an element that preceded `x` is followed by what
      followed `x`; the successor of any other element is unchanged. */
  lemma NextAfterDelete<T>(s: seq<T>, x: T, a: T)
    requires Distinct(s) && a in s && a != x
    ensures Next(Delete(s, x), a) == if Next(s, a) == Some(x) then Next(s, x) else Next(s, a)
  {
    if x in s {
      if IndexOf(s, a) < IndexOf(s, x) {
        NextDeletedBefore(s, x, a);
      } else {
        NextDeletedAfter(s, x, a);
      }
    }
  }

  /** The case of `NextAfterDelete` where `a` comes before `x`. */
  lemma NextDeletedBefore<T>(s: seq<T>, x: T, a: T)
    requires Distinct(s) && x in s && a in s && a != x && IndexOf(s, a) < IndexOf(s, x)
    ensures Next(Delete(s, x), a) == if Next(s, a) == Some(x) then Next(s, x) else Next(s, a)
  {
    var i, k, d := IndexOf(s, x), IndexOf(s, a), Delete(s, x);
    DeleteMembers(s, x);
    DeleteAt(s, x);
    assert d[k] == a;
    IndexOfAt(d, k);
    if k + 1 == i {
      assert Next(s, a) == Some(x);
      if i + 1 < |s| {
        assert d[k + 1] == s[i + 1];
      }
    } else {
      assert d[k + 1] == s[k + 1];
    }
  }

  /** The case of `NextAfterDelete` where `a` comes after `x`. */
  lemma NextDeletedAfter<T>(s: seq<T>, x: T, a: T)
    requires Distinct(s) && x in s && a in s && a != x && IndexOf(s, a) > IndexOf(s, x)
    ensures Next(Delete(s, x), a) == Next(s, a)
  {
    var k, d := IndexOf(s, a), Delete(s, x);
    DeleteMembers(s, x);
    DeleteAt(s, x);
    assert d[k - 1] == a;
    IndexOfAt(d, k - 1);
    IndexOfAt(s, k);
    if k + 1 < |s| {
      assert d[k] == s[k + 1];
    }
  }

  /** In a list holding `x` and `a`, if `x` sits where the successor of `a`
      would be once `x` is taken out, then `x` directly follows `a`. */
  lemma NextIsInserted<T>(s: seq<T>, x: T, a: T)
    requires Distinct(s) && x in s && a in s && a != x
    requires Next(Delete(s, x), a) == Next(s, x)
    ensures Next(s, a) == Some(x)
  {
    var i := IndexOf(s, x);
    var d := Delete(s, x);
    Split(s, x);
    DeleteMembers(s, x);
    var k := IndexOf(d, a);
    if i < |d| {
      assert d[k + 1] == d[i];
    }
    assert k + 1 == i;
    assert s[k] == d[k];
    IndexOfAt(s, k);
  }

  /** Two lists without duplicates that both hold `x`, agree once `x` is taken
      out and give `x` the same successor are the same list. */
  lemma DeterminedByNext<T>(s: seq<T>, t: seq<T>, x: T)
    requires Distinct(s) && Distinct(t) && x in s && x in t
    requires Delete(s, x) == Delete(t, x) && Next(s, x) == Next(t, x)
    ensures s == t
  {
    Split(s, x);
    Split(t, x);
    DeleteMembers(s, x);
  }

  /** A list whose element `x` has no successor ends with `x`; one whose `x`
      is followed by the head of the rest starts with `x`. */
  lemma EndsOrStartsWith<T>(s: seq<T>, x: T)
    requires Distinct(s) && x in s
    ensures Next(s, x) == None ==> Last(s) == Some(x)
    ensures Next(s, x) == First(Delete(s, x)) ==> First(s) == Some(x)
  {
    Split(s, x);
    DeleteMembers(s, x);
  }

  /** Appending `y` makes it the successor of the element that was last,
      and of no other. */
  lemma NextAppended<T>(s: seq<T>, y: T, a: T)
    requires a in s
    ensures Next(s + [y], a) == if Next(s, a).None? then Some(y) else Next(s, a)
  {
    var i := IndexOf(s, a);
    assert (s + [y])[i] == a;
    assert IndexOf(s + [y], a) == i;
  }

  /** After deleting `x`, the head is what followed `x` if `x` was the head,
      and the old head otherwise. */
  lemma FirstAfterDelete<T>(s: seq<T>, x: T)
    requires Distinct(s)
    ensures First(Delete(s, x)) == if First(s) == Some(x) then Next(s, x) else First(s)
  {
    if x in s {
      DeleteAt(s, x);
      if s[0] == x {
        assert IndexOf(s, x) == 0;
      }
    }
  }
}
