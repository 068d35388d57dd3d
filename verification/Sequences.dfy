/** Sequences without repetitions, as the contents of linked lists. */
module Sequences {

  function Inserted<T>(r: seq<T>, k: nat, x: T): (q: seq<T>)
    requires k <= |r|
    ensures |q| == |r| + 1
    ensures forall i {:trigger q[i]} :: 0 <= i < |q| ==> q[i] == if i < k then r[i] else if i == k then x else r[i - 1]
  {
    r[..k] + [x] + r[k..]
  }

  function Removed<T>(r: seq<T>, k: nat): (q: seq<T>)
    requires k < |r|
    ensures |q| == |r| - 1
    ensures forall i {:trigger q[i]} :: 0 <= i < |q| ==> q[i] == if i < k then r[i] else r[i + 1]
  {
    r[..k] + r[k + 1..]
  }

  ghost predicate Distinct<T>(s: seq<T>) {
    forall i, j :: 0 <= i < j < |s| ==> s[i] != s[j]
  }

  function IndexOf<T(==)>(s: seq<T>, x: T): (k: nat)
    requires x in s
    ensures k < |s| && s[k] == x
  {
    if s[0] == x then 0 else 1 + IndexOf(s[1..], x)
  }

  function Without<T(==)>(s: seq<T>, x: T): (q: seq<T>) {
    if x in s then Removed(s, IndexOf(s, x)) else s
  }

  lemma WithoutMembers<T>(s: seq<T>, x: T)
    requires Distinct(s)
    ensures Distinct(Without(s, x))
    ensures forall y :: y in Without(s, x) <==> y in s && y != x
    ensures |Without(s, x)| == |s| - (if x in s then 1 else 0)
  {
    var q := Without(s, x);
    if x in s {
      var k := IndexOf(s, x);
      forall y | y in s && y != x ensures y in q {
        var i :| 0 <= i < |s| && s[i] == y;
        assert q[if i < k then i else i - 1] == y;
      }
    }
  }

  lemma InsertedMembers<T>(s: seq<T>, k: nat, x: T)
    requires Distinct(s) && k <= |s| && x !in s
    ensures Distinct(Inserted(s, k, x))
    ensures forall y :: y in Inserted(s, k, x) <==> y in s || y == x
  {
    var q := Inserted(s, k, x);
    assert q[k] == x;
    forall y | y in s ensures y in q {
      var i :| 0 <= i < |s| && s[i] == y;
      assert q[if i < k then i else i + 1] == y;
    }
  }

  /** Behind a head `h`, removing `x` from the whole and from the rest is the same. */
  lemma HeadedWithout<T>(h: T, s: seq<T>, x: T)
    requires x in s && x != h
    ensures Without([h] + s, x) == [h] + Without(s, x)
  {
    assert ([h] + s)[1..] == s;
  }

  lemma HeadedInserted<T>(h: T, s: seq<T>, k: nat, x: T)
    requires k <= |s|
    ensures Inserted([h] + s, k + 1, x) == [h] + Inserted(s, k, x)
  {
  }

  lemma InsertedLast<T>(s: seq<T>, x: T)
    requires Distinct(s) && x !in s
    ensures Distinct(s + [x])
    ensures forall y :: y in s + [x] <==> y in s || y == x
  {
  }

  lemma RemovedAt<T>(s: seq<T>, k: nat)
    requires Distinct(s) && k < |s|
    ensures Distinct(Removed(s, k))
    ensures forall y :: y in Removed(s, k) <==> y in s && y != s[k]
  {
    var q := Removed(s, k);
    forall y | y in s && y != s[k] ensures y in q {
      var i :| 0 <= i < |s| && s[i] == y;
      assert q[if i < k then i else i - 1] == y;
    }
  }
}
