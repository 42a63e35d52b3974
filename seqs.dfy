/**
 * The `java.util.ArrayList` operations the list registry relies on, as
 * functions on sequences, together with the facts about them that its
 * invariant needs.
 */
module Seqs {

  /** No element occurs twice. */
  predicate Distinct<X(==)>(s: seq<X>)
  {
    forall i, j :: 0 <= i < j < |s| ==> s[i] != s[j]
  }

  /** The elements of a sequence as a set. */
  function Elements<X>(s: seq<X>): set<X>
  {
    set x | x in s
  }

  /** `ArrayList.indexOf`: the first position holding `x`, or -1. */
  function IndexOf<X(==)>(s: seq<X>, x: X): (i: int)
    ensures i == -1 <==> x !in s
    ensures 0 <= i ==> i < |s| && s[i] == x && x !in s[..i]
    ensures -1 <= i
  {
    if s == [] then -1
    else if s[0] == x then 0
    else
      var k := IndexOf(s[1..], x);
      assert s[1..][..if k < 0 then 0 else k] == s[1..if k < 0 then 1 else k + 1];
      if k < 0 then -1 else k + 1
  }

  /** In a sequence without repetitions, the first position of `s[i]` is `i`. */
  lemma IndexOfDistinct<X>(s: seq<X>, i: nat)
    requires Distinct(s) && i < |s|
    ensures IndexOf(s, s[i]) == i
  {
  }

  /** `ArrayList.remove(Object)`: drop the first occurrence of `x`, if any. */
  function RemoveFirst<X(==)>(s: seq<X>, x: X): (r: seq<X>)
    ensures x !in s ==> r == s
    ensures x in s ==> |r| == |s| - 1
    ensures multiset(r) == multiset(s) - multiset{x}
  {
    var i := IndexOf(s, x);
    if i < 0 then s
    else
      assert s == s[..i] + [s[i]] + s[i + 1..];
      s[..i] + s[i + 1..]
  }

  /** `ArrayList.add(int, E)`: `x` lands at position `i`, later elements move one place right. */
  function InsertAt<X>(s: seq<X>, i: nat, x: X): (r: seq<X>)
    requires i <= |s|
    ensures |r| == |s| + 1 && r[i] == x
    ensures forall j :: 0 <= j < i ==> r[j] == s[j]
    ensures forall j :: i <= j < |s| ==> r[j + 1] == s[j]
  {
    s[..i] + [x] + s[i..]
  }

  /** Dropping position `i` of a sequence without repetitions keeps it free of repetitions. */
  lemma DropDistinct<X>(s: seq<X>, i: nat)
    requires Distinct(s) && i < |s|
    ensures Distinct(s[..i] + s[i + 1..])
  {
    var r := s[..i] + s[i + 1..];
    forall a, b | 0 <= a < b < |r| ensures r[a] != r[b] {
      var a' := if a < i then a else a + 1;
      var b' := if b < i then b else b + 1;
      assert r[a] == s[a'] && r[b] == s[b'];
    }
  }

  /** Dropping position `i` removes exactly the element `s[i]` when it occurs nowhere else. */
  lemma DropElements<X>(s: seq<X>, i: nat)
    requires Distinct(s) && i < |s|
    ensures Elements(s[..i] + s[i + 1..]) == Elements(s) - {s[i]}
  {
    var r := s[..i] + s[i + 1..];
    forall y | y in Elements(s) - {s[i]} ensures y in Elements(r) {
      var k :| 0 <= k < |s| && s[k] == y;
      assert k != i;
      assert r[if k < i then k else k - 1] == y;
    }
    forall y | y in Elements(r) ensures y in Elements(s) - {s[i]} {
      var k :| 0 <= k < |r| && r[k] == y;
      var k' := if k < i then k else k + 1;
      assert s[k'] == y && k' != i;
    }
  }

  /** Removing the first occurrence from a sequence without repetitions removes exactly that element. */
  lemma RemoveFirstDistinct<X>(s: seq<X>, x: X)
    requires Distinct(s)
    ensures Distinct(RemoveFirst(s, x))
    ensures Elements(RemoveFirst(s, x)) == Elements(s) - {x}
  {
    var i := IndexOf(s, x);
    if i >= 0 {
      DropDistinct(s, i);
      DropElements(s, i);
    } else {
      assert x !in Elements(s);
    }
  }

  /** The same fact stated element by element. */
  lemma RemoveFirstMembers<X>(s: seq<X>, x: X)
    requires Distinct(s)
    ensures Distinct(RemoveFirst(s, x))
    ensures forall y :: y in RemoveFirst(s, x) <==> y in s && y != x
  {
    RemoveFirstDistinct(s, x);
    forall y ensures y in RemoveFirst(s, x) <==> y in s && y != x {
      assert y in RemoveFirst(s, x) <==> y in Elements(RemoveFirst(s, x));
      assert y in s <==> y in Elements(s);
    }
  }

  /** A subset is no larger than its superset. */
  lemma {:induction false} SubsetCardinality<X>(a: set<X>, b: set<X>)
    requires a <= b
    ensures |a| <= |b|
  {
    if a != {} {
      var x :| x in a;
      SubsetCardinality(a - {x}, b - {x});
    }
  }

  /** Removing position `i` of a sequence without repetitions is removing the first occurrence of `s[i]`. */
  lemma RemoveFirstAt<X>(s: seq<X>, i: nat)
    requires Distinct(s) && i < |s|
    ensures RemoveFirst(s, s[i]) == s[..i] + s[i + 1..]
  {
    IndexOfDistinct(s, i);
  }

  /** Inserting a new element keeps a sequence free of repetitions and adds exactly that element. */
  lemma InsertAtDistinct<X>(s: seq<X>, i: nat, x: X)
    requires Distinct(s) && i <= |s| && x !in s
    ensures Distinct(InsertAt(s, i, x))
    ensures Elements(InsertAt(s, i, x)) == Elements(s) + {x}
  {
    var r := InsertAt(s, i, x);
    assert r == s[..i] + [x] + s[i..];
    forall a, b | 0 <= a < b < |r| ensures r[a] != r[b] {
      if a == i {
        assert r[b] == s[b - 1];
      } else if b == i {
        assert r[a] == s[a];
      } else {
        var a' := if a < i then a else a - 1;
        var b' := if b < i then b else b - 1;
        assert r[a] == s[a'] && r[b] == s[b'];
      }
    }
  }

  /** Overwriting a position with a new element keeps a sequence free of repetitions. */
  lemma UpdateDistinct<X>(s: seq<X>, i: nat, x: X)
    requires Distinct(s) && i < |s| && x !in s
    ensures Distinct(s[i := x])
    ensures Elements(s[i := x]) == Elements(s) - {s[i]} + {x}
  {
    var r := s[i := x];
    forall y | y in Elements(s) - {s[i]} ensures y in Elements(r) {
      var k :| 0 <= k < |s| && s[k] == y;
      assert r[k] == y;
    }
    forall y | y in Elements(r) ensures y in Elements(s) - {s[i]} + {x} {
      var k :| 0 <= k < |r| && r[k] == y;
      if k != i {
        assert s[k] == y && s[k] != s[i];
      }
    }
    assert r[i] == x;
  }

  /** Appending a new element keeps a sequence free of repetitions. */
  lemma AppendDistinct<X>(s: seq<X>, x: X)
    requires Distinct(s) && x !in s
    ensures Distinct(s + [x])
  {
    var r := s + [x];
    forall a, b | 0 <= a < b < |r| ensures r[a] != r[b] {
      if b == |s| {
        assert r[a] == s[a];
      }
    }
  }

  /** A sequence without repetitions has as many elements as its set. */
  lemma {:induction false} DistinctCardinality<X>(s: seq<X>)
    requires Distinct(s)
    ensures |Elements(s)| == |s|
  {
    if s != [] {
      var t := s[..|s| - 1];
      var last := s[|s| - 1];
      assert s == t + [last];
      assert Distinct(t);
      DistinctCardinality(t);
      assert last !in t;
      assert Elements(s) == Elements(t) + {last};
    }
  }
}
