/** The orders the route planner iterates and sorts by.

    Actor names and node paths are both sequences of numbers (the bytes of a
    string, the child indices of a path), and both are ordered lexicographically
    with a proper prefix before its extensions. */
module Ordering {

  /** A string, as the sequence of its bytes. */
  type Name = seq<nat>

  ghost predicate Distinct(s: seq<Name>) {
    forall i, j :: 0 <= i < j < |s| ==> s[i] != s[j]
  }

  function Elements(s: seq<Name>): set<Name> {
    set x | x in s
  }

  lemma DistinctFromHead(s: seq<Name>)
    requires s != []
    ensures Distinct(s) <==> s[0] !in s[1..] && Distinct(s[1..])
  {
    var tail := s[1..];
    assert forall i :: 0 <= i < |tail| ==> tail[i] == s[i + 1];
    if s[0] !in tail && Distinct(tail) {
      forall i, j | 0 <= i < j < |s| ensures s[i] != s[j] {
        assert s[j] == tail[j - 1];
        assert 0 < i ==> s[i] == tail[i - 1];
      }
    }
  }

  /** A list has as many elements as entries exactly when no entry is repeated. */
  lemma {:induction false} DistinctSize(s: seq<Name>)
    ensures |Elements(s)| <= |s|
    ensures Distinct(s) <==> |Elements(s)| == |s|
  {
    if s != [] {
      var tail := s[1..];
      DistinctSize(tail);
      DistinctFromHead(s);
      assert s == [s[0]] + tail;
      assert Elements(s) == Elements(tail) + {s[0]};
      assert s[0] in tail <==> s[0] in Elements(tail);
    }
  }

  /** The order of an ordered set, and the two orders transition steps are sorted by. */
  datatype Order = Lexicographic | ParentFirst | ChildFirst

  predicate LexLess(a: seq<nat>, b: seq<nat>) {
    if b == [] then false
    else if a == [] then true
    else a[0] < b[0] || (a[0] == b[0] && LexLess(a[1..], b[1..]))
  }

  predicate Before(o: Order, a: seq<nat>, b: seq<nat>) {
    match o
    case Lexicographic => LexLess(a, b)
    case ParentFirst => |a| < |b| || (|a| == |b| && LexLess(a, b))
    case ChildFirst => |b| < |a| || (|a| == |b| && LexLess(a, b))
  }

  lemma {:induction false} LexIrreflexive(a: seq<nat>)
    ensures !LexLess(a, a)
  {
    if a != [] {
      LexIrreflexive(a[1..]);
    }
  }

  lemma {:induction false} LexTransitive(a: seq<nat>, b: seq<nat>, c: seq<nat>)
    requires LexLess(a, b) && LexLess(b, c)
    ensures LexLess(a, c)
  {
    if a != [] && a[0] == b[0] == c[0] {
      LexTransitive(a[1..], b[1..], c[1..]);
    }
  }

  lemma {:induction false} LexConnected(a: seq<nat>, b: seq<nat>)
    ensures a == b || LexLess(a, b) || LexLess(b, a)
  {
    if a != [] && b != [] && a[0] == b[0] {
      LexConnected(a[1..], b[1..]);
      assert a == [a[0]] + a[1..] && b == [b[0]] + b[1..];
    }
  }

  /** Each of the three orders is a strict total order. */
  lemma OrderIsStrictTotal(o: Order)
    ensures forall a :: !Before(o, a, a)
    ensures forall a, b, c :: Before(o, a, b) && Before(o, b, c) ==> Before(o, a, c)
    ensures forall a, b :: a == b || Before(o, a, b) || Before(o, b, a)
  {
    forall a ensures !Before(o, a, a) { LexIrreflexive(a); }
    forall a, b, c | Before(o, a, b) && Before(o, b, c) ensures Before(o, a, c) { BeforeTransitive(o, a, b, c); }
    forall a, b ensures a == b || Before(o, a, b) || Before(o, b, a) { LexConnected(a, b); }
  }

  /** A path that extends `a` and lies after `b`, where `b` lies after `a`, forces
      `b` to extend `a` too: extensions of `a` are contiguous in the order. */
  lemma {:induction false} ExtensionsAreContiguous(a: seq<nat>, b: seq<nat>, c: seq<nat>)
    requires LexLess(a, b) && LexLess(b, c) && a <= c
    ensures a <= b
  {
    if a != [] {
      assert a[1..] <= c[1..];
      if b[0] == c[0] {
        ExtensionsAreContiguous(a[1..], b[1..], c[1..]);
        assert a == [a[0]] + a[1..] && b == [b[0]] + b[1..];
      }
    }
  }

  lemma {:induction false} PrefixIsLess(a: seq<nat>, b: seq<nat>)
    requires a < b
    ensures LexLess(a, b)
  {
    if a != [] {
      assert a[1..] < b[1..];
      PrefixIsLess(a[1..], b[1..]);
    }
  }

  /** The lists agree up to position `k` and differ there, `a` having the smaller number. */
  ghost predicate FirstDifference(a: seq<nat>, b: seq<nat>, k: nat) {
    k < |a| && k < |b| && a[..k] == b[..k] && a[k] < b[k]
  }

  /** One list is before another when it is a proper prefix, or has the smaller number where they first differ. */
  lemma {:induction false} LexByFirstDifference(a: seq<nat>, b: seq<nat>)
    ensures LexLess(a, b) <==> a < b || exists k: nat :: FirstDifference(a, b, k)
  {
    if a != [] && b != [] {
      var s, t := a[1..], b[1..];
      LexByFirstDifference(s, t);
      assert a == [a[0]] + s && b == [b[0]] + t;
      assert a[0] < b[0] ==> FirstDifference(a, b, 0);
      if k: nat :| a[0] == b[0] && FirstDifference(s, t, k) {
        assert a[..k + 1] == [a[0]] + s[..k] && b[..k + 1] == [b[0]] + t[..k];
        assert FirstDifference(a, b, k + 1);
      }
      if k: nat :| 0 < k && FirstDifference(a, b, k) {
        assert a[..k][0] == b[..k][0];
        assert s[..k - 1] == a[..k][1..] == b[..k][1..] == t[..k - 1];
        assert FirstDifference(s, t, k - 1);
      }
    }
  }

  /** A path stands before its extensions, except where children come first. */
  lemma ParentsAndChildren(p: seq<nat>, q: seq<nat>)
    requires p < q
    ensures Before(Lexicographic, p, q) && Before(ParentFirst, p, q) && Before(ChildFirst, q, p)
  {
    PrefixIsLess(p, q);
  }

  lemma BeforeTransitive(o: Order, a: seq<nat>, b: seq<nat>, c: seq<nat>)
    requires Before(o, a, b) && Before(o, b, c)
    ensures Before(o, a, c)
  {
    if LexLess(a, b) && LexLess(b, c) {
      LexTransitive(a, b, c);
    }
  }

  lemma TakeOneMore(s: seq<Name>, k: nat)
    requires k < |s|
    ensures s[..k + 1] == s[..k] + [s[k]]
    ensures forall x :: x in s[..k + 1] <==> x in s[..k] || x == s[k]
  {
  }

  predicate IsFirst(o: Order, s: set<seq<nat>>, x: seq<nat>) {
    x in s && forall y :: y in s && y != x ==> Before(o, x, y)
  }

  lemma {:induction false} FirstExists(o: Order, s: set<seq<nat>>)
    requires s != {}
    ensures exists x :: IsFirst(o, s, x)
  {
    var z :| z in s;
    if s == {z} {
      assert IsFirst(o, s, z);
    } else {
      var rest := s - {z};
      FirstExists(o, rest);
      var x :| IsFirst(o, rest, x);
      LexConnected(x, z);
      if Before(o, x, z) {
        assert IsFirst(o, s, x);
      } else {
        forall y | y in s && y != z ensures Before(o, z, y) {
          if y != x { BeforeTransitive(o, z, x, y); }
        }
        assert IsFirst(o, s, z);
      }
    }
  }

  /** The least element of a non-empty set. */
  function First(o: Order, s: set<seq<nat>>): (x: seq<nat>)
    requires s != {}
    ensures x in s && forall y :: y in s && y != x ==> Before(o, x, y)
  {
    FirstExists(o, s);
    assert forall x, y :: !(Before(o, x, y) && Before(o, y, x)) by { OrderIsStrictTotal(o); }
    var x :| x in s && IsFirst(o, s, x);
    x
  }

  lemma FirstIs(o: Order, s: set<seq<nat>>, x: seq<nat>)
    requires IsFirst(o, s, x)
    ensures s != {} && First(o, s) == x
  {
    OrderIsStrictTotal(o);
  }

  ghost predicate InOrder(o: Order, r: seq<seq<nat>>) {
    forall i, j {:trigger Before(o, r[i], r[j])} :: 0 <= i < j < |r| ==> Before(o, r[i], r[j])
  }

  /** The elements of `s` in the given order. */
  function Sorted(o: Order, s: set<seq<nat>>): (r: seq<seq<nat>>)
    ensures forall x :: x in r <==> x in s
    ensures InOrder(o, r)
    decreases |s|
  {
    if s == {} then []
    else
      var x := First(o, s);
      [x] + Sorted(o, s - {x})
  }

  /** Elements of an ordered list are distinct, and position follows the order. */
  lemma PositionFollowsOrder(o: Order, r: seq<seq<nat>>, i: nat, j: nat)
    requires InOrder(o, r) && i < |r| && j < |r|
    ensures i < j <==> Before(o, r[i], r[j])
    ensures i == j <==> r[i] == r[j]
  {
    OrderIsStrictTotal(o);
    assert j < i ==> Before(o, r[j], r[i]);
  }

  /** An ordered list is determined by its elements. */
  lemma {:induction false} OrderedListIsUnique(o: Order, a: seq<seq<nat>>, b: seq<seq<nat>>)
    requires InOrder(o, a) && InOrder(o, b)
    requires forall x :: x in a <==> x in b
    ensures a == b
  {
    assert b != [] ==> b[0] in a;
    if a != [] {
      assert a[0] in b;
      var i :| 0 <= i < |a| && a[i] == b[0];
      var j :| 0 <= j < |b| && b[j] == a[0];
      PositionFollowsOrder(o, a, 0, i);
      PositionFollowsOrder(o, b, 0, j);
      OrderIsStrictTotal(o);
      HeadIsNotInTail(o, a);
      HeadIsNotInTail(o, b);
      assert a == [a[0]] + a[1..] && b == [b[0]] + b[1..];
      TailInOrder(o, a);
      TailInOrder(o, b);
      OrderedListIsUnique(o, a[1..], b[1..]);
    }
  }

  lemma HeadIsNotInTail(o: Order, r: seq<seq<nat>>)
    requires InOrder(o, r) && r != []
    ensures forall x :: x in r[1..] <==> x in r && x != r[0]
  {
    forall k | 1 <= k < |r| ensures r[k] != r[0] { PositionFollowsOrder(o, r, 0, k); }
    assert r == [r[0]] + r[1..];
  }

  lemma TailInOrder(o: Order, r: seq<seq<nat>>)
    requires InOrder(o, r) && r != []
    ensures InOrder(o, r[1..])
  {
    forall i, j | 0 <= i < j < |r[1..]| ensures Before(o, r[1..][i], r[1..][j]) {
      assert Before(o, r[i + 1], r[j + 1]);
    }
  }
}
