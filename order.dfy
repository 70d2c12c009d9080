/** The order in which `Array.prototype.sort` (no comparator) puts file names:
    character by character, a proper prefix first. */
module Order {
  import opened Common

  predicate Below(a: string, b: string)
  {
    if a == [] then b != []
    else if b == [] then false
    else if a[0] != b[0] then a[0] < b[0]
    else Below(a[1..], b[1..])
  }

  lemma {:induction false} BelowIrreflexive(a: string)
    ensures !Below(a, a)
  {
    if a != [] {
      BelowIrreflexive(a[1..]);
    }
  }

  lemma {:induction false} BelowAsymmetric(a: string, b: string)
    requires Below(a, b)
    ensures !Below(b, a)
  {
    if a != [] && b != [] && a[0] == b[0] {
      BelowAsymmetric(a[1..], b[1..]);
    }
  }

  lemma {:induction false} BelowTransitive(a: string, b: string, c: string)
    requires Below(a, b) && Below(b, c)
    ensures Below(a, c)
  {
    if a != [] && b != [] && c != [] && a[0] == b[0] && b[0] == c[0] {
      BelowTransitive(a[1..], b[1..], c[1..]);
    }
  }

  /** Two different names are always ordered one way or the other. */
  lemma {:induction false} BelowTotal(a: string, b: string)
    requires a != b
    ensures Below(a, b) || Below(b, a)
  {
    if a != [] && b != [] && a[0] == b[0] {
      assert a == [a[0]] + a[1..] && b == [b[0]] + b[1..];
      BelowTotal(a[1..], b[1..]);
    }
  }

  /** Comparing two strings that share the shape `x + u` and `y + v` with `|x| == |y|`:
      the heads decide, and only equal heads pass the decision to the tails. */
  lemma {:induction false} BelowAppend(x: string, u: string, y: string, v: string)
    requires |x| == |y|
    ensures Below(x + u, y + v) <==> Below(x, y) || (x == y && Below(u, v))
  {
    if x == [] {
      assert x + u == u && y + v == v;
    } else {
      assert (x + u)[1..] == x[1..] + u && (y + v)[1..] == y[1..] + v;
      assert x == [x[0]] + x[1..] && y == [y[0]] + y[1..];
      BelowAppend(x[1..], u, y[1..], v);
    }
  }

  /** Strictly ascending, hence also free of duplicates. */
  predicate Sorted(s: seq<string>)
  {
    forall i, j :: 0 <= i < j < |s| ==> Below(s[i], s[j])
  }

  function Insert(x: string, s: seq<string>): (r: seq<string>)
    ensures multiset(r) == multiset(s) + multiset{x}
  {
    if s == [] then [x]
    else if Below(x, s[0]) then [x] + s
    else
      assert s == [s[0]] + s[1..];
      [s[0]] + Insert(x, s[1..])
  }

  lemma {:induction false} InsertSorted(x: string, s: seq<string>)
    requires Sorted(s) && x !in s
    ensures Sorted(Insert(x, s))
  {
    if s == [] {
    } else if Below(x, s[0]) {
      forall j | 0 < j < |s| ensures Below(x, s[j]) {
        BelowTransitive(x, s[0], s[j]);
      }
    } else {
      BelowTotal(x, s[0]);
      InsertSorted(x, s[1..]);
      var rest := Insert(x, s[1..]);
      forall j | 0 <= j < |rest| ensures Below(s[0], rest[j]) {
        assert rest[j] in multiset(rest);
        if rest[j] != x {
          assert rest[j] in multiset(s[1..]);
          var k :| 0 <= k < |s[1..]| && s[1..][k] == rest[j];
          assert s[k + 1] == rest[j];
        }
      }
    }
  }

  /** The model of `.sort()`: insertion sort in the order `Below`. */
  function SortNames(xs: seq<string>): (r: seq<string>)
    ensures multiset(r) == multiset(xs)
  {
    if xs == [] then []
    else
      assert xs == [xs[0]] + xs[1..];
      Insert(xs[0], SortNames(xs[1..]))
  }

  lemma {:induction false} SortNamesSorted(xs: seq<string>)
    requires Distinct(xs)
    ensures Sorted(SortNames(xs))
  {
    if xs != [] {
      assert Distinct(xs[1..]);
      SortNamesSorted(xs[1..]);
      assert xs[0] !in multiset(xs[1..]);
      assert xs[0] !in SortNames(xs[1..]);
      InsertSorted(xs[0], SortNames(xs[1..]));
    }
  }

  lemma HeadIsMember(s: seq<string>)
    requires s != []
    ensures s[0] in s
  {
  }

  /** A set of names has exactly one ascending listing. */
  lemma {:induction false} SortedUnique(a: seq<string>, b: seq<string>)
    requires Sorted(a) && Sorted(b)
    requires forall x :: x in a <==> x in b
    ensures a == b
  {
    if a == [] {
      if b != [] {
        HeadIsMember(b);
        assert false;
      }
    } else {
      assert a[0] in b;
      assert b != [];
      if a[0] != b[0] {
        assert b[0] in a;
        var i :| 0 <= i < |a| && a[i] == b[0];
        var j :| 0 <= j < |b| && b[j] == a[0];
        assert Below(a[0], b[0]) && Below(b[0], a[0]);
        BelowAsymmetric(a[0], b[0]);
        assert false;
      }
      forall x ensures x in a[1..] <==> x in b[1..] {
        if x in a[1..] {
          var i :| 1 <= i < |a| && a[i] == x;
          BelowIrreflexive(a[0]);
          assert x != a[0];
          assert x in b;
          var j :| 0 <= j < |b| && b[j] == x;
        }
        if x in b[1..] {
          var j :| 1 <= j < |b| && b[j] == x;
          BelowIrreflexive(b[0]);
          assert x in a;
          var i :| 0 <= i < |a| && a[i] == x;
        }
      }
      SortedUnique(a[1..], b[1..]);
      assert a == [a[0]] + a[1..] && b == [b[0]] + b[1..];
    }
  }

  /** Some duplicate-free listing of a set. */
  ghost function Enumerate(names: set<string>): (r: seq<string>)
    ensures Distinct(r) && |r| == |names|
    ensures forall x :: x in r <==> x in names
    decreases names
  {
    if names == {} then []
    else
      var x :| x in names;
      [x] + Enumerate(names - {x})
  }

  /** The ascending listing of a set of names. */
  ghost function Ascending(names: set<string>): (r: seq<string>)
    ensures Sorted(r) && |r| == |names|
    ensures forall x :: x in r <==> x in names
  {
    var e := Enumerate(names);
    SortNamesSorted(e);
    assert forall x :: x in SortNames(e) <==> x in multiset(e);
    SortNames(e)
  }

  /** Whatever order a directory listing comes in, sorting it gives the same sequence. */
  lemma SortListingIsAscending(xs: seq<string>, names: set<string>)
    requires Distinct(xs)
    requires forall x :: x in xs <==> x in names
    ensures SortNames(xs) == Ascending(names)
  {
    SortNamesSorted(xs);
    assert forall x :: x in SortNames(xs) <==> x in multiset(xs);
    SortedUnique(SortNames(xs), Ascending(names));
  }
}
