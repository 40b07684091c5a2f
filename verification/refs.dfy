/** Reference strings: their order, and sorted tuples of them. */
module Refs {
  import opened PythonText

  /** Python's order of strings: by code points, a proper prefix first. */
  predicate Before(a: Str, b: Str) {
    if b == [] then false
    else if a == [] then true
    else a[0] < b[0] || (a[0] == b[0] && Before(a[1..], b[1..]))
  }

  lemma {:induction false} BeforeIsStrict(a: Str)
    ensures !Before(a, a)
  {
    if a != [] {
      BeforeIsStrict(a[1..]);
    }
  }

  lemma {:induction false} BeforeIsTransitive(a: Str, b: Str, c: Str)
    requires Before(a, b) && Before(b, c)
    ensures Before(a, c)
  {
    if a != [] && a[0] == b[0] && b[0] == c[0] {
      BeforeIsTransitive(a[1..], b[1..], c[1..]);
    }
  }

  lemma {:induction false} BeforeIsTotal(a: Str, b: Str)
    ensures a == b || Before(a, b) || Before(b, a)
  {
    if a != [] && b != [] && a[0] == b[0] {
      BeforeIsTotal(a[1..], b[1..]);
      if a[1..] == b[1..] {
        assert a == [a[0]] + a[1..] == [b[0]] + b[1..] == b;
      }
    }
  }

  predicate Ascending(refs: seq<Str>) {
    forall i, j | 0 <= i < j < |refs| :: Before(refs[i], refs[j])
  }

  function Elements<T>(items: seq<T>): set<T> {
    set x | x in items
  }

  lemma ElementsOfBoth<T>(a: seq<T>, b: seq<T>)
    ensures Elements(a + b) == Elements(a) + Elements(b)
  {
    forall x | x in Elements(a) + Elements(b) ensures x in Elements(a + b) {
      assert x in a + b;
    }
  }

  lemma ElementsNonempty<T>(items: seq<T>)
    requires items != []
    ensures Elements(items) != {}
  {
    assert items[0] in Elements(items);
  }

  predicate Distinct<T(==)>(items: seq<T>) {
    forall i, j | 0 <= i < j < |items| :: items[i] != items[j]
  }

  lemma {:induction false} DistinctFits<T>(items: seq<T>, all: set<T>)
    requires Distinct(items) && (forall x | x in items :: x in all)
    ensures |items| <= |all|
  {
    if items != [] {
      assert items[0] !in items[1..];
      DistinctFits(items[1..], all - {items[0]});
    }
  }

  /** `tuple(sorted(refs))` */
  ghost predicate SortedFrom(sorted: seq<Str>, refs: set<Str>) {
    Ascending(sorted) && Elements(sorted) == refs
  }

  lemma AscendingIsDistinct(refs: seq<Str>)
    requires Ascending(refs)
    ensures Distinct(refs)
  {
    forall i, j | 0 <= i < j < |refs| ensures refs[i] != refs[j] {
      BeforeIsStrict(refs[i]);
    }
  }

  function Insert(sorted: seq<Str>, ref: Str): (r: seq<Str>)
    ensures Elements(r) == Elements(sorted) + {ref}
  {
    if sorted == [] || Before(ref, sorted[0]) then
      ElementsOfBoth([ref], sorted);
      [ref] + sorted
    else
      var rest := Insert(sorted[1..], ref);
      ElementsOfBoth([sorted[0]], sorted[1..]);
      ElementsOfBoth([sorted[0]], rest);
      assert sorted == [sorted[0]] + sorted[1..];
      [sorted[0]] + rest
  }

  lemma {:induction false} InsertKeepsOrder(sorted: seq<Str>, ref: Str)
    requires Ascending(sorted) && ref !in sorted
    ensures Ascending(Insert(sorted, ref))
  {
    if sorted == [] {
    } else if Before(ref, sorted[0]) {
      forall j | 0 < j < |sorted| ensures Before(ref, sorted[j]) {
        BeforeIsTransitive(ref, sorted[0], sorted[j]);
      }
    } else {
      BeforeIsTotal(ref, sorted[0]);
      var rest := Insert(sorted[1..], ref);
      InsertKeepsOrder(sorted[1..], ref);
      forall x | x in rest ensures Before(sorted[0], x) {
        assert x in Elements(rest);
        assert x == ref || x in sorted[1..];
      }
    }
  }

  method Sort(refs: set<Str>) returns (sorted: seq<Str>)
    ensures SortedFrom(sorted, refs)
  {
    sorted := [];
    var left := refs;
    while left != {}
      invariant left <= refs && SortedFrom(sorted, refs - left)
      decreases left
    {
      var ref :| ref in left;
      assert ref !in sorted by {
        assert ref !in Elements(sorted);
      }
      InsertKeepsOrder(sorted, ref);
      sorted := Insert(sorted, ref);
      left := left - {ref};
    }
  }

  /** A set has one sorted tuple. */
  lemma {:induction false} SortedIsUnique(a: seq<Str>, b: seq<Str>)
    requires Ascending(a) && Ascending(b) && Elements(a) == Elements(b)
    ensures a == b
  {
    if a == [] {
      if b != [] {
        ElementsNonempty(b);
      }
    } else {
      ElementsNonempty(a);
      assert a[0] in Elements(a) && b[0] in Elements(b);
      LeastIsFirst(a, b[0]);
      LeastIsFirst(b, a[0]);
      BeforeIsStrict(a[0]);
      if a[0] != b[0] {
        BeforeIsTransitive(a[0], b[0], a[0]);
      }
      TailElements(a);
      TailElements(b);
      SortedIsUnique(a[1..], b[1..]);
      assert a == [a[0]] + a[1..] && b == [b[0]] + b[1..];
    }
  }

  lemma LeastIsFirst(a: seq<Str>, x: Str)
    requires Ascending(a) && x in a
    ensures a[0] == x || Before(a[0], x)
  {
  }

  lemma TailElements(a: seq<Str>)
    requires Ascending(a) && a != []
    ensures Elements(a[1..]) == Elements(a) - {a[0]}
  {
    AscendingIsDistinct(a);
  }

  /** The sorted tuple of a set. */
  ghost function SortedRefs(refs: set<Str>): (sorted: seq<Str>)
    ensures SortedFrom(sorted, refs)
  {
    if refs == {} then []
    else
      var ref :| ref in refs;
      var rest := SortedRefs(refs - {ref});
      assert ref !in Elements(rest);
      InsertKeepsOrder(rest, ref);
      Insert(rest, ref)
  }

  /** Strings of one length are compared without what follows them. */
  lemma {:induction false} BeforeWithTails(a: Str, b: Str, x: Str, y: Str)
    requires |a| == |b| && Before(a, b)
    ensures Before(a + x, b + y)
  {
    if a != [] {
      assert (a + x)[1..] == a[1..] + x && (b + y)[1..] == b[1..] + y;
      if a[0] == b[0] {
        BeforeWithTails(a[1..], b[1..], x, y);
      }
    }
  }

  lemma {:induction false} BeforeAfterPrefix(p: Str, a: Str, b: Str)
    requires Before(a, b)
    ensures Before(p + a, p + b)
  {
    if p == [] {
      assert p + a == a && p + b == b;
    } else {
      assert (p + a)[1..] == p[1..] + a && (p + b)[1..] == p[1..] + b;
      BeforeAfterPrefix(p[1..], a, b);
    }
  }
}
