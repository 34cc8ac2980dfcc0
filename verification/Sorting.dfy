/** Fields in key order: `Object.keys(value).sort(compareKeys)` and what it forgets. */
module Sorting {
  import opened Text
  import opened Json

  /** `left < right` on JavaScript strings: first difference of code units. */
  predicate Less(a: Str, b: Str) {
    if b == [] then false
    else if a == [] then true
    else a[0] < b[0] || (a[0] == b[0] && Less(a[1..], b[1..]))
  }

  /** The texts agree up to `k`, where the first ends or has the smaller code unit. */
  predicate DiffersAt(a: Str, b: Str, k: nat) {
    k <= |a| && k < |b| && a[..k] == b[..k] && (k == |a| || a[k] < b[k])
  }

  ghost predicate Earlier(a: Str, b: Str) {
    exists k: nat :: DiffersAt(a, b, k)
  }

  lemma {:induction false} LessDiffers(a: Str, b: Str) returns (k: nat)
    requires Less(a, b)
    ensures DiffersAt(a, b, k)
  {
    if a == [] || a[0] < b[0] {
      k := 0;
    } else {
      k := LessDiffers(a[1..], b[1..]);
      k := k + 1;
      assert a[..k] == [a[0]] + a[1..][..k - 1] && b[..k] == [b[0]] + b[1..][..k - 1];
    }
  }

  lemma {:induction false} DiffersLess(a: Str, b: Str, k: nat)
    requires DiffersAt(a, b, k)
    ensures Less(a, b)
  {
    if k > 0 {
      assert a[0] == a[..k][0] == b[..k][0] == b[0];
      assert a[1..][..k - 1] == a[..k][1..] && b[1..][..k - 1] == b[..k][1..];
      DiffersLess(a[1..], b[1..], k - 1);
    }
  }

  /** The comparison is the order of code units: it decides by the first difference. */
  lemma LessExactly(a: Str, b: Str)
    ensures Less(a, b) <==> Earlier(a, b)
  {
    if Less(a, b) {
      var k := LessDiffers(a, b);
    }
    if Earlier(a, b) {
      var k: nat :| DiffersAt(a, b, k);
      DiffersLess(a, b, k);
    }
  }

  lemma {:induction false} LessTotal(a: Str, b: Str)
    ensures Less(a, b) || Less(b, a) || a == b
    ensures !(Less(a, b) && Less(b, a)) && !Less(a, a)
  {
    if a != [] && b != [] {
      LessTotal(a[1..], b[1..]);
      assert a == [a[0]] + a[1..] && b == [b[0]] + b[1..];
    }
    if a != [] {
      LessTotal(a[1..], a[1..]);
    }
  }

  lemma {:induction false} LessTransitive(a: Str, b: Str, c: Str)
    requires Less(a, b) && Less(b, c)
    ensures Less(a, c)
  {
    if a != [] && a[0] == b[0] && b[0] == c[0] {
      LessTransitive(a[1..], b[1..], c[1..]);
    }
  }

  predicate Distinct<T>(es: seq<Entry<T>>) {
    forall i, j | 0 <= i < j < |es| :: es[i].key != es[j].key
  }

  predicate Ordered<T>(es: seq<Entry<T>>) {
    forall i, j | 0 <= i < j < |es| :: Less(es[i].key, es[j].key)
  }

  /** Keys ascend in code-unit order. */
  ghost predicate Ascending<T>(es: seq<Entry<T>>) {
    forall i, j | 0 <= i < j < |es| :: Earlier(es[i].key, es[j].key)
  }

  lemma OrderedAscends<T>(es: seq<Entry<T>>)
    ensures Ordered(es) <==> Ascending(es)
  {
    hide Less, Earlier;
    forall i, j | 0 <= i < j < |es| ensures Less(es[i].key, es[j].key) <==> Earlier(es[i].key, es[j].key) {
      LessExactly(es[i].key, es[j].key);
    }
  }

  function Insert<T>(e: Entry<T>, es: seq<Entry<T>>): seq<Entry<T>> {
    if es == [] || Less(e.key, es[0].key) then [e] + es
    else [es[0]] + Insert(e, es[1..])
  }

  function Sort<T>(es: seq<Entry<T>>): seq<Entry<T>> {
    if es == [] then [] else Insert(es[0], Sort(es[1..]))
  }

  lemma {:induction false} InsertMembers<T>(e: Entry<T>, es: seq<Entry<T>>)
    ensures |Insert(e, es)| == |es| + 1
    ensures forall x <- Insert(e, es) :: x == e || x in es
    ensures e in Insert(e, es) && forall x <- es :: x in Insert(e, es)
  {
    if !(es == [] || Less(e.key, es[0].key)) {
      InsertMembers(e, es[1..]);
      assert es == [es[0]] + es[1..];
    }
  }

  lemma {:induction false} SortMembers<T>(es: seq<Entry<T>>)
    ensures |Sort(es)| == |es|
    ensures forall x <- Sort(es) :: x in es
    ensures forall x <- es :: x in Sort(es)
  {
    if es != [] {
      SortMembers(es[1..]);
      InsertMembers(es[0], Sort(es[1..]));
      assert es == [es[0]] + es[1..];
    }
  }

  lemma TailMember<T>(es: seq<Entry<T>>, x: Entry<T>)
    requires es != [] && x in es[1..]
    ensures x in es && exists i :: 0 < i < |es| && es[i] == x
  {
    var tail := es[1..];
    var k :| 0 <= k < |tail| && tail[k] == x;
    assert es[k + 1] == x;
  }

  lemma {:induction false} InsertOrdered<T>(e: Entry<T>, es: seq<Entry<T>>)
    requires Ordered(es) && forall x <- es :: x.key != e.key
    ensures Ordered(Insert(e, es))
  {
    if es == [] {
    } else if Less(e.key, es[0].key) {
      forall j | 0 <= j < |es| ensures Less(e.key, es[j].key) {
        if j > 0 {
          LessTransitive(e.key, es[0].key, es[j].key);
        }
      }
    } else {
      assert es[0] in es;
      LessTotal(e.key, es[0].key);
      InsertOrdered(e, es[1..]);
      InsertMembers(e, es[1..]);
      var r := Insert(e, es[1..]);
      forall j | 0 <= j < |r| ensures Less(es[0].key, r[j].key) {
        assert r[j] in r;
        if r[j] != e {
          TailMember(es, r[j]);
        }
      }
    }
  }

  lemma {:induction false} SortOrdered<T>(es: seq<Entry<T>>)
    requires Distinct(es)
    ensures Ordered(Sort(es)) && Ascending(Sort(es))
  {
    OrderedAscends(Sort(es));
    if es != [] {
      SortOrdered(es[1..]);
      SortMembers(es[1..]);
      forall x <- Sort(es[1..]) ensures x.key != es[0].key {
        TailMember(es, x);
      }
      InsertOrdered(es[0], Sort(es[1..]));
    }
  }

  lemma OrderedDistinct<T>(es: seq<Entry<T>>)
    requires Ordered(es)
    ensures Distinct(es)
  {
    forall i, j | 0 <= i < j < |es| ensures es[i].key != es[j].key {
      LessTotal(es[i].key, es[j].key);
    }
  }

  /** Two ordered lists with the same members are the same list. */
  lemma {:induction false} OrderedUnique<T>(a: seq<Entry<T>>, b: seq<Entry<T>>)
    requires Ordered(a) && Ordered(b)
    requires forall x: Entry<T> :: x in a <==> x in b
    ensures a == b
  {
    assert b != [] ==> b[0] in a;
    if a != [] {
      assert a[0] in a && a[0] in b;
      var i :| 0 <= i < |b| && b[i] == a[0];
      assert b[0] in b && b[0] in a;
      var j :| 0 <= j < |a| && a[j] == b[0];
      LessTotal(a[0].key, b[0].key);
      assert a[0] == b[0];
      TailMembers(a, b);
      OrderedUnique(a[1..], b[1..]);
      assert a == [a[0]] + a[1..] && b == [b[0]] + b[1..];
    }
  }

  lemma TailMembers<T>(a: seq<Entry<T>>, b: seq<Entry<T>>)
    requires Ordered(a) && Ordered(b) && a != [] && b != [] && a[0] == b[0]
    requires forall x: Entry<T> :: x in a <==> x in b
    ensures forall x: Entry<T> :: x in a[1..] <==> x in b[1..]
  {
    OrderedDistinct(a);
    OrderedDistinct(b);
    forall x ensures x in a[1..] <==> x in b[1..] {
      if x in a[1..] {
        assert x in a && x in b && x.key != a[0].key;
      }
      if x in b[1..] {
        assert x in b && x in a && x.key != b[0].key;
      }
    }
  }

  /** Sorting an ordered list changes nothing. */
  lemma SortFixed<T>(es: seq<Entry<T>>)
    requires Ordered(es)
    ensures Sort(es) == es
  {
    OrderedDistinct(es);
    SortOrdered(es);
    SortMembers(es);
    OrderedUnique(Sort(es), es);
  }

  // ------------------------------------------- sorting looks at keys only

  function MapVals<T, U>(es: seq<Entry<T>>, f: T -> U): (r: seq<Entry<U>>)
    ensures |r| == |es|
    ensures forall i | 0 <= i < |es| :: r[i] == Entry(es[i].key, f(es[i].val))
  {
    seq(|es|, i requires 0 <= i < |es| => Entry(es[i].key, f(es[i].val)))
  }

  lemma {:induction false} InsertMap<T, U>(e: Entry<T>, es: seq<Entry<T>>, f: T -> U)
    ensures MapVals(Insert(e, es), f) == Insert(Entry(e.key, f(e.val)), MapVals(es, f))
  {
    if !(es == [] || Less(e.key, es[0].key)) {
      InsertMap(e, es[1..], f);
      assert MapVals(es, f)[1..] == MapVals(es[1..], f);
    }
  }

  lemma {:induction false} SortMap<T, U>(es: seq<Entry<T>>, f: T -> U)
    ensures MapVals(Sort(es), f) == Sort(MapVals(es, f))
  {
    if es != [] {
      SortMap(es[1..], f);
      InsertMap(es[0], Sort(es[1..]), f);
      assert MapVals(es, f)[1..] == MapVals(es[1..], f);
    }
  }
}
