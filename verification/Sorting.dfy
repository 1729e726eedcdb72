/**
 Stable sorting by a byte-string key, as `sort_by` on a name or an identifier does, and what is left
 of the original order: nothing of the keys, and nothing at all when no two keys are equal.
 */
module Sorting {
  import opened ByteStrings

  function Keys<T>(key: T -> Bytes, s: seq<T>): (r: seq<Bytes>)
    ensures |r| == |s|
    ensures forall i :: 0 <= i < |r| ==> r[i] == key(s[i])
  {
    seq(|s|, i requires 0 <= i < |s| => key(s[i]))
  }

  function Insert<T(==)>(key: T -> Bytes, x: T, s: seq<T>): (r: seq<T>)
    ensures |r| == |s| + 1 && multiset(r) == multiset{x} + multiset(s)
  {
    if s == [] || !Before(key(s[0]), key(x)) then
      [x] + s
    else
      assert s == [s[0]] + s[1..];
      [s[0]] + Insert(key, x, s[1..])
  }

  function SortBy<T(==)>(key: T -> Bytes, s: seq<T>): (r: seq<T>)
    ensures |r| == |s| && multiset(r) == multiset(s)
  {
    if s == [] then
      []
    else
      assert s == [s[0]] + s[1..];
      Insert(key, s[0], SortBy(key, s[1..]))
  }

  lemma SortMembers<T>(key: T -> Bytes, s: seq<T>)
    ensures forall x :: x in SortBy(key, s) <==> x in s
  {
    forall x ensures x in SortBy(key, s) <==> x in s {
      assert x in SortBy(key, s) <==> x in multiset(SortBy(key, s));
      assert x in s <==> x in multiset(s);
    }
  }

  // ----- order

  ghost predicate Ordered(names: seq<Bytes>) {
    forall i, j :: 0 <= i < j < |names| ==> AtMost(names[i], names[j])
  }

  lemma {:induction false} InsertOrders<T>(key: T -> Bytes, x: T, s: seq<T>)
    requires Ordered(Keys(key, s))
    ensures Ordered(Keys(key, Insert(key, x, s)))
  {
    hide Before, AtMost;
    if s != [] {
      if Before(key(s[0]), key(x)) {
        var rest := Insert(key, x, s[1..]);
        TailOrdered(key, s);
        InsertOrders(key, x, s[1..]);
        HeadFirst(key, s, x);
        forall y | y in rest ensures AtMost(key(s[0]), key(y)) {
          InsertedMember(key, x, s[1..], y);
        }
        PrependOrders(key, s[0], rest);
      } else {
        InsertBefore(key, x, s);
        PrependOrders(key, x, s);
      }
    }
  }

  lemma TailOrdered<T>(key: T -> Bytes, s: seq<T>)
    requires s != [] && Ordered(Keys(key, s))
    ensures Ordered(Keys(key, s[1..])) && forall y :: y in s ==> AtMost(key(s[0]), key(y))
  {
    hide AtMost;
    assert Keys(key, s[1..]) == Keys(key, s)[1..];
    forall y | y in s ensures AtMost(key(s[0]), key(y)) {
      var i :| 0 <= i < |s| && s[i] == y;
      AtMostItself(key(s[0]));
      assert i > 0 ==> AtMost(Keys(key, s)[0], Keys(key, s)[i]);
    }
  }

  lemma AtMostItself(a: Bytes)
    ensures AtMost(a, a)
  {
  }

  lemma InsertedMember<T>(key: T -> Bytes, x: T, s: seq<T>, y: T)
    ensures y in Insert(key, x, s) <==> y == x || y in s
  {
    assert y in Insert(key, x, s) <==> y in multiset(Insert(key, x, s));
    assert y in s <==> y in multiset(s);
  }

  lemma HeadFirst<T>(key: T -> Bytes, s: seq<T>, x: T)
    requires s != [] && Before(key(s[0]), key(x)) && forall y :: y in s ==> AtMost(key(s[0]), key(y))
    ensures forall y :: y == x || y in s[1..] ==> AtMost(key(s[0]), key(y))
  {
  }

  lemma InsertBefore<T>(key: T -> Bytes, x: T, s: seq<T>)
    requires s != [] && !Before(key(s[0]), key(x)) && Ordered(Keys(key, s))
    ensures forall y :: y in s ==> AtMost(key(x), key(y))
  {
    hide Before;
    TailOrdered(key, s);
    BeforeTotal(key(x), key(s[0]));
    forall y | y in s ensures AtMost(key(x), key(y)) {
      if key(x) != key(s[0]) && key(s[0]) != key(y) {
        BeforeTransitive(key(x), key(s[0]), key(y));
      }
    }
  }

  lemma PrependOrders<T>(key: T -> Bytes, x: T, s: seq<T>)
    requires Ordered(Keys(key, s)) && forall y :: y in s ==> AtMost(key(x), key(y))
    ensures Ordered(Keys(key, [x] + s))
  {
    hide AtMost;
    var names := Keys(key, [x] + s);
    assert names == [key(x)] + Keys(key, s);
    forall i, j | 0 <= i < j < |names| ensures AtMost(names[i], names[j]) {
      if i == 0 {
        assert s[j - 1] in s;
      } else {
        assert AtMost(Keys(key, s)[i - 1], Keys(key, s)[j - 1]);
      }
    }
  }

  lemma {:induction false} SortOrders<T>(key: T -> Bytes, s: seq<T>)
    ensures Ordered(Keys(key, SortBy(key, s)))
  {
    hide Keys;
    if s == [] {
      NoneOrdered(key);
    } else {
      SortOrders(key, s[1..]);
      InsertOrders(key, s[0], SortBy(key, s[1..]));
    }
  }

  lemma NoneOrdered<T>(key: T -> Bytes)
    ensures Ordered(Keys(key, []))
  {
  }

  // ----- permutations

  lemma {:induction false} KeysPermute<T>(key: T -> Bytes, s: seq<T>, t: seq<T>)
    requires multiset(s) == multiset(t)
    ensures multiset(Keys(key, s)) == multiset(Keys(key, t))
  {
    hide Keys;
    if s == [] {
      assert |multiset(t)| == 0;
    } else {
      assert s[0] in multiset(t);
      var i :| 0 <= i < |t| && t[i] == s[0];
      RemoveBoth(s, t, i);
      KeysPermute(key, s[1..], t[..i] + t[i + 1..]);
      KeysWithout(key, s, 0);
      KeysWithout(key, t, i);
      assert s[..0] + s[1..] == s[1..];
    }
  }

  lemma Remove<T>(s: seq<T>, i: nat)
    requires i < |s|
    ensures multiset(s[..i] + s[i + 1..]) == multiset(s) - multiset{s[i]}
  {
    assert s == s[..i] + [s[i]] + s[i + 1..];
  }

  lemma RemoveFirst<T>(s: seq<T>)
    requires s != []
    ensures multiset(s[1..]) == multiset(s) - multiset{s[0]}
  {
    assert s == [s[0]] + s[1..];
  }

  lemma RemoveBoth<T>(s: seq<T>, t: seq<T>, i: nat)
    requires multiset(s) == multiset(t) && s != [] && i < |t| && t[i] == s[0]
    ensures multiset(s[1..]) == multiset(t[..i] + t[i + 1..])
  {
    Remove(t, i);
    RemoveFirst(s);
  }

  lemma KeysWithout<T>(key: T -> Bytes, s: seq<T>, i: nat)
    requires i < |s|
    ensures multiset(Keys(key, s)) == multiset(Keys(key, s[..i] + s[i + 1..])) + multiset{key(s[i])}
  {
    var names := Keys(key, s);
    assert Keys(key, s[..i] + s[i + 1..]) == names[..i] + names[i + 1..];
    assert names == names[..i] + [names[i]] + names[i + 1..];
  }

  /** There is one way to put names in order. */
  lemma {:induction false} OrderedUnique(x: seq<Bytes>, y: seq<Bytes>)
    requires Ordered(x) && Ordered(y) && multiset(x) == multiset(y)
    ensures x == y
  {
    hide AtMost;
    SameCount(x, y);
    if x != [] {
      FirstsAgree(x, y);
      RemoveFirst(x);
      RemoveFirst(y);
      OrderedUnique(x[1..], y[1..]);
      assert x == [x[0]] + x[1..] && y == [y[0]] + y[1..];
    }
  }

  lemma SameCount(x: seq<Bytes>, y: seq<Bytes>)
    requires multiset(x) == multiset(y)
    ensures |x| == |y|
  {
    assert |multiset(x)| == |x| && |multiset(y)| == |y|;
  }

  lemma FirstsAgree(x: seq<Bytes>, y: seq<Bytes>)
    requires Ordered(x) && Ordered(y) && multiset(x) == multiset(y) && x != [] && y != []
    ensures x[0] == y[0]
  {
    hide Before;
    assert x[0] in multiset(y) && y[0] in multiset(x);
    FirstIsLeast(x, y[0]);
    FirstIsLeast(y, x[0]);
    if x[0] != y[0] {
      BeforeAsymmetric(x[0], y[0]);
    }
  }

  lemma FirstIsLeast(x: seq<Bytes>, a: Bytes)
    requires Ordered(x) && a in x
    ensures AtMost(x[0], a)
  {
    var i :| 0 <= i < |x| && x[i] == a;
    if i == 0 {
      AtMostItself(a);
    }
  }

  // ----- distinct keys

  ghost predicate Distinct(names: seq<Bytes>) {
    forall i, j :: 0 <= i < j < |names| ==> names[i] != names[j]
  }

  lemma {:induction false} DistinctByCount(names: seq<Bytes>)
    ensures Distinct(names) <==> forall k: Bytes :: multiset(names)[k] <= 1
  {
    if names != [] {
      var head, rest := names[0], names[1..];
      assert names == [head] + rest;
      DistinctByCount(rest);
      assert forall k: Bytes :: multiset(names)[k] == multiset(rest)[k] + if k == head then 1 else 0;
      DistinctHead(names);
      assert head in rest <==> multiset(rest)[head] > 0;
    }
  }

  lemma DistinctHead(names: seq<Bytes>)
    requires names != []
    ensures Distinct(names) <==> Distinct(names[1..]) && names[0] !in names[1..]
  {
    if Distinct(names[1..]) && names[0] !in names[1..] {
      assert forall j :: 1 <= j < |names| ==> names[j] == names[1..][j - 1];
    }
  }

  lemma SortKeysDistinct<T>(key: T -> Bytes, s: seq<T>)
    ensures Distinct(Keys(key, SortBy(key, s))) <==> Distinct(Keys(key, s))
  {
    hide Keys, Distinct;
    KeysPermute(key, SortBy(key, s), s);
    DistinctByCount(Keys(key, SortBy(key, s)));
    DistinctByCount(Keys(key, s));
  }

  /** With distinct keys, sorting forgets the order altogether. */
  lemma SortForgetsOrder<T>(key: T -> Bytes, s: seq<T>, t: seq<T>)
    requires multiset(s) == multiset(t) && Distinct(Keys(key, s))
    ensures SortBy(key, s) == SortBy(key, t)
  {
    hide Ordered;
    var x, y := SortBy(key, s), SortBy(key, t);
    SortOrders(key, s);
    SortOrders(key, t);
    KeysPermute(key, x, y);
    OrderedUnique(Keys(key, x), Keys(key, y));
    SortKeysDistinct(key, s);
    SameByKey(key, x, y);
  }

  lemma SameByKey<T>(key: T -> Bytes, x: seq<T>, y: seq<T>)
    requires multiset(x) == multiset(y) && Keys(key, x) == Keys(key, y) && Distinct(Keys(key, x))
    ensures x == y
  {
    assert |Keys(key, x)| == |Keys(key, y)|;
    forall i | 0 <= i < |x| ensures x[i] == y[i] {
      assert x[i] in multiset(y);
      var j :| 0 <= j < |y| && y[j] == x[i];
      assert Keys(key, x)[i] == Keys(key, y)[j] == Keys(key, x)[j];
    }
  }
}
