/**
 `canonical_balances`: a list of named amounts sorted, checked for repeated names and joined
 (solvency-merkle/src/lib.rs).
 */
module BalanceLists {
  import opened Wrappers
  import opened ByteStrings
  import opened Sorting
  import opened Amounts
  import opened Balances

  datatype Balance = Balance(asset: Bytes, amount: Amount)

  datatype BalanceError = DuplicateAsset(asset: Bytes)

  function AssetOf(b: Balance): Bytes {
    b.asset
  }

  /** `sort_by` on the asset name: stable. */
  function SortByAsset(s: seq<Balance>): (r: seq<Balance>)
    ensures |r| == |s| && multiset(r) == multiset(s)
  {
    SortBy(AssetOf, s)
  }

  function Names(s: seq<Balance>): (r: seq<Bytes>)
    ensures |r| == |s|
    ensures forall i :: 0 <= i < |r| ==> r[i] == s[i].asset
  {
    Keys(AssetOf, s)
  }

  /** The first pair of equal neighbours. */
  function FirstDuplicate(names: seq<Bytes>): Option<Bytes> {
    if |names| < 2 then None
    else if names[0] == names[1] then Some(names[0])
    else FirstDuplicate(names[1..])
  }

  function EntriesOf(s: seq<Balance>): seq<Bytes> {
    seq(|s|, i requires 0 <= i < |s| => Entry(s[i].asset, s[i].amount))
  }

  /** `canonical_balances` */
  function CanonicalBalances(balances: seq<Balance>): Result<Bytes, BalanceError> {
    var sorted := SortByAsset(balances);
    match FirstDuplicate(Names(sorted))
    case Some(asset) => Err(DuplicateAsset(asset))
    case None => Ok(Join(EntriesOf(sorted)))
  }

  predicate NamedOnce(s: seq<Balance>) {
    forall i, j :: 0 <= i < j < |s| ==> s[i].asset != s[j].asset
  }

  /** The map a list of balances becomes when inserted entry by entry. */
  function MapOf(s: seq<Balance>): Sums {
    if s == [] then map[] else MapOf(s[..|s| - 1])[s[|s| - 1].asset := s[|s| - 1].amount]
  }

  lemma {:induction false} MapOfListed(s: seq<Balance>)
    requires NamedOnce(s)
    ensures forall i :: 0 <= i < |s| ==> s[i].asset in MapOf(s) && MapOf(s)[s[i].asset] == s[i].amount
    ensures forall k :: k in MapOf(s) ==> Balance(k, MapOf(s)[k]) in s
  {
    if s != [] {
      var front, last := s[..|s| - 1], s[|s| - 1];
      assert s == front + [last];
      MapOfListed(front);
      forall i | 0 <= i < |front| ensures front[i] == s[i] && s[i].asset != last.asset {
      }
    }
  }

  /** In an ordered list, having no equal neighbours is having no equal pair. */
  lemma {:induction false} NoEqualNeighbours(names: seq<Bytes>)
    requires Ordered(names)
    ensures FirstDuplicate(names).None? <==> StrictlySorted(names)
  {
    if |names| >= 2 {
      var rest := names[1..];
      NoEqualNeighbours(rest);
      assert StrictlySorted(names) ==> StrictlySorted(rest) && Before(names[0], names[1]);
      BeforeIrreflexive(names[0]);
      if names[0] != names[1] && StrictlySorted(rest) {
        assert AtMost(names[0], names[1]);
        forall j | 1 <= j < |names| ensures Before(names[0], names[j]) {
          if j > 1 {
            assert Before(rest[0], rest[j - 1]);
            BeforeTransitive(names[0], names[1], names[j]);
          }
        }
        assert forall j :: 1 <= j < |names| ==> names[j] == rest[j - 1];
      }
    }
  }

  lemma {:induction false} FirstDuplicateRepeats(names: seq<Bytes>)
    requires FirstDuplicate(names).Some?
    ensures multiset(names)[FirstDuplicate(names).value] > 1
  {
    assert names == [names[0]] + names[1..] == [names[0], names[1]] + names[2..];
    if names[0] != names[1] {
      FirstDuplicateRepeats(names[1..]);
    }
  }

  lemma DistinctNames(s: seq<Balance>)
    ensures Distinct(Names(s)) <==> NamedOnce(s)
  {
    assert forall i :: 0 <= i < |s| ==> Names(s)[i] == s[i].asset;
  }

  lemma SortedMembers(balances: seq<Balance>)
    ensures forall b :: b in SortByAsset(balances) <==> b in balances
    ensures Distinct(Names(SortByAsset(balances))) <==> NamedOnce(balances)
  {
    SortMembers(AssetOf, balances);
    SortKeysDistinct(AssetOf, balances);
    DistinctNames(balances);
  }

  /** Names in order are strictly so exactly when none repeats. */
  lemma StrictByDistinct(names: seq<Bytes>)
    requires Ordered(names)
    ensures StrictlySorted(names) <==> Distinct(names)
  {
    forall i, j | 0 <= i < j < |names| ensures Before(names[i], names[j]) <==> names[i] != names[j] {
      assert AtMost(names[i], names[j]);
      BeforeIrreflexive(names[i]);
    }
  }

  /** A list commits exactly when it names no asset twice, and then to the map it lists. */
  lemma CanonicalBalancesOfMap(balances: seq<Balance>)
    ensures CanonicalBalances(balances).Ok? <==> NamedOnce(balances)
    ensures NamedOnce(balances) ==> CanonicalBalances(balances) == Ok(Canonical(MapOf(balances)))
    ensures CanonicalBalances(balances).Err? ==>
      multiset(Names(balances))[CanonicalBalances(balances).error.asset] > 1
  {
    hide Ordered, Distinct, StrictlySorted, NamedOnce, Canonical, EntriesOf;
    var sorted := SortByAsset(balances);
    var names := Names(sorted);
    SortOrders(AssetOf, balances);
    SortedMembers(balances);
    KeysPermute(AssetOf, balances, sorted);
    NoEqualNeighbours(names);
    if FirstDuplicate(names).Some? {
      FirstDuplicateRepeats(names);
    }
    StrictByDistinct(names);
    if NamedOnce(balances) {
      SortedEntries(balances);
    }
  }

  ghost predicate Lists(s: seq<Balance>, m: Sums) {
    && (forall i :: 0 <= i < |s| ==> s[i].asset in m && m[s[i].asset] == s[i].amount)
    && (forall k :: k in m ==> k in Names(s))
  }

  lemma SortedLists(balances: seq<Balance>)
    requires NamedOnce(balances)
    ensures Lists(SortByAsset(balances), MapOf(balances))
  {
    var sorted, m := SortByAsset(balances), MapOf(balances);
    SameMembers(sorted, balances);
    MapOfListed(balances);
    forall i | 0 <= i < |sorted| ensures sorted[i].asset in m && m[sorted[i].asset] == sorted[i].amount {
      assert sorted[i] in balances;
    }
    forall k | k in m ensures k in Names(sorted) {
      var i :| 0 <= i < |sorted| && sorted[i] == Balance(k, m[k]);
      assert Names(sorted)[i] == k;
    }
  }

  lemma ListedNames(s: seq<Balance>, m: Sums)
    requires Lists(s, m) && StrictlySorted(Names(s))
    ensures Names(s) == SortedKeys(m.Keys)
  {
    forall k: Bytes | k in Names(s) ensures k in m {
      var i :| 0 <= i < |s| && Names(s)[i] == k;
    }
    SortedKeysUnique(Names(s), m.Keys);
  }

  lemma SortedEntries(balances: seq<Balance>)
    requires NamedOnce(balances) && StrictlySorted(Names(SortByAsset(balances)))
    ensures Join(EntriesOf(SortByAsset(balances))) == Canonical(MapOf(balances))
  {
    hide Lists, EntriesOf, NamedOnce, SortByAsset, MapOf, Names, Join;
    SortedLists(balances);
    ListedNames(SortByAsset(balances), MapOf(balances));
    ListedEntries(SortByAsset(balances), MapOf(balances));
  }

  lemma ListedEntries(s: seq<Balance>, m: Sums)
    requires Lists(s, m)
    ensures (forall k :: k in Names(s) ==> k in m) && Entries(Names(s), m) == EntriesOf(s)
  {
    forall k: Bytes | k in Names(s) ensures k in m {
      var i :| 0 <= i < |s| && Names(s)[i] == k;
    }
    assert Entries(Names(s), m) == EntriesOf(s);
  }

  /** The order balances are listed in never matters, to the text or to the error. */
  lemma CanonicalBalancesPermute(s: seq<Balance>, t: seq<Balance>)
    requires multiset(s) == multiset(t)
    ensures CanonicalBalances(s) == CanonicalBalances(t)
    ensures NamedOnce(s) ==> NamedOnce(t) && MapOf(s) == MapOf(t)
  {
    SortOrders(AssetOf, s);
    SortOrders(AssetOf, t);
    KeysPermute(AssetOf, SortByAsset(s), SortByAsset(t));
    OrderedUnique(Names(SortByAsset(s)), Names(SortByAsset(t)));
    CanonicalBalancesOfMap(s);
    CanonicalBalancesOfMap(t);
    if NamedOnce(s) {
      MapOfPermutes(s, t);
    }
  }

  lemma MapOfPermutes(s: seq<Balance>, t: seq<Balance>)
    requires multiset(s) == multiset(t) && NamedOnce(s) && NamedOnce(t)
    ensures MapOf(s) == MapOf(t)
  {
    MapOfListed(s);
    MapOfListed(t);
    SameMembers(s, t);
    var m, n := MapOf(s), MapOf(t);
    assert forall k :: k in m ==> Balance(k, m[k]) in t;
    assert forall k :: k in n ==> Balance(k, n[k]) in s;
  }

  lemma SameMembers(s: seq<Balance>, t: seq<Balance>)
    requires multiset(s) == multiset(t)
    ensures forall b :: b in s <==> b in t
  {
    forall b ensures b in s <==> b in t {
      assert b in s <==> b in multiset(s);
      assert b in t <==> b in multiset(t);
    }
  }
}
