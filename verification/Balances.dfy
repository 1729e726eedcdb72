/**
 Per-asset sums and the `asset:amount|asset:amount` text of them that leaf and node hashes cover
 (solvency-merkle/src/lib.rs).
 */
module Balances {
  import opened ByteStrings
  import opened Amounts

  /** Sums as mathematics has them. */
  type Totals = map<Bytes, nat>

  /** Sums as a `BTreeMap<String, u128>` holds them. */
  type Sums = map<Bytes, Amount>

  function At(m: Totals, asset: Bytes): nat {
    if asset in m then m[asset] else 0
  }

  /** Per-asset addition; the keys of both sides stay, zero or not. */
  function Plus(l: Totals, r: Totals): Totals {
    map a | a in l.Keys + r.Keys :: At(l, a) + At(r, a)
  }

  predicate Fits(t: Totals) {
    forall a :: a in t ==> t[a] <= U128_MAX
  }

  /** Absent and zero are the same claim. */
  predicate SameAmounts(l: Totals, r: Totals) {
    forall a :: a in l.Keys + r.Keys ==> At(l, a) == At(r, a)
  }

  lemma SameAmountsAt(l: Totals, r: Totals, asset: Bytes)
    requires SameAmounts(l, r)
    ensures At(l, asset) == At(r, asset)
  {
  }

  predicate PipeFree(m: Totals) {
    forall a :: a in m ==> PIPE !in a
  }

  lemma PlusAt(l: Totals, r: Totals, a: Bytes)
    ensures At(Plus(l, r), a) == At(l, a) + At(r, a)
  {
  }

  lemma PlusEmpty(m: Totals)
    ensures Plus(m, map[]) == m && Plus(map[], m) == m
  {
  }

  lemma PlusAssociative(a: Totals, b: Totals, c: Totals)
    ensures Plus(Plus(a, b), c) == Plus(a, Plus(b, c))
  {
    var l, r := Plus(Plus(a, b), c), Plus(a, Plus(b, c));
    assert l.Keys == r.Keys;
    forall k | k in l ensures l[k] == r[k] {
      hide Plus;
      PlusAt(Plus(a, b), c, k);
      PlusAt(a, b, k);
      PlusAt(a, Plus(b, c), k);
      PlusAt(b, c, k);
    }
  }

  lemma PlusCommutes(a: Totals, b: Totals)
    ensures Plus(a, b) == Plus(b, a)
  {
  }

  // ----- the delimiter join

  function Entry(asset: Bytes, v: nat): Bytes {
    asset + [COLON] + FormatAmount(v)
  }

  function Join(parts: seq<Bytes>): Bytes {
    if parts == [] then []
    else if |parts| == 1 then parts[0]
    else parts[0] + [PIPE] + Join(parts[1..])
  }

  function Entries(keys: seq<Bytes>, m: Totals): seq<Bytes>
    requires forall k :: k in keys ==> k in m
  {
    seq(|keys|, i requires 0 <= i < |keys| => assert keys[i] in keys; Entry(keys[i], m[keys[i]]))
  }

  /** `sums_canonical` */
  function Canonical(m: Totals): Bytes {
    Join(Entries(SortedKeys(m.Keys), m))
  }

  lemma {:induction false} JoinSnoc(xs: seq<Bytes>, y: Bytes)
    ensures Join(xs + [y]) == (if xs == [] then [] else Join(xs) + Ascii("|")) + y
  {
    if |xs| > 1 {
      assert (xs + [y])[1..] == xs[1..] + [y];
      JoinSnoc(xs[1..], y);
    } else if |xs| == 1 {
      assert (xs + [y])[1..] == [y];
    }
  }

  /** The text of a map grows at its end: each further name comes after a bar, with its amount after a colon. */
  lemma CanonicalGrows(m: Totals, k: Bytes, v: nat)
    requires forall x :: x in m ==> Before(x, k)
    ensures Canonical(m[k := v])
         == (if m == map[] then [] else Canonical(m) + Ascii("|")) + k + Ascii(":") + FormatAmount(v)
    ensures Canonical(map[]) == []
  {
    NoEntries();
    hide FormatAmount, Before, Join, SortedKeys, Entry, Entries;
    var keys, more := SortedKeys(m.Keys), m[k := v];
    KeysGrow(m, k, v);
    EntriesGrow(keys, m, k, v);
    JoinSnoc(Entries(keys, m), Entry(k, v));
    EntrySpelt(k, v);
    assert m == map[] <==> |m.Keys| == 0;
    assert |Entries(keys, m)| == |keys| by { EntriesLength(keys, m); }
    var head := if m == map[] then [] else Canonical(m) + Ascii("|");
    assert head + (k + Ascii(":") + FormatAmount(v)) == head + k + Ascii(":") + FormatAmount(v);
  }

  lemma EntriesLength(keys: seq<Bytes>, m: Totals)
    requires forall x :: x in keys ==> x in m
    ensures |Entries(keys, m)| == |keys|
  {
  }

  lemma NoEntries()
    ensures Canonical(map[]) == []
  {
  }

  lemma EntrySpelt(k: Bytes, v: nat)
    ensures Entry(k, v) == k + Ascii(":") + FormatAmount(v)
  {
    hide FormatAmount;
    assert Ascii(":") == [COLON];
  }

  lemma KeysGrow(m: Totals, k: Bytes, v: nat)
    requires forall x :: x in m ==> Before(x, k)
    ensures SortedKeys(m[k := v].Keys) == SortedKeys(m.Keys) + [k] && k !in m
  {
    hide Before, SortedKeys;
    BeforeIrreflexive(k);
    var keys := SortedKeys(m.Keys);
    assert forall i :: 0 <= i < |keys| ==> keys[i] in keys;
    assert forall x :: x in keys + [k] <==> x in m[k := v].Keys;
    SortedKeysUnique(keys + [k], m[k := v].Keys);
  }

  lemma EntriesGrow(keys: seq<Bytes>, m: Totals, k: Bytes, v: nat)
    requires k !in m && forall x :: x in keys ==> x in m
    ensures forall x :: x in keys + [k] ==> x in m[k := v]
    ensures Entries(keys + [k], m[k := v]) == Entries(keys, m) + [Entry(k, v)]
  {
    hide Entry;
    assert forall i :: 0 <= i < |keys| ==> keys[i] in keys;
  }

  lemma {:induction false} JoinInjective(xs: seq<Bytes>, ys: seq<Bytes>)
    requires forall i :: 0 <= i < |xs| ==> xs[i] != [] && PIPE !in xs[i]
    requires forall i :: 0 <= i < |ys| ==> ys[i] != [] && PIPE !in ys[i]
    requires Join(xs) == Join(ys)
    ensures xs == ys
  {
    JoinShape(xs);
    JoinShape(ys);
    if |xs| > 1 {
      SplitAtFirst(xs[0], Join(xs[1..]), ys[0], Join(ys[1..]), PIPE);
      JoinInjective(xs[1..], ys[1..]);
      assert xs == [xs[0]] + xs[1..] && ys == [ys[0]] + ys[1..];
    }
  }

  lemma JoinShape(xs: seq<Bytes>)
    requires forall i :: 0 <= i < |xs| ==> xs[i] != [] && PIPE !in xs[i]
    ensures xs == [] <==> Join(xs) == []
    ensures |xs| > 1 <==> PIPE in Join(xs)
  {
    if |xs| > 1 {
      assert Join(xs)[|xs[0]|] == PIPE;
    }
  }

  lemma EntryInjective(a: Bytes, v: nat, b: Bytes, w: nat)
    requires Entry(a, v) == Entry(b, w)
    ensures a == b && v == w
  {
    SplitAtLast(a, FormatAmount(v), b, FormatAmount(w), COLON);
    FormatInjective(v, w);
  }

  lemma EntriesSeparable(keys: seq<Bytes>, m: Totals)
    requires forall k :: k in keys ==> k in m
    requires PipeFree(m)
    ensures forall i :: 0 <= i < |keys| ==> Entries(keys, m)[i] != [] && PIPE !in Entries(keys, m)[i]
  {
    forall i | 0 <= i < |keys| ensures PIPE !in Entries(keys, m)[i] {
      assert keys[i] in keys;
    }
  }

  /** On `|`-free names the joined text determines the whole map, explicit zeros included. */
  lemma CanonicalInjective(m: Totals, n: Totals)
    requires PipeFree(m) && PipeFree(n) && Canonical(m) == Canonical(n)
    ensures m == n
  {
    hide Join, FormatAmount;
    var ks, ls := SortedKeys(m.Keys), SortedKeys(n.Keys);
    EntriesSeparable(ks, m);
    EntriesSeparable(ls, n);
    JoinInjective(Entries(ks, m), Entries(ls, n));
    EntriesInjective(ks, m, ls, n);
    SameOnKeys(ks, m, n);
  }

  lemma EntriesInjective(ks: seq<Bytes>, m: Totals, ls: seq<Bytes>, n: Totals)
    requires (forall k :: k in ks ==> k in m) && (forall l :: l in ls ==> l in n)
    requires Entries(ks, m) == Entries(ls, n)
    ensures ks == ls && forall i :: 0 <= i < |ks| ==> m[ks[i]] == n[ks[i]]
  {
    assert |Entries(ks, m)| == |ks| && |Entries(ls, n)| == |ls|;
    forall i | 0 <= i < |ks| ensures ks[i] == ls[i] && m[ks[i]] == n[ls[i]] {
      assert Entries(ks, m)[i] == Entries(ls, n)[i];
      EntryInjective(ks[i], m[ks[i]], ls[i], n[ls[i]]);
    }
  }

  lemma SameOnKeys(ks: seq<Bytes>, m: Totals, n: Totals)
    requires forall k :: (k in ks <==> k in m) && (k in ks <==> k in n)
    requires forall i :: 0 <= i < |ks| ==> m[ks[i]] == n[ks[i]]
    ensures m == n
  {
    forall k | k in m ensures m[k] == n[k] {
      assert k in ks;
    }
  }

  lemma CanonicalOfOne(a: Bytes, v: nat)
    ensures Canonical(map[a := v]) == Entry(a, v)
  {
    SortedKeysUnique([a], map[a := v].Keys);
    assert Entries([a], map[a := v]) == [Entry(a, v)];
  }

  lemma CanonicalOfTwo(a: Bytes, v: nat, b: Bytes, w: nat)
    requires Before(a, b)
    ensures Canonical(map[a := v, b := w]) == Entry(a, v) + [PIPE] + Entry(b, w)
  {
    hide Entry, Join, Before;
    BeforeIrreflexive(a);
    var m := map[a := v, b := w];
    SortedKeysUnique([a, b], m.Keys);
    assert Entries([a, b], m) == [Entry(a, v), Entry(b, w)];
    JoinOfTwo(Entry(a, v), Entry(b, w));
  }

  lemma JoinOfTwo(p: Bytes, q: Bytes)
    ensures Join([p, q]) == p + [PIPE] + q
  {
    assert [p, q][1..] == [q];
    assert Join([q]) == q;
  }

  /**
   The names have to be `|`-free: one entry with a crafted name reads exactly as any two honest
   entries do. This is the ambiguity solvency-merkle/src/lib.rs:175-178 admits for v1 leaves.
   */
  lemma CanonicalForgery(a: Bytes, v: Amount, b: Bytes, w: Amount)
    requires Before(a, b) && PIPE !in a && PIPE !in b
    ensures Canonical(map[Entry(a, v) + [PIPE] + b := w]) == Canonical(map[a := v, b := w])
    ensures map[Entry(a, v) + [PIPE] + b := w] != map[a := v, b := w]
  {
    var crafted := Entry(a, v) + [PIPE] + b;
    CanonicalOfOne(crafted, w);
    CanonicalOfTwo(a, v, b, w);
    Regroup(Entry(a, v) + [PIPE], b, [COLON], FormatAmount(w));
    assert crafted[|Entry(a, v)|] == PIPE;
    assert crafted in map[crafted := w];
  }

  lemma Regroup(p: Bytes, q: Bytes, r: Bytes, t: Bytes)
    ensures p + q + r + t == p + (q + r + t)
  {
  }
}
