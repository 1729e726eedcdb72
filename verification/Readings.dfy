/**
 What a joined text of sums leaves open. A text over `|`-free names has one `|`-free map behind it;
 a map whose names carry `|` can show the same text, and this is how it then relates to that map
 (solvency-merkle/src/lib.rs).
 */
module Readings {
  import opened ByteStrings
  import opened Amounts
  import opened Balances

  // ----- cutting at `|`

  /** The `|`-free pieces of a text. */
  function Pieces(t: Bytes): (r: seq<Bytes>)
    ensures r != [] && forall p :: p in r ==> PIPE !in p
    decreases |t|
  {
    var i := IndexOf(t, PIPE);
    if i == |t| then
      assert t[..i] == t;
      [t]
    else
      [t[..i]] + Pieces(t[i + 1..])
  }

  lemma IndexIs(t: Bytes, c: Byte, i: nat)
    requires i <= |t| && c !in t[..i] && (i < |t| ==> t[i] == c)
    ensures IndexOf(t, c) == i
  {
    assert forall j :: 0 <= j < i ==> t[..i][j] == t[j];
  }

  lemma {:induction false} PiecesJoined(x: Bytes, y: Bytes)
    ensures Pieces(x + [PIPE] + y) == Pieces(x) + Pieces(y)
    decreases |x|
  {
    var t, i := x + [PIPE] + y, IndexOf(x, PIPE);
    assert t[..i] == x[..i];
    IndexIs(t, PIPE, i);
    assert Pieces(t) == [t[..i]] + Pieces(t[i + 1..]);
    if i == |x| {
      assert x[..i] == x && t[i + 1..] == y;
    } else {
      assert t[i + 1..] == x[i + 1..] + [PIPE] + y;
      PiecesJoined(x[i + 1..], y);
      Reassociate([x[..i]], Pieces(x[i + 1..]), Pieces(y));
    }
  }

  lemma Reassociate(a: seq<Bytes>, b: seq<Bytes>, c: seq<Bytes>)
    ensures a + (b + c) == (a + b) + c
  {
  }

  /** All but the last piece, and the last. */
  function Front(t: Bytes): seq<Bytes> {
    Pieces(t)[..|Pieces(t)| - 1]
  }

  function Last(t: Bytes): Bytes {
    Pieces(t)[|Pieces(t)| - 1]
  }

  lemma {:induction false} PiecesAppended(x: Bytes, y: Bytes)
    requires PIPE !in y
    ensures Pieces(x + y) == Front(x) + [Last(x) + y]
    decreases |x|
  {
    var t, i := x + y, IndexOf(x, PIPE);
    if i == |x| {
      assert x[..i] == x && t[..|t|] == t;
      IndexIs(t, PIPE, |t|);
    } else {
      assert t[..i] == x[..i];
      IndexIs(t, PIPE, i);
      assert t[i + 1..] == x[i + 1..] + y;
      PiecesAppended(x[i + 1..], y);
    }
  }

  lemma PiecesOfPlain(t: Bytes)
    requires PIPE !in t
    ensures Pieces(t) == [t] && Front(t) == [] && Last(t) == t
  {
    assert t[..|t|] == t;
    IndexIs(t, PIPE, |t|);
  }

  /** The amount after a name belongs to the name's last piece. */
  lemma PiecesOfEntry(k: Bytes, v: nat)
    ensures Pieces(Entry(k, v)) == Front(k) + [Entry(Last(k), v)]
  {
    var tail := [COLON] + FormatAmount(v);
    PiecesAppended(k, tail);
    assert k + tail == Entry(k, v) && Last(k) + tail == Entry(Last(k), v);
  }

  // ----- the pieces of a joined text

  function Flat(parts: seq<Bytes>): seq<Bytes> {
    if parts == [] then [] else Pieces(parts[0]) + Flat(parts[1..])
  }

  lemma {:induction false} PiecesOfJoin(parts: seq<Bytes>)
    requires parts != []
    ensures Pieces(Join(parts)) == Flat(parts)
  {
    if |parts| > 1 {
      PiecesJoined(parts[0], Join(parts[1..]));
      PiecesOfJoin(parts[1..]);
    } else {
      assert Flat(parts[1..]) == [];
    }
  }

  lemma {:induction false} FlatOfPlain(parts: seq<Bytes>)
    requires forall i :: 0 <= i < |parts| ==> PIPE !in parts[i]
    ensures Flat(parts) == parts
  {
    if parts != [] {
      PiecesOfPlain(parts[0]);
      FlatOfPlain(parts[1..]);
      assert parts == [parts[0]] + parts[1..];
    }
  }

  /** A piece of the whole is a piece of some part, and the other way round. */
  lemma {:induction false} FlatMembers(parts: seq<Bytes>, p: Bytes)
    ensures p in Flat(parts) <==> exists i :: 0 <= i < |parts| && p in Pieces(parts[i])
  {
    if parts != [] {
      FlatMembers(parts[1..], p);
      assert forall i :: 0 <= i < |parts[1..]| ==> parts[1..][i] == parts[i + 1];
      if p in Flat(parts) && p !in Pieces(parts[0]) {
        var i :| 0 <= i < |parts[1..]| && p in Pieces(parts[1..][i]);
        assert p in Pieces(parts[i + 1]);
      }
      if i :| 0 < i < |parts| && p in Pieces(parts[i]) {
        assert parts[1..][i - 1] == parts[i];
      }
    }
  }

  /** A piece of two different parts occurs twice. */
  lemma {:induction false} FlatRepeats(parts: seq<Bytes>, p: Bytes, i: nat, j: nat)
    requires i < j < |parts| && p in Pieces(parts[i]) && p in Pieces(parts[j])
    ensures multiset(Flat(parts))[p] >= 2
  {
    assert Flat(parts) == Pieces(parts[0]) + Flat(parts[1..]);
    hide Pieces, Flat;
    if i == 0 {
      assert parts[1..][j - 1] == parts[j];
      FlatMembers(parts[1..], p);
      CountsAdd(Pieces(parts[0]), Flat(parts[1..]), p);
    } else {
      FlatRepeats(parts[1..], p, i - 1, j - 1);
    }
  }

  lemma CountsAdd(s: seq<Bytes>, t: seq<Bytes>, p: Bytes)
    requires p in s && p in t
    ensures multiset(s + t)[p] >= 2
  {
    assert p in multiset(s) && p in multiset(t);
  }

  // ----- two maps that show one text

  /** `m` shows the text that the `|`-free map `n` has. */
  ghost predicate Shows(m: Totals, n: Totals) {
    Canonical(m) == Canonical(n) && PipeFree(n)
  }

  /** Every entry of the `|`-free map, and nothing else, is a piece of an entry of the other. */
  lemma ShownEntries(m: Totals, n: Totals)
    requires Shows(m, n)
    ensures Flat(Entries(SortedKeys(m.Keys), m)) == Entries(SortedKeys(n.Keys), n)
  {
    hide Join, Pieces, Entry;
    var es, ns := Entries(SortedKeys(m.Keys), m), Entries(SortedKeys(n.Keys), n);
    EntriesSeparable(SortedKeys(n.Keys), n);
    JoinEmpty(SortedKeys(m.Keys), m);
    JoinEmpty(SortedKeys(n.Keys), n);
    FlatOfPlain(ns);
    if es != [] {
      PiecesOfJoin(es);
      PiecesOfJoin(ns);
    }
  }

  lemma JoinEmpty(keys: seq<Bytes>, m: Totals)
    requires forall k :: k in keys ==> k in m
    ensures Join(Entries(keys, m)) == [] <==> Entries(keys, m) == []
  {
    if keys != [] {
      assert keys[0] in keys;
      assert Entries(keys, m)[0] == Entry(keys[0], m[keys[0]]) != [];
    }
  }

  lemma EntryOf(m: Totals, k: Bytes) returns (i: nat)
    requires k in m
    ensures i < |SortedKeys(m.Keys)| && SortedKeys(m.Keys)[i] == k
    ensures Entries(SortedKeys(m.Keys), m)[i] == Entry(k, m[k])
  {
    var keys := SortedKeys(m.Keys);
    assert k in keys;
    i :| 0 <= i < |keys| && keys[i] == k;
  }

  /** A piece of an entry of `m` is an entry of `n`. */
  lemma PieceIsEntry(m: Totals, n: Totals, k: Bytes, p: Bytes) returns (a: Bytes)
    requires Shows(m, n) && k in m && p in Pieces(Entry(k, m[k]))
    ensures a in n && p == Entry(a, n[a])
  {
    hide Pieces, Entry, Canonical;
    ShownEntries(m, n);
    var i := EntryOf(m, k);
    FlatMembers(Entries(SortedKeys(m.Keys), m), p);
    var ns := SortedKeys(n.Keys);
    var j :| 0 <= j < |Entries(ns, n)| && Entries(ns, n)[j] == p;
    a := ns[j];
    assert a in ns;
  }

  /** A `|`-free name of `m` is a name of `n` with the same amount. */
  lemma PlainEntryShown(m: Totals, n: Totals, k: Bytes)
    requires Shows(m, n) && k in m && PIPE !in k
    ensures k in n && n[k] == m[k]
  {
    PiecesOfEntry(k, m[k]);
    PiecesOfPlain(k);
    var a := PieceIsEntry(m, n, k, Entry(k, m[k]));
    EntryInjective(k, m[k], a, n[a]);
  }

  /** An entry of `n` is a piece of some entry of `m`. */
  lemma EntryHasSource(m: Totals, n: Totals, a: Bytes) returns (k: Bytes)
    requires Shows(m, n) && a in n
    ensures k in m && Entry(a, n[a]) in Pieces(Entry(k, m[k]))
  {
    hide Pieces, Entry, Canonical;
    ShownEntries(m, n);
    var j := EntryOf(n, a);
    var es, keys := Entries(SortedKeys(m.Keys), m), SortedKeys(m.Keys);
    assert Entry(a, n[a]) in Entries(SortedKeys(n.Keys), n);
    FlatMembers(es, Entry(a, n[a]));
    var i :| 0 <= i < |es| && Entry(a, n[a]) in Pieces(es[i]);
    k := keys[i];
    assert k in keys;
  }

  /** No entry of `n` is a piece of two entries of `m`. */
  lemma SourceOnce(m: Totals, n: Totals, k: Bytes, l: Bytes, p: Bytes)
    requires Shows(m, n) && k in m && l in m
    requires p in Pieces(Entry(k, m[k])) && p in Pieces(Entry(l, m[l]))
    ensures k == l
  {
    hide Pieces, Entry, Canonical, Flat;
    if k != l {
      ShownEntries(m, n);
      var i := EntryOf(m, k);
      var j := EntryOf(m, l);
      EntriesDistinct(n);
      NotInTwo(Entries(SortedKeys(m.Keys), m), p, i, j);
    }
  }

  lemma NotInTwo(parts: seq<Bytes>, p: Bytes, i: nat, j: nat)
    requires i < |parts| && j < |parts| && p in Pieces(parts[i]) && p in Pieces(parts[j])
    requires forall x, y :: 0 <= x < y < |Flat(parts)| ==> Flat(parts)[x] != Flat(parts)[y]
    ensures i == j
  {
    hide Pieces, Flat;
    CountOnce(Flat(parts), p);
    if i < j {
      FlatRepeats(parts, p, i, j);
    } else if j < i {
      FlatRepeats(parts, p, j, i);
    }
  }

  lemma EntriesDistinct(n: Totals)
    ensures
      var es := Entries(SortedKeys(n.Keys), n);
      forall i, j :: 0 <= i < j < |es| ==> es[i] != es[j]
  {
    var ns := SortedKeys(n.Keys);
    var es := Entries(ns, n);
    forall i, j | 0 <= i < j < |es| ensures es[i] != es[j] {
      assert ns[i] in ns && ns[j] in ns;
      BeforeIrreflexive(ns[i]);
      if es[i] == es[j] {
        EntryInjective(ns[i], n[ns[i]], ns[j], n[ns[j]]);
      }
    }
  }

  lemma {:induction false} CountOnce(s: seq<Bytes>, p: Bytes)
    requires forall i, j :: 0 <= i < j < |s| ==> s[i] != s[j]
    ensures multiset(s)[p] <= 1
  {
    if s != [] {
      CountOnce(s[1..], p);
      assert s == [s[0]] + s[1..];
      if s[0] == p {
        assert p !in s[1..];
      }
    }
  }

  // ----- when the amounts agree too

  predicate IsZeroEntry(p: Bytes) {
    var zero := [COLON] + FormatAmount(0);
    |zero| <= |p| && p[|p| - |zero|..] == zero
  }

  lemma ZeroEntry(a: Bytes, v: nat)
    ensures IsZeroEntry(Entry(a, v)) <==> v == 0
  {
    hide FormatAmount;
    var zero, p := [COLON] + FormatAmount(0), Entry(a, v);
    if v == 0 {
      assert p == a + zero;
    }
    if IsZeroEntry(p) {
      var head := p[..|p| - |zero|];
      assert p == head + [COLON] + FormatAmount(0) == Entry(head, 0);
      EntryInjective(a, v, head, 0);
    }
  }

  /** A name with `|` spells entries before its last piece: all of them of nothing. */
  predicate SpellsZeros(k: Bytes) {
    forall i :: 0 <= i < |Front(k)| ==> IsZeroEntry(Front(k)[i])
  }

  /** Every name with `|` is worth nothing and spells only entries of nothing. */
  predicate HidesNothing(m: Totals) {
    forall k :: k in m && PIPE in k ==> m[k] == 0 && SpellsZeros(k)
  }

  lemma PipeFreeHidesNothing(m: Totals)
    requires PipeFree(m)
    ensures HidesNothing(m)
  {
  }

  /** What a piece of an entry can be. */
  lemma PieceOfEntry(k: Bytes, v: nat, p: Bytes)
    requires p in Pieces(Entry(k, v))
    ensures p in Front(k) || p == Entry(Last(k), v)
  {
    PiecesOfEntry(k, v);
  }

  /** Nothing hidden: the map means, up to zeros, what its text says. */
  lemma NothingHiddenAgrees(m: Totals, n: Totals, x: Bytes)
    requires Shows(m, n) && HidesNothing(m)
    ensures At(m, x) == At(n, x)
  {
    hide Canonical, Pieces, Entry, SpellsZeros, IsZeroEntry;
    if x in m && PIPE !in x {
      PlainEntryShown(m, n, x);
    } else if x !in m && x in n {
      var k := EntryHasSource(m, n, x);
      PieceOfEntry(k, m[k], Entry(x, n[x]));
      if PIPE in k {
        ZeroPiece(k, m[k], Entry(x, n[x]));
        ZeroEntry(x, n[x]);
      } else {
        PiecesOfPlain(k);
        EntryInjective(x, n[x], k, m[k]);
      }
    }
  }

  lemma ZeroPiece(k: Bytes, v: nat, p: Bytes)
    requires SpellsZeros(k) && v == 0 && (p in Front(k) || p == Entry(Last(k), v))
    ensures IsZeroEntry(p)
  {
    hide Entry, IsZeroEntry;
    ZeroEntry(Last(k), v);
  }

  /** And if the amounts agree up to zeros, nothing is hidden. */
  lemma AgreeingHidesNothing(m: Totals, n: Totals, k: Bytes)
    requires Shows(m, n) && SameAmounts(m, n) && k in m && PIPE in k
    ensures m[k] == 0 && SpellsZeros(k)
  {
    hide Canonical, Pieces, Entry, IsZeroEntry;
    assert At(m, k) == At(n, k);
    forall i | 0 <= i < |Front(k)| ensures IsZeroEntry(Front(k)[i]) {
      FrontIsZero(m, n, k, i);
    }
  }

  lemma FrontIsZero(m: Totals, n: Totals, k: Bytes, i: nat)
    requires Shows(m, n) && SameAmounts(m, n) && k in m && PIPE in k && i < |Front(k)|
    ensures IsZeroEntry(Front(k)[i])
  {
    hide Canonical, Pieces, Entry, IsZeroEntry, Front, Last;
    var p := Front(k)[i];
    PiecesOfEntry(k, m[k]);
    assert (Front(k) + [Entry(Last(k), m[k])])[i] == p;
    var a := PieceIsEntry(m, n, k, p);
    ZeroEntry(a, n[a]);
    if n[a] != 0 {
      assert At(m, a) == At(n, a);
      PiecesOfEntry(a, m[a]);
      PiecesOfPlain(a);
      SourceOnce(m, n, k, a, p);
    }
  }

  /** A map and the `|`-free map of its text agree up to zeros exactly when no name hides anything. */
  lemma AgreesExactly(m: Totals, n: Totals)
    requires Shows(m, n)
    ensures SameAmounts(m, n) <==> HidesNothing(m)
  {
    hide Shows, SpellsZeros;
    if HidesNothing(m) {
      forall x | x in m.Keys + n.Keys ensures At(m, x) == At(n, x) {
        NothingHiddenAgrees(m, n, x);
      }
    }
    if SameAmounts(m, n) {
      forall k | k in m && PIPE in k ensures m[k] == 0 && SpellsZeros(k) {
        AgreeingHidesNothing(m, n, k);
      }
    }
  }
}
