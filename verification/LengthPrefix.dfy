/**
 Length-prefixed encodings: `lp` and `lpmap`, each of which marks its own end
 (solvency-merkle/src/lib.rs, solvency-report/src/digest.rs).
 */
module LengthPrefix {
  import opened ByteStrings
  import opened Amounts

  /** A `BTreeMap<String, u128>`; its entry count fits the `u64` that `lpmap` writes. */
  type AmountMap = m: map<Text, Amount> | |m| < U64_SIZE

  /** `lp` */
  function Lp(s: Text): Bytes {
    U64Le(|s|) + s
  }

  /** Names and rendered amounts, each length-prefixed, in turn. */
  function LpPairs(names: seq<Text>, rendered: seq<Text>): Bytes
    requires |names| == |rendered|
  {
    if names == [] then [] else Lp(names[0]) + Lp(rendered[0]) + LpPairs(names[1..], rendered[1..])
  }

  function Rendered(names: seq<Text>, m: AmountMap): (r: seq<Text>)
    requires forall k :: k in names ==> k in m
    ensures |r| == |names|
    ensures forall i :: 0 <= i < |r| ==> r[i] == FormatAmount(m[names[i]])
  {
    seq(|names|, i requires 0 <= i < |names| => assert names[i] in names; FormatText(m[names[i]]))
  }

  /** `lpmap` */
  function LpMap(m: AmountMap): Bytes {
    var names := KeysOf(m);
    U64Le(|m|) + LpPairs(names, Rendered(names, m))
  }

  /** A length-prefixed string ends where it says it does. */
  lemma LpPrefix(a: Text, x: Bytes, b: Text, y: Bytes)
    requires Lp(a) + x == Lp(b) + y
    ensures a == b && x == y
  {
    assert Lp(a) + x == U64Le(|a|) + (a + x) && Lp(b) + y == U64Le(|b|) + (b + y);
    SplitAt(U64Le(|a|), a + x, U64Le(|b|), b + y);
    U64LeInjective(|a|, |b|);
    SplitAt(a, x, b, y);
  }

  lemma Regroup(p: Bytes, q: Bytes, r: Bytes, x: Bytes)
    ensures (p + q + r) + x == p + (q + (r + x))
  {
  }

  lemma {:induction false} LpPairsPrefix(ks: seq<Text>, vs: seq<Text>, x: Bytes, ls: seq<Text>, ws: seq<Text>, y: Bytes)
    requires |ks| == |vs| == |ls| == |ws|
    requires LpPairs(ks, vs) + x == LpPairs(ls, ws) + y
    ensures x == y && ks == ls && vs == ws
  {
    if ks == [] {
      assert LpPairs(ks, vs) + x == x && LpPairs(ls, ws) + y == y;
    } else {
      var p, q := LpPairs(ks[1..], vs[1..]), LpPairs(ls[1..], ws[1..]);
      Regroup(Lp(ks[0]), Lp(vs[0]), p, x);
      Regroup(Lp(ls[0]), Lp(ws[0]), q, y);
      LpPrefix(ks[0], Lp(vs[0]) + (p + x), ls[0], Lp(ws[0]) + (q + y));
      LpPrefix(vs[0], p + x, ws[0], q + y);
      LpPairsPrefix(ks[1..], vs[1..], x, ls[1..], ws[1..], y);
      assert ks == [ks[0]] + ks[1..] && ls == [ls[0]] + ls[1..];
      assert vs == [vs[0]] + vs[1..] && ws == [ws[0]] + ws[1..];
    }
  }

  /** An amount map is self-delimiting whatever its names contain. */
  lemma LpMapPrefix(m: AmountMap, x: Bytes, n: AmountMap, y: Bytes)
    requires LpMap(m) + x == LpMap(n) + y
    ensures m == n && x == y
  {
    var ks, ls := KeysOf(m), KeysOf(n);
    CountedPrefix(|m|, ks, Rendered(ks, m), x, |n|, ls, Rendered(ls, n), y);
    RenderedInjective(ks, m, n);
    SameOnNames(ks, m, n);
  }

  lemma SameOnNames(names: seq<Text>, m: AmountMap, n: AmountMap)
    requires forall k :: (k in names <==> k in m) && (k in names <==> k in n)
    requires forall k :: k in names ==> m[k] == n[k]
    ensures m == n
  {
    assert forall k :: k in m ==> k in names;
  }

  lemma CountedPrefix(
    c: nat, ks: seq<Text>, vs: seq<Text>, x: Bytes, d: nat, ls: seq<Text>, ws: seq<Text>, y: Bytes)
    requires |ks| == |vs| == c < U64_SIZE && |ls| == |ws| == d < U64_SIZE
    requires (U64Le(c) + LpPairs(ks, vs)) + x == (U64Le(d) + LpPairs(ls, ws)) + y
    ensures x == y && ks == ls && vs == ws
  {
    var p, q := LpPairs(ks, vs), LpPairs(ls, ws);
    SplitHead(U64Le(c), p, x, U64Le(d), q, y);
    U64LeInjective(c, d);
    LpPairsPrefix(ks, vs, x, ls, ws, y);
  }

  lemma RenderedInjective(names: seq<Text>, m: AmountMap, n: AmountMap)
    requires forall k :: k in names ==> k in m && k in n
    requires Rendered(names, m) == Rendered(names, n)
    ensures forall k :: k in names ==> m[k] == n[k]
  {
    forall i | 0 <= i < |names| ensures m[names[i]] == n[names[i]] {
      assert names[i] in names;
      assert Rendered(names, m)[i] == Rendered(names, n)[i];
      FormatInjective(m[names[i]], n[names[i]]);
    }
  }

  lemma LpPairsStep(names: seq<Text>, rendered: seq<Text>, i: nat, out: Bytes)
    requires i < |names| == |rendered|
    ensures out + LpPairs(names[i..], rendered[i..])
         == (out + Lp(names[i]) + Lp(rendered[i])) + LpPairs(names[i + 1..], rendered[i + 1..])
  {
    assert names[i..][1..] == names[i + 1..] && rendered[i..][1..] == rendered[i + 1..];
    var p, q, r := Lp(names[i]), Lp(rendered[i]), LpPairs(names[i + 1..], rendered[i + 1..]);
    assert out + (p + q + r) == (out + p + q) + r;
  }

  /** `lpmap`, as the loop over the sorted map that the source runs. */
  method EncodeAmounts(m: AmountMap) returns (out: Bytes)
    ensures out == LpMap(m)
  {
    hide Lp, U64Le, FormatAmount, FormatText, LpPairs, KeysOf;
    var names := KeysOf(m);
    ghost var rendered := Rendered(names, m);
    out := U64Le(|m|);
    for i := 0 to |names|
      invariant out + LpPairs(names[i..], rendered[i..]) == LpMap(m)
    {
      LpPairsStep(names, rendered, i, out);
      assert names[i] in names;
      var amount := FormatText(m[names[i]]);
      assert amount == rendered[i];
      out := out + Lp(names[i]);
      out := out + Lp(amount);
    }
    LpPairsEnd(names, rendered);
  }

  lemma LpPairsEnd(names: seq<Text>, rendered: seq<Text>)
    requires |names| == |rendered|
    ensures LpPairs(names[|names|..], rendered[|rendered|..]) == []
  {
  }
}
