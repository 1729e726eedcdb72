/**
 Leaves of the sum tree: one subject's balances under a salt (v1), several named amount maps (v2),
 or an entity's own root in a group tree, each committed by a hash and carrying its sums
 (solvency-merkle/src/lib.rs, solvency-report/src/group.rs).
 */
module Leaves {
  import opened Wrappers
  import opened ByteStrings
  import opened Amounts
  import opened Balances
  import opened BalanceLists
  import opened LengthPrefix
  import opened Domains
  import Documents
  import Digests

  /** A tree node: a hash and the per-asset sums it commits to. */
  datatype Node = Node(hash: Digest, sums: Sums)

  type NamedMaps = m: map<Text, AmountMap> | |m| < U64_SIZE

  datatype LeafInput =
    | V1(salt: Digest, subject: Bytes, balances: seq<Balance>)
    | V2(salt: Digest, subject: Bytes, maps: NamedMaps)
    | Subsidiary(entity: Documents.Entity)

  datatype LeafError = Duplicate(asset: Bytes) | UnsafeMapName(name: Text) | UnsafeAssetName(name: Text)

  // ----- v2 names

  predicate IsSafeName(name: Bytes) {
    && name != []
    && forall i :: 0 <= i < |name| ==> IsSafeByte(name[i])
  }

  predicate IsSafeByte(b: Byte) {
    48 <= b <= 57 || 65 <= b <= 90 || 97 <= b <= 122 || b == 46 || b == 95 || b == 45
  }

  /** Which names are safe, by letters. */
  lemma SafeNameExactly(s: string)
    requires forall i :: 0 <= i < |s| ==> s[i] as int < 0x100
    ensures IsSafeName(Ascii(s)) <==>
      s != "" && forall i :: 0 <= i < |s| ==>
        || 'a' <= s[i] <= 'z' || 'A' <= s[i] <= 'Z' || '0' <= s[i] <= '9' || s[i] in {'.', '_', '-'}
  {
    forall i | 0 <= i < |s| ensures Ascii(s)[i] == s[i] as int {
    }
  }

  lemma LowercaseSafe(s: string)
    requires s != "" && forall i :: 0 <= i < |s| ==> 97 <= s[i] as int <= 122
    ensures IsSafeName(Ascii(s))
  {
  }

  predicate SafeMaps(maps: NamedMaps) {
    forall n :: n in maps ==> SafeEntry(n, maps[n])
  }

  predicate SafeEntry(name: Bytes, amounts: AmountMap) {
    IsSafeName(name) && forall a :: a in amounts ==> IsSafeName(a)
  }

  /** `qualified` */
  function Qualified(mapName: Bytes, asset: Bytes): Bytes {
    mapName + [SLASH] + asset
  }

  lemma QualifiedInjective(m: Bytes, a: Bytes, n: Bytes, b: Bytes)
    requires IsSafeName(m) && IsSafeName(n) && Qualified(m, a) == Qualified(n, b)
    ensures m == n && a == b
  {
    SplitAtFirst(m, a, n, b, SLASH);
  }

  lemma QualifiedHasNoPipe(m: Bytes, a: Bytes)
    requires IsSafeName(m) && IsSafeName(a)
    ensures PIPE !in Qualified(m, a)
  {
  }

  /** The keys of one named map, qualified. */
  function Qualify(mapName: Bytes, amounts: AmountMap): Sums
    requires IsSafeName(mapName)
    requires forall a :: a in amounts ==> IsSafeName(a)
    ensures PipeFree(Qualify(mapName, amounts))
  {
    assert forall a, b | Qualified(mapName, a) == Qualified(mapName, b) :: a == b by {
      forall a, b | Qualified(mapName, a) == Qualified(mapName, b) ensures a == b {
        QualifiedInjective(mapName, a, mapName, b);
      }
    }
    assert forall a | a in amounts :: PIPE !in Qualified(mapName, a) by {
      forall a | a in amounts ensures PIPE !in Qualified(mapName, a) {
        QualifiedHasNoPipe(mapName, a);
      }
    }
    map a | a in amounts :: Qualified(mapName, a) := amounts[a]
  }

  /** Every listed map flattened under qualified keys. */
  function QualifiedSums(names: seq<Text>, maps: NamedMaps): (r: Sums)
    requires SafeMaps(maps) && forall n :: n in names ==> n in maps
    ensures PipeFree(r)
  {
    if names == [] then
      map[]
    else
      assert names[0] in names;
      Qualify(names[0], maps[names[0]]) + QualifiedSums(names[1..], maps)
  }

  // ----- leaf hashes and nodes

  /** The inputs `leaf_node` and `leaf_node_v2` accept. */
  predicate Admissible(input: LeafInput) {
    match input
    case V1(_, _, balances) => NamedOnce(balances)
    case V2(_, _, maps) => SafeMaps(maps)
    case Subsidiary(_) => true
  }

  function LeafSums(input: LeafInput): Sums
    requires Admissible(input)
  {
    match input
    case V1(_, _, balances) => MapOf(balances)
    case V2(_, _, maps) => QualifiedSums(KeysOf(maps), maps)
    case Subsidiary(e) => e.rootSums
  }

  function MapsBytes(names: seq<Text>, maps: NamedMaps): Bytes
    requires forall n :: n in names ==> n in maps
  {
    if names == [] then
      []
    else
      assert names[0] in names;
      Lp(names[0]) + LpMap(maps[names[0]]) + MapsBytes(names[1..], maps)
  }

  /** What the leaf hash covers after its domain, salt and hashed subject. */
  function Body(input: LeafInput): Bytes
    requires Admissible(input) && !input.Subsidiary?
  {
    match input
    case V1(_, _, balances) => Canonical(MapOf(balances))
    case V2(_, _, maps) => U64Le(|maps|) + MapsBytes(KeysOf(maps), maps)
  }

  function LeafDomain(input: LeafInput): Domain {
    match input
    case V1(_, _, _) => LeafV1
    case V2(_, _, _) => LeafV2
    case Subsidiary(_) => EntityV1
  }

  /** What a leaf preimage says after its domain. */
  function LeafTail(H: HashFn, input: LeafInput): Bytes
    requires Admissible(input)
  {
    if input.Subsidiary? then Digests.EntityTail(input.entity)
    else input.salt + (H(input.subject) + Body(input))
  }

  function LeafPreimage(H: HashFn, input: LeafInput): Bytes
    requires Admissible(input)
  {
    DomainBytes(LeafDomain(input)) + LeafTail(H, input)
  }

  function LeafNode(H: HashFn, input: LeafInput): Node
    requires Admissible(input)
  {
    Node(H(LeafPreimage(H, input)), LeafSums(input))
  }

  /** A v2 leaf with one amount in one map. */
  function OneMapLeaf(salt: Digest, subject: Bytes, name: Text, asset: Text, amount: Amount): LeafInput {
    V2(salt, subject, map[name := map[asset := amount]])
  }

  lemma OneMapAdmissible(salt: Digest, subject: Bytes, name: Text, asset: Text, amount: Amount)
    requires IsSafeName(name)
    ensures Admissible(OneMapLeaf(salt, subject, name, asset, amount)) <==> IsSafeName(asset)
  {
    hide IsSafeName;
    var amounts: AmountMap := map[asset := amount];
    var maps: NamedMaps := map[name := amounts];
    assert name in maps && maps[name] == amounts && asset in amounts;
    assert SafeMaps(maps) <==> SafeEntry(name, amounts);
  }

  lemma QualifiesOne(name: Text, asset: Text, amount: Amount)
    requires IsSafeName(name) && IsSafeName(asset)
    ensures Qualify(name, map[asset := amount]) == map[Qualified(name, asset) := amount]
  {
    hide IsSafeName;
  }

  /** A v2 leaf of one map has the sums of that map, qualified. */
  lemma SingleMapSums(salt: Digest, subject: Bytes, name: Text, amounts: AmountMap)
    requires SafeEntry(name, amounts)
    ensures Admissible(V2(salt, subject, map[name := amounts]))
    ensures LeafSums(V2(salt, subject, map[name := amounts])) == Qualify(name, amounts)
  {
    hide Qualify, Qualified;
    var maps: NamedMaps := map[name := amounts];
    assert SafeMaps(maps) by {
      hide SafeEntry;
    }
    SingleKey(name, maps);
    SingleSums(name, maps);
  }

  lemma SingleKey(name: Text, maps: NamedMaps)
    requires maps.Keys == {name}
    ensures KeysOf(maps) == [name]
  {
    SortedKeysUnique([name], maps.Keys);
  }

  lemma SingleSums(name: Text, maps: NamedMaps)
    requires SafeMaps(maps) && name in maps
    ensures SafeEntry(name, maps[name]) && QualifiedSums([name], maps) == Qualify(name, maps[name])
  {
    hide Qualify, IsSafeName;
    assert SafeEntry(name, maps[name]);
    assert [name][1..] == [] && QualifiedSums([], maps) == map[];
    assert QualifiedSums([name], maps) == Qualify(name, maps[name]) + map[];
  }

  lemma OneMapLeafSums(salt: Digest, subject: Bytes, name: Text, asset: Text, amount: Amount)
    requires IsSafeName(name) && IsSafeName(asset)
    ensures Admissible(OneMapLeaf(salt, subject, name, asset, amount))
    ensures LeafSums(OneMapLeaf(salt, subject, name, asset, amount)) == map[Qualified(name, asset) := amount]
  {
    hide IsSafeName, Qualify, Qualified, LeafSums, Admissible;
    QualifiesOne(name, asset, amount);
    SingleMapSums(salt, subject, name, map[asset := amount]);
  }

  /** Names the tree's own `|` join cannot confuse. Always so for a v2 leaf. */
  predicate Unambiguous(input: LeafInput) {
    Admissible(input) && PipeFree(LeafSums(input))
  }

  /**
   The same kind of leaf, salt and amounts as the preimage shows them: for v1 the joined text, which
   two different maps can share when a name carries `|`.
   */
  predicate ReadsAlike(a: LeafInput, b: LeafInput) {
    match (a, b)
    case (V1(s, _, m), V1(t, _, n)) => s == t && Canonical(MapOf(m)) == Canonical(MapOf(n))
    case (V2(s, _, m), V2(t, _, n)) => s == t && m == n
    case (Subsidiary(e), Subsidiary(f)) => e == f
    case _ => false
  }

  predicate SameHashedSubject(H: HashFn, a: LeafInput, b: LeafInput) {
    (!a.Subsidiary? && !b.Subsidiary?) ==> H(a.subject) == H(b.subject)
  }

  lemma {:induction false} MapsBytesPrefix(ks: seq<Text>, m: NamedMaps, ls: seq<Text>, n: NamedMaps)
    requires (forall k :: k in ks ==> k in m) && (forall l :: l in ls ==> l in n)
    requires |ks| == |ls| && MapsBytes(ks, m) == MapsBytes(ls, n)
    ensures ks == ls && forall k :: k in ks ==> m[k] == n[k]
  {
    hide Lp, LpMap;
    if ks != [] {
      var k, l := ks[0], ls[0];
      assert k in ks && l in ls;
      var p, q := MapsBytes(ks[1..], m), MapsBytes(ls[1..], n);
      TwoParts(k, m[k], p, l, n[l], q);
      MapsBytesPrefix(ks[1..], m, ls[1..], n);
      assert ks == [k] + ks[1..] && ls == [l] + ls[1..];
    }
  }

  lemma TwoParts(k: Text, m: AmountMap, p: Bytes, l: Text, n: AmountMap, q: Bytes)
    requires Lp(k) + LpMap(m) + p == Lp(l) + LpMap(n) + q
    ensures k == l && m == n && p == q
  {
    hide LpMap, Lp;
    assert Lp(k) + LpMap(m) + p == Lp(k) + (LpMap(m) + p);
    assert Lp(l) + LpMap(n) + q == Lp(l) + (LpMap(n) + q);
    LpPrefix(k, LpMap(m) + p, l, LpMap(n) + q);
    LpMapPrefix(m, p, n, q);
  }

  lemma NamedMapsInjective(m: NamedMaps, n: NamedMaps)
    requires U64Le(|m|) + MapsBytes(KeysOf(m), m) == U64Le(|n|) + MapsBytes(KeysOf(n), n)
    ensures m == n
  {
    hide U64Le, MapsBytes;
    var ks, ls := KeysOf(m), KeysOf(n);
    SplitAt(U64Le(|m|), MapsBytes(ks, m), U64Le(|n|), MapsBytes(ls, n));
    U64LeInjective(|m|, |n|);
    MapsBytesPrefix(ks, m, ls, n);
    SameListing(ks, m, n);
  }

  lemma SameListing(ks: seq<Text>, m: NamedMaps, n: NamedMaps)
    requires forall k :: k in ks <==> k in m
    requires forall k :: k in ks <==> k in n
    requires forall k :: k in ks ==> m[k] == n[k]
    ensures m == n
  {
    assert forall k :: k in m <==> k in n;
  }

  /** A leaf preimage determines kind, salt, hashed subject and the amounts as it spells them. */
  lemma LeafPreimageReads(H: HashFn, a: LeafInput, b: LeafInput)
    requires Admissible(a) && Admissible(b)
    requires LeafPreimage(H, a) == LeafPreimage(H, b)
    ensures ReadsAlike(a, b) && SameHashedSubject(H, a, b)
  {
    hide DomainBytes, LeafTail, MapOf, Canonical, Admissible;
    DomainsSeparate(LeafDomain(a), LeafTail(H, a), LeafDomain(b), LeafTail(H, b));
    if a.Subsidiary? {
      EntityLeafReads(H, a, b);
    } else {
      CustomerLeafReads(H, a, b);
    }
  }

  lemma EntityLeafReads(H: HashFn, a: LeafInput, b: LeafInput)
    requires a.Subsidiary? && b.Subsidiary? && LeafTail(H, a) == LeafTail(H, b)
    ensures a == b
  {
    Digests.EntityBound(a.entity, b.entity);
  }

  lemma CustomerLeafReads(H: HashFn, a: LeafInput, b: LeafInput)
    requires Admissible(a) && Admissible(b) && !a.Subsidiary? && a.V1? == b.V1? && !b.Subsidiary?
    requires LeafTail(H, a) == LeafTail(H, b)
    ensures ReadsAlike(a, b) && H(a.subject) == H(b.subject)
  {
    hide U64Le, MapsBytes, SafeMaps, NamedOnce, MapOf, Canonical;
    SplitAt(a.salt, H(a.subject) + Body(a), b.salt, H(b.subject) + Body(b));
    SplitAt(H(a.subject), Body(a), H(b.subject), Body(b));
    if a.V2? {
      NamedMapsInjective(a.maps, b.maps);
    }
  }

  /** Leaves that read alike show one text of amounts. */
  lemma ReadAlikeText(a: LeafInput, b: LeafInput)
    requires Admissible(a) && Admissible(b) && ReadsAlike(a, b)
    ensures Canonical(LeafSums(a)) == Canonical(LeafSums(b))
    ensures PipeFree(LeafSums(a)) && PipeFree(LeafSums(b)) ==> LeafSums(a) == LeafSums(b)
  {
    hide Canonical, QualifiedSums, MapOf, PipeFree;
    if PipeFree(LeafSums(a)) && PipeFree(LeafSums(b)) {
      CanonicalInjective(LeafSums(a), LeafSums(b));
    }
  }

  /** With `|`-free names a leaf preimage determines the amounts themselves, and so the node. */
  lemma LeafPreimageInjective(H: HashFn, a: LeafInput, b: LeafInput)
    requires Unambiguous(a) && Unambiguous(b)
    requires LeafPreimage(H, a) == LeafPreimage(H, b)
    ensures ReadsAlike(a, b) && SameHashedSubject(H, a, b)
    ensures LeafSums(a) == LeafSums(b) && LeafNode(H, a) == LeafNode(H, b)
  {
    hide LeafPreimage, ReadsAlike, LeafSums, PipeFree, SameHashedSubject;
    LeafPreimageReads(H, a, b);
    ReadAlikeText(a, b);
  }

  // ----- the source's own constructors

  /** `leaf_node` */
  method MakeLeafV1(H: HashFn, salt: Digest, userId: Bytes, balances: seq<Balance>)
    returns (r: Result<Node, LeafError>)
    ensures r.Ok? <==> NamedOnce(balances)
    ensures r.Ok? ==> r.value == LeafNode(H, V1(salt, userId, balances))
    ensures r.Err? ==> r.error.Duplicate? && multiset(Names(balances))[r.error.asset] > 1
  {
    hide MapOf, Canonical, NamedOnce, Names, CanonicalBalances;
    CanonicalBalancesOfMap(balances);
    match CanonicalBalances(balances)
    case Err(e) =>
      return Err(Duplicate(e.asset));
    case Ok(canonical) =>
      var preimage := Ascii("rocky-solvency-leaf-v1") + (salt + (H(userId) + canonical));
      var sums := InsertBalances(balances);
      return Ok(Node(H(preimage), sums));
  }

  method InsertBalances(balances: seq<Balance>) returns (sums: Sums)
    ensures sums == MapOf(balances)
  {
    sums := map[];
    for i := 0 to |balances|
      invariant sums == MapOf(balances[..i])
    {
      assert balances[..i + 1][..i] == balances[..i];
      sums := sums[balances[i].asset := balances[i].amount];
    }
    assert balances[..|balances|] == balances;
  }

  /** The first amount of one named map whose asset is unsafe. */
  method FirstUnsafe(name: Text, amounts: AmountMap) returns (r: Option<Text>)
    requires IsSafeName(name)
    ensures r.None? <==> SafeEntry(name, amounts)
    ensures r.Some? ==> r.value in amounts && !IsSafeName(r.value)
  {
    hide IsSafeName, SafeEntry, KeysOf;
    var assets := KeysOf(amounts);
    for j := 0 to |assets|
      invariant forall k :: 0 <= k < j ==> IsSafeName(assets[k])
    {
      if !IsSafeName(assets[j]) {
        UnsafeAssetRefuses(name, amounts, assets[j]);
        return Some(assets[j]);
      }
    }
    AllAssetsSafe(name, amounts, assets);
    return None;
  }

  lemma UnsafeAssetRefuses(name: Text, amounts: AmountMap, asset: Text)
    requires asset in amounts && !IsSafeName(asset)
    ensures !SafeEntry(name, amounts)
  {
    hide IsSafeName;
  }

  lemma AllAssetsSafe(name: Text, amounts: AmountMap, assets: seq<Text>)
    requires IsSafeName(name) && forall a :: a in amounts ==> a in assets
    requires forall k :: 0 <= k < |assets| ==> IsSafeName(assets[k])
    ensures SafeEntry(name, amounts)
  {
    hide IsSafeName;
    assert forall a :: a in amounts ==> a in assets;
  }

  /** What `leaf_hash_v2` refuses about one named map. */
  method CheckEntry(name: Text, amounts: AmountMap) returns (r: Option<LeafError>)
    ensures r.None? <==> SafeEntry(name, amounts)
    ensures r.Some? ==> match r.value
      case UnsafeMapName(n) => n == name && !IsSafeName(n)
      case UnsafeAssetName(a) => a in amounts && !IsSafeName(a)
      case Duplicate(_) => false
  {
    hide IsSafeName, SafeEntry;
    if !IsSafeName(name) {
      UnsafeNameRefuses(name, amounts);
      return Some(UnsafeMapName(name));
    }
    var unsafe := FirstUnsafe(name, amounts);
    match unsafe
    case Some(asset) => return Some(UnsafeAssetName(asset));
    case None => return None;
  }

  /** The first `n` of the listed maps are safe. */
  ghost predicate SafeTo(names: seq<Text>, maps: NamedMaps, n: nat)
    requires n <= |names| && forall k :: 0 <= k < |names| ==> names[k] in maps
  {
    forall k :: 0 <= k < n ==> SafeEntry(names[k], maps[names[k]])
  }

  lemma SafeToNext(names: seq<Text>, maps: NamedMaps, i: nat)
    requires i < |names| && forall k :: 0 <= k < |names| ==> names[k] in maps
    ensures SafeTo(names, maps, i + 1) <==> SafeTo(names, maps, i) && SafeEntry(names[i], maps[names[i]])
  {
    hide SafeEntry;
  }

  lemma SafeToAll(maps: NamedMaps)
    ensures SafeTo(KeysOf(maps), maps, |KeysOf(maps)|) ==> SafeMaps(maps)
  {
    hide SafeEntry;
    assert forall n :: n in maps ==> n in KeysOf(maps);
  }

  lemma UnsafeAmong(maps: NamedMaps, name: Text)
    requires name in maps && !SafeEntry(name, maps[name])
    ensures !SafeMaps(maps)
  {
    hide SafeEntry;
  }

  /** The guards of `leaf_hash_v2`: the first name it refuses. */
  method CheckNames(maps: NamedMaps) returns (r: Option<LeafError>)
    ensures r.None? <==> SafeMaps(maps)
    ensures r.Some? ==> match r.value
      case UnsafeMapName(n) => n in maps && !IsSafeName(n)
      case UnsafeAssetName(a) => !IsSafeName(a) && exists n :: n in maps && a in maps[n]
      case Duplicate(_) => false
  {
    hide IsSafeName, SafeEntry, SafeMaps, SafeTo, KeysOf;
    var names := KeysOf(maps);
    assert SafeTo(names, maps, 0) by {
      NoneUnsafe(names, maps);
    }
    for i := 0 to |names|
      invariant SafeTo(names, maps, i)
    {
      var refused := CheckEntry(names[i], maps[names[i]]);
      SafeToNext(names, maps, i);
      if refused.Some? {
        UnsafeAmong(maps, names[i]);
        return refused;
      }
    }
    SafeToAll(maps);
    return None;
  }

  lemma NoneUnsafe(names: seq<Text>, maps: NamedMaps)
    requires forall k :: 0 <= k < |names| ==> names[k] in maps
    ensures SafeTo(names, maps, 0)
  {
  }

  lemma UnsafeNameRefuses(name: Text, amounts: AmountMap)
    requires !IsSafeName(name)
    ensures !SafeEntry(name, amounts)
  {
  }

  /** What has been fed once maps from the `i`th on follow `out`. */
  ghost function Fed(out: Bytes, names: seq<Text>, i: nat, maps: NamedMaps): Bytes
    requires i <= |names| && forall k :: 0 <= k < |names| ==> names[k] in maps
  {
    out + MapsBytes(names[i..], maps)
  }

  /** What `leaf_hash_v2` feeds after the subject: the count, then each name and its amounts. */
  method EncodeMaps(maps: NamedMaps) returns (out: Bytes)
    ensures out == U64Le(|maps|) + MapsBytes(KeysOf(maps), maps)
  {
    hide Lp, LpMap, U64Le, Fed, KeysOf, MapsBytes;
    var names := KeysOf(maps);
    ghost var whole := Fed(U64Le(|maps|), names, 0, maps);
    out := U64Le(|maps|);
    for i := 0 to |names|
      invariant Fed(out, names, i, maps) == whole
    {
      FedStep(out, names, i, maps);
      var amounts := EncodeAmounts(maps[names[i]]);
      out := out + Lp(names[i]);
      out := out + amounts;
    }
    FedEnds(U64Le(|maps|), out, names, maps);
  }

  lemma FedStep(out: Bytes, names: seq<Text>, i: nat, maps: NamedMaps)
    requires i < |names| && forall k :: 0 <= k < |names| ==> names[k] in maps
    ensures Fed(out, names, i, maps) == Fed(out + Lp(names[i]) + LpMap(maps[names[i]]), names, i + 1, maps)
  {
    hide Lp, LpMap;
    assert names[i..][1..] == names[i + 1..];
    Reassociate(out, Lp(names[i]), LpMap(maps[names[i]]), MapsBytes(names[i + 1..], maps));
  }

  lemma FedEnds(count: Bytes, out: Bytes, names: seq<Text>, maps: NamedMaps)
    requires forall k :: 0 <= k < |names| ==> names[k] in maps
    ensures Fed(count, names, 0, maps) == count + MapsBytes(names, maps)
    ensures Fed(out, names, |names|, maps) == out
  {
    assert names[0..] == names && names[|names|..] == [];
  }

  lemma Reassociate(out: Bytes, p: Bytes, q: Bytes, r: Bytes)
    ensures out + (p + q + r) == (out + p + q) + r
  {
  }

  lemma QualifyAt(name: Bytes, amounts: AmountMap)
    requires SafeEntry(name, amounts)
    ensures forall a :: a in amounts ==>
      Qualified(name, a) in Qualify(name, amounts) && Qualify(name, amounts)[Qualified(name, a)] == amounts[a]
  {
    hide IsSafeName, Qualified;
    var q := Qualify(name, amounts);
    QualifiedApart(name, amounts);
    forall a | a in amounts ensures Qualified(name, a) in q && q[Qualified(name, a)] == amounts[a] {
      assert Qualified(name, a) in q;
      assert q[Qualified(name, a)] == amounts[a];
    }
  }

  lemma QualifyOnly(name: Bytes, amounts: AmountMap)
    requires SafeEntry(name, amounts)
    ensures forall k :: k in Qualify(name, amounts) ==> exists a :: a in amounts && k == Qualified(name, a)
  {
  }

  lemma QualifiedApart(name: Bytes, amounts: AmountMap)
    requires SafeEntry(name, amounts)
    ensures forall a, b :: a in amounts && b in amounts && Qualified(name, a) == Qualified(name, b) ==> a == b
  {
    forall a, b | a in amounts && b in amounts && Qualified(name, a) == Qualified(name, b) ensures a == b {
      QualifiedInjective(name, a, name, b);
    }
  }

  /** On the way from `before` to `before + added`, with the keys of `done` already set. */
  ghost predicate Inserting(before: Sums, added: Sums, done: set<Bytes>, sums: Sums) {
    && (forall k :: k in done ==> k in added && k in sums && sums[k] == added[k])
    && (forall k :: k in before && k !in added ==> k in sums && sums[k] == before[k])
    && forall k :: k in sums ==> k in before || k in added
  }

  lemma InsertOne(before: Sums, added: Sums, done: set<Bytes>, sums: Sums, key: Bytes)
    requires Inserting(before, added, done, sums) && key in added
    ensures Inserting(before, added, done + {key}, sums[key := added[key]])
  {
  }

  /** One named map's amounts inserted under their qualified keys. */
  method InsertQualified(before: Sums, name: Text, amounts: AmountMap) returns (sums: Sums)
    requires SafeEntry(name, amounts)
    ensures sums == before + Qualify(name, amounts)
  {
    hide IsSafeName, Qualify, Qualified, Inserting, KeysOf;
    ghost var added := Qualify(name, amounts);
    var assets := KeysOf(amounts);
    ghost var done: set<Bytes> := {};
    sums := before;
    NothingInserted(before, added);
    for j := 0 to |assets|
      invariant forall t :: 0 <= t < j ==> Qualified(name, assets[t]) in done
      invariant Inserting(before, added, done, sums)
    {
      QualifiedValue(name, amounts, assets[j]);
      var key := Qualified(name, assets[j]);
      InsertOne(before, added, done, sums, key);
      sums := sums[key := amounts[assets[j]]];
      done := done + {key};
    }
    NoneMissed(name, amounts, assets, done);
    UnionBy(before, added, done, sums);
  }

  lemma QualifiedValue(name: Text, amounts: AmountMap, asset: Text)
    requires SafeEntry(name, amounts) && asset in amounts
    ensures Qualified(name, asset) in Qualify(name, amounts)
    ensures Qualify(name, amounts)[Qualified(name, asset)] == amounts[asset]
  {
    hide Qualify, Qualified;
    QualifyAt(name, amounts);
  }

  lemma NothingInserted(before: Sums, added: Sums)
    ensures Inserting(before, added, {}, before)
  {
  }

  lemma NoneMissed(name: Text, amounts: AmountMap, assets: seq<Text>, done: set<Bytes>)
    requires SafeEntry(name, amounts) && forall a :: a in amounts ==> a in assets
    requires forall t :: 0 <= t < |assets| ==> Qualified(name, assets[t]) in done
    ensures forall k :: k in Qualify(name, amounts) ==> k in done
  {
    hide Qualified, Qualify, IsSafeName;
    QualifyOnly(name, amounts);
    forall k | k in Qualify(name, amounts) ensures k in done {
      var a :| a in amounts && k == Qualified(name, a);
      assert a in assets;
    }
  }

  lemma UnionBy(before: Sums, added: Sums, done: set<Bytes>, sums: Sums)
    requires Inserting(before, added, done, sums) && forall k :: k in added ==> k in done
    ensures sums == before + added
  {
    assert sums.Keys == (before + added).Keys;
  }

  /** What `sums` becomes once the maps from the `i`th on are flattened into it. */
  ghost function Joined(sums: Sums, names: seq<Text>, i: nat, maps: NamedMaps): Sums
    requires SafeMaps(maps) && i <= |names| && forall k :: 0 <= k < |names| ==> names[k] in maps
  {
    sums + QualifiedSums(names[i..], maps)
  }

  /** The sums of a v2 node: every map flattened in turn. */
  method FlattenMaps(maps: NamedMaps) returns (sums: Sums)
    requires SafeMaps(maps)
    ensures sums == QualifiedSums(KeysOf(maps), maps)
  {
    hide QualifiedSums, Qualify, SafeEntry, Joined, SafeMaps, KeysOf;
    var names := KeysOf(maps);
    sums := map[];
    ghost var whole := Joined(sums, names, 0, maps);
    for i := 0 to |names|
      invariant Joined(sums, names, i, maps) == whole
    {
      JoinedStep(sums, names, i, maps);
      sums := InsertQualified(sums, names[i], maps[names[i]]);
    }
    JoinedEnds(sums, names, maps);
  }

  lemma JoinedEnds(sums: Sums, names: seq<Text>, maps: NamedMaps)
    requires SafeMaps(maps) && forall k :: 0 <= k < |names| ==> names[k] in maps
    ensures Joined(map[], names, 0, maps) == QualifiedSums(names, maps)
    ensures Joined(sums, names, |names|, maps) == sums
  {
    hide Qualify, SafeEntry;
    assert names[0..] == names && names[|names|..] == [];
  }

  lemma JoinedStep(sums: Sums, names: seq<Text>, i: nat, maps: NamedMaps)
    requires SafeMaps(maps) && i < |names| && forall k :: 0 <= k < |names| ==> names[k] in maps
    ensures SafeEntry(names[i], maps[names[i]])
    ensures Joined(sums, names, i, maps) == Joined(sums + Qualify(names[i], maps[names[i]]), names, i + 1, maps)
  {
    hide Qualify, IsSafeName;
    assert SafeEntry(names[i], maps[names[i]]);
    QualifiedSumsNext(names, i, maps);
    UnionAssociative(sums, Qualify(names[i], maps[names[i]]), QualifiedSums(names[i + 1..], maps));
  }

  lemma QualifiedSumsNext(names: seq<Text>, i: nat, maps: NamedMaps)
    requires SafeMaps(maps) && i < |names| && forall k :: 0 <= k < |names| ==> names[k] in maps
    ensures SafeEntry(names[i], maps[names[i]])
    ensures QualifiedSums(names[i..], maps)
         == Qualify(names[i], maps[names[i]]) + QualifiedSums(names[i + 1..], maps)
  {
    hide Qualify, IsSafeName;
    assert SafeEntry(names[i], maps[names[i]]);
    assert names[i..][1..] == names[i + 1..];
  }

  lemma UnionAssociative(a: Sums, b: Sums, c: Sums)
    ensures a + (b + c) == (a + b) + c
  {
  }

  /** `leaf_node_v2` */
  method MakeLeafV2(H: HashFn, salt: Digest, subjectId: Bytes, maps: NamedMaps)
    returns (r: Result<Node, LeafError>)
    ensures r.Ok? <==> SafeMaps(maps)
    ensures r.Ok? ==> r.value == LeafNode(H, V2(salt, subjectId, maps))
    ensures r.Err? ==> match r.error
      case UnsafeMapName(n) => n in maps && !IsSafeName(n)
      case UnsafeAssetName(a) => !IsSafeName(a) && exists n :: n in maps && a in maps[n]
      case Duplicate(_) => false
  {
    hide U64Le, MapsBytes, QualifiedSums;
    var refused := CheckNames(maps);
    if refused.Some? {
      return Err(refused.value);
    }
    var body := EncodeMaps(maps);
    var preimage := Ascii("rocky-solvency-leaf-v2") + (salt + (H(subjectId) + body));
    var sums := FlattenMaps(maps);
    return Ok(Node(H(preimage), sums));
  }
}
