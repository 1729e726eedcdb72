/**
 Evidence packs: a signed index of the files in a delivery, so that leaving one out, altering one
 or adding one shows (solvency-report/src/pack.rs).
 */
module Packs {
  import opened Wrappers
  import opened ByteStrings
  import opened Amounts
  import opened Fields
  import opened Documents
  import opened Digests
  import opened Verify

  const PACK_FORMAT_VERSION: Text := Ascii("canton-solvency-pack-v1")
  const BACKSLASH: Byte := 92

  datatype Member = Member(name: Text, content: Bytes)

  type Delivery = map<Text, Bytes>

  datatype PackFailure =
    | UnsupportedPack | WrongKey | BadPackSignature
    | UnsafeName(name: Text) | DuplicateEntry(name: Text)
    | Missing(name: Text) | Altered(name: Text) | Unlisted(name: Text)

  /** `check_name`: a file name, not a path. */
  predicate IsPlainName(name: Bytes) {
    name != [] && SLASH !in name && BACKSLASH !in name && name != [DOT] && name != [DOT, DOT]
  }

  // ----- comparing hex whatever its case

  function LowerByte(b: Byte): Byte {
    if 65 <= b <= 90 then b + 32 else b
  }

  function Lower(s: Bytes): (r: Bytes)
    ensures |r| == |s|
  {
    seq(|s|, i requires 0 <= i < |s| => LowerByte(s[i]))
  }

  /** `eq_ignore_ascii_case` */
  predicate SameIgnoringCase(a: Bytes, b: Bytes) {
    Lower(a) == Lower(b)
  }

  /** Every capital letter has its small one, and nothing else changes. */
  lemma LowerByLetter(c: char)
    requires c as int < 0x100
    ensures LowerByte(c as int) == if 'A' <= c <= 'Z' then (c - 'A' + 'a') as int else c as int
  {
  }

  lemma {:induction false} HexDigitsOnly(s: Bytes)
    ensures forall i :: 0 <= i < |Hex(s)| ==> 48 <= Hex(s)[i] <= 57 || 97 <= Hex(s)[i] <= 102
  {
    if s != [] {
      HexDigitsOnly(s[1..]);
      assert forall i :: 2 <= i < |Hex(s)| ==> Hex(s)[i] == Hex(s[1..])[i - 2];
    }
  }

  lemma HexIsLower(s: Bytes)
    ensures Lower(Hex(s)) == Hex(s)
  {
    hide Hex;
    HexDigitsOnly(s);
  }

  /** Equal to a digest's text whatever the case, exactly when it decodes to the digest. */
  lemma SameDigestExactly(digest: Digest, text: Bytes)
    ensures SameIgnoringCase(Hex(digest), text) <==> Unhex(text) == Some(digest)
  {
    hide Hex, Unhex;
    HexIsLower(digest);
    HexDigitsOnly(digest);
    UnhexExactly(text, digest);
    if |text| == |Hex(digest)| {
      assert forall i :: 0 <= i < |text| ==> Lower(text)[i] == LowerByte(text[i]);
    } else {
      assert |Lower(text)| != |Lower(Hex(digest))|;
    }
  }

  // ----- the index over a delivery

  /** `member_digest` */
  function MemberDigest(H: HashFn, content: Bytes): Text {
    Hex(H(content))
  }

  function EntryFor(H: HashFn, name: Text, content: Bytes): PackEntry {
    PackEntry(name, MemberDigest(H, content))
  }

  function EntriesFor(H: HashFn, names: seq<Text>, delivery: Delivery): (r: seq<PackEntry>)
    requires forall i :: 0 <= i < |names| ==> names[i] in delivery
    ensures |r| == |names|
    ensures forall i :: 0 <= i < |r| ==> r[i] == EntryFor(H, names[i], delivery[names[i]])
  {
    seq(|names|, i requires 0 <= i < |names| => EntryFor(H, names[i], delivery[names[i]]))
  }

  /** The index over a delivery. */
  function Index(H: HashFn, delivery: Delivery): (r: seq<PackEntry>)
    ensures |r| == |delivery|
  {
    EntriesFor(H, SortedTexts(delivery.Keys), delivery)
  }

  /** Exactly the named files, byte for byte. */
  ghost predicate Delivered(H: HashFn, entries: seq<PackEntry>, delivery: Delivery) {
    && Matching(H, entries, delivery)
    && forall n :: n in delivery ==> Lists(entries, n)
  }

  predicate Lists(entries: seq<PackEntry>, name: Text) {
    exists i :: 0 <= i < |entries| && entries[i].name == name
  }

  function EntryFault(H: HashFn, e: PackEntry, delivery: Delivery): Option<PackFailure> {
    if !IsPlainName(e.name) then Some(UnsafeName(e.name))
    else if e.name !in delivery then Some(Missing(e.name))
    else if !SameIgnoringCase(MemberDigest(H, delivery[e.name]), e.sha256) then Some(Altered(e.name))
    else None
  }

  function Unauthentic(H: HashFn, verifies: SignatureFn, p: Pack, s: SignatureBlock, key: Text)
    : (r: Option<PackFailure>)
    ensures r.Some? ==> !r.value.Unlisted?
  {
    if p.formatVersion != PACK_FORMAT_VERSION then Some(UnsupportedPack)
    else if !SameIgnoringCase(s.publicKey, key) then Some(WrongKey)
    else if verifies(key, H(PackPreimage(p)), s.value) != Genuine then Some(BadPackSignature)
    else None
  }

  /** Which packs are looked at; the key is compared whatever the case of its digits. */
  lemma AuthenticExactly(H: HashFn, verifies: SignatureFn, p: Pack, s: SignatureBlock, key: Text)
    ensures Unauthentic(H, verifies, p, s, key) == None <==>
      && p.formatVersion == Ascii("canton-solvency-pack-v1")
      && |s.publicKey| == |key| && (forall i :: 0 <= i < |key| ==> LowerByte(s.publicKey[i]) == LowerByte(key[i]))
      && verifies(key, H(PackPreimage(p)), s.value) == Genuine
  {
    hide PackPreimage, Ascii, LowerByte;
    if SameIgnoringCase(s.publicKey, key) {
      assert |Lower(s.publicKey)| == |Lower(key)|;
      forall i | 0 <= i < |key| ensures LowerByte(s.publicKey[i]) == LowerByte(key[i]) {
        assert Lower(s.publicKey)[i] == Lower(key)[i];
      }
    }
  }

  /** An entry passes exactly when it is a plain name, there, and states the file's hash. */
  lemma EntryPassesExactly(H: HashFn, e: PackEntry, delivery: Delivery)
    ensures EntryFault(H, e, delivery) == None <==>
      && e.name != [] && e.name != Ascii(".") && e.name != Ascii("..")
      && (forall b :: b in e.name ==> [b] != Ascii("/") && [b] != Ascii("\\"))
      && e.name in delivery
      && Unhex(e.sha256) == Some(H(delivery[e.name]))
  {
    hide Hex, Unhex, SameIgnoringCase;
    if e.name in delivery {
      SameDigestExactly(H(delivery[e.name]), e.sha256);
    }
    assert [DOT] == Ascii(".") && [DOT, DOT] == Ascii("..") && [SLASH] == Ascii("/") && [BACKSLASH] == Ascii("\\");
    assert forall b: Byte :: [b] == [SLASH] <==> b == SLASH;
    assert forall b: Byte :: [b] == [BACKSLASH] <==> b == BACKSLASH;
  }

  /** `verify_pack`, under a key already trimmed. */
  method VerifyPack(H: HashFn, verifies: SignatureFn, p: Pack, s: SignatureBlock, key: Text, delivery: Delivery)
    returns (r: Result<(), PackFailure>)
    ensures r.Ok? <==> Unauthentic(H, verifies, p, s, key) == None && Delivered(H, p.entries, delivery)
    ensures Unauthentic(H, verifies, p, s, key).Some? ==> r == Err(Unauthentic(H, verifies, p, s, key).value)
    ensures r.Err? ==>
      || Unauthentic(H, verifies, p, s, key) == Some(r.error)
      || (exists i :: 0 <= i < |p.entries| && EntryFault(H, p.entries[i], delivery) == Some(r.error)
                      && Matching(H, p.entries[..i], delivery))
      || (r.error.Unlisted? && Matching(H, p.entries, delivery)
          && r.error.name in delivery && !Lists(p.entries, r.error.name))
  {
    hide Lists, PackPreimage, MemberDigest, SameIgnoringCase, IsPlainName;
    if p.formatVersion != PACK_FORMAT_VERSION {
      return Err(UnsupportedPack);
    }
    if !SameIgnoringCase(s.publicKey, key) {
      return Err(WrongKey);
    }
    if verifies(key, H(PackPreimage(p)), s.value) != Genuine {
      return Err(BadPackSignature);
    }
    for i := 0 to |p.entries|
      invariant Matching(H, p.entries[..i], delivery)
    {
      var entry := p.entries[i];
      if !IsPlainName(entry.name) {
        assert EntryFault(H, entry, delivery) == Some(UnsafeName(entry.name));
        return Err(UnsafeName(entry.name));
      }
      if entry.name !in delivery {
        assert EntryFault(H, entry, delivery) == Some(Missing(entry.name));
        return Err(Missing(entry.name));
      }
      if !SameIgnoringCase(MemberDigest(H, delivery[entry.name]), entry.sha256) {
        assert EntryFault(H, entry, delivery) == Some(Altered(entry.name));
        return Err(Altered(entry.name));
      }
      assert p.entries[..i + 1] == p.entries[..i] + [p.entries[i]];
    }
    assert p.entries[..|p.entries|] == p.entries;
    var unlisted := FirstUnlisted(p.entries, delivery);
    match unlisted
    case Some(name) => return Err(Unlisted(name));
    case None => return Ok(());
  }

  /** Every entry names a file that is there and unaltered. */
  ghost predicate Matching(H: HashFn, entries: seq<PackEntry>, delivery: Delivery) {
    forall i :: 0 <= i < |entries| ==> EntryFault(H, entries[i], delivery) == None
  }

  method FirstUnlisted(entries: seq<PackEntry>, delivery: Delivery) returns (r: Option<Text>)
    ensures r.None? <==> forall n :: n in delivery ==> Lists(entries, n)
    ensures r.Some? ==> r.value in delivery && !Lists(entries, r.value)
  {
    hide Lists;
    var names := SortedTexts(delivery.Keys);
    for i := 0 to |names|
      invariant forall k :: 0 <= k < i ==> Lists(entries, names[k])
    {
      if !Lists(entries, names[i]) {
        return Some(names[i]);
      }
    }
    assert forall n :: n in delivery ==> n in names;
    return None;
  }

  // ----- assembling

  predicate PlainNames(members: seq<Member>) {
    forall i :: 0 <= i < |members| ==> IsPlainName(members[i].name)
  }

  predicate DistinctNames(members: seq<Member>) {
    forall i, j :: 0 <= i < j < |members| ==> members[i].name != members[j].name
  }

  /** The files as the reader finds them: `members` by name. */
  ghost predicate Holds(delivery: Delivery, members: seq<Member>) {
    && (forall i :: 0 <= i < |members| ==>
          members[i].name in delivery && delivery[members[i].name] == members[i].content)
    && forall n :: n in delivery ==> exists i :: 0 <= i < |members| && members[i].name == n
  }

  /** `build_pack`, up to the signature. */
  method BuildPack(H: HashFn, publisher: Text, snapshotTime: Text, reportDigest: Text, members: Listed<Member>)
    returns (r: Result<Pack, PackFailure>, ghost delivery: Delivery)
    ensures r.Ok? <==> DistinctNames(members) && PlainNames(members)
    ensures r.Ok? ==> Holds(delivery, members)
    ensures r.Ok? ==>
      && r.value.formatVersion == PACK_FORMAT_VERSION && r.value.publisher == publisher
      && r.value.snapshotTime == snapshotTime && r.value.reportDigest == reportDigest
      && r.value.entries == Index(H, delivery)
    ensures r.Err? ==>
      exists i ::
        && 0 <= i < |members| && PlainNames(members[..i]) && DistinctNames(members[..i])
        && if IsPlainName(members[i].name) then
             && r.error == DuplicateEntry(members[i].name)
             && exists k :: 0 <= k < i && members[k].name == members[i].name
           else r.error == UnsafeName(members[i].name)
  {
    hide IsPlainName, Holds, MemberDigest, Index;
    delivery := map[];
    var digests: map<Text, Text> := map[];
    HoldsNothing();
    for i := 0 to |members|
      invariant PlainNames(members[..i]) && DistinctNames(members[..i]) && Holds(delivery, members[..i])
      invariant digests.Keys == delivery.Keys
      invariant forall n :: n in digests ==> digests[n] == MemberDigest(H, delivery[n])
      invariant |digests| == i
    {
      var m := members[i];
      assert members[..i + 1] == members[..i] + [m];
      if !IsPlainName(m.name) {
        return Err(UnsafeName(m.name)), delivery;
      }
      if m.name in digests {
        RepeatedName(delivery, members, i);
        return Err(DuplicateEntry(m.name)), delivery;
      }
      HoldsOneMore(delivery, members[..i], m);
      digests := digests[m.name := MemberDigest(H, m.content)];
      delivery := delivery[m.name := m.content];
    }
    assert members[..|members|] == members;
    var entries := ListEntries(H, digests, delivery);
    assert |delivery.Keys| == |digests.Keys|;
    r := Ok(Pack(PACK_FORMAT_VERSION, publisher, snapshotTime, reportDigest, entries));
  }

  /** The collected digests in name order. */
  method ListEntries(H: HashFn, digests: map<Text, Text>, ghost delivery: Delivery) returns (entries: seq<PackEntry>)
    requires digests.Keys == delivery.Keys
    requires forall n :: n in digests ==> digests[n] == MemberDigest(H, delivery[n])
    ensures entries == Index(H, delivery)
  {
    hide MemberDigest, SortedTexts;
    var names := SortedTexts(digests.Keys);
    entries := [];
    for i := 0 to |names|
      invariant |entries| == i
      invariant forall k :: 0 <= k < i ==> entries[k] == EntryFor(H, names[k], delivery[names[k]])
    {
      entries := entries + [PackEntry(names[i], digests[names[i]])];
    }
  }

  /** A fresh name joins the files held. */
  lemma HoldsOneMore(delivery: Delivery, members: seq<Member>, m: Member)
    requires Holds(delivery, members) && DistinctNames(members) && m.name !in delivery
    ensures Holds(delivery[m.name := m.content], members + [m]) && DistinctNames(members + [m])
  {
    var more, now := members + [m], delivery[m.name := m.content];
    forall n | n in now ensures exists i :: 0 <= i < |more| && more[i].name == n {
      if n == m.name {
        assert more[|members|].name == n;
      } else {
        var i :| 0 <= i < |members| && members[i].name == n;
        assert more[i].name == n;
      }
    }
  }

  lemma HoldsNothing()
    ensures Holds(map[], [])
  {
  }

  lemma RepeatedName(delivery: Delivery, members: seq<Member>, i: nat)
    requires i < |members| && Holds(delivery, members[..i]) && members[i].name in delivery
    ensures exists k :: 0 <= k < i && members[k].name == members[i].name
  {
    var k :| 0 <= k < i && members[..i][k].name == members[i].name;
    assert members[k].name == members[i].name;
  }

  /** Assembled in any order, the same files make the same pack. */
  lemma AssemblyForgetsOrder(a: seq<Member>, b: seq<Member>, x: Delivery, y: Delivery)
    requires multiset(a) == multiset(b) && Holds(x, a) && Holds(y, b)
    ensures x == y
  {
    forall m ensures m in a <==> m in b {
      assert m in a <==> m in multiset(a);
      assert m in b <==> m in multiset(b);
    }
    forall n ensures n in x <==> n in y {
      SameHeld(a, b, x, y, n);
      SameHeld(b, a, y, x, n);
    }
    forall n | n in x ensures x[n] == y[n] {
      SameHeld(a, b, x, y, n);
    }
  }

  lemma SameHeld(a: seq<Member>, b: seq<Member>, x: Delivery, y: Delivery, n: Text)
    requires Holds(x, a) && Holds(y, b) && forall m :: m in a ==> m in b
    ensures n in x ==> n in y && x[n] == y[n]
  {
    if n in x {
      var i :| 0 <= i < |a| && a[i].name == n;
      assert a[i] in b;
      var j :| 0 <= j < |b| && b[j] == a[i];
    }
  }

  /** What was assembled is what is delivered. */
  lemma AssembledIsDelivered(H: HashFn, delivery: Delivery)
    requires forall n :: n in delivery ==> IsPlainName(n)
    ensures Delivered(H, Index(H, delivery), delivery)
  {
    hide IsPlainName, Hex, Lower, SortedTexts;
    var names := SortedTexts(delivery.Keys);
    var entries := Index(H, delivery);
    assert forall i :: 0 <= i < |entries| ==> entries[i] == EntryFor(H, names[i], delivery[names[i]]);
    forall n | n in delivery ensures Lists(entries, n) {
      assert n in names;
      var i :| 0 <= i < |names| && names[i] == n;
      assert entries[i].name == n;
    }
  }

  ghost function Contents(d: Delivery): set<Bytes> {
    set n | n in d :: d[n]
  }

  /** One signed digest, one delivery: no file can be dropped, added or altered under it. */
  lemma OneDigestOneDelivery(H: HashFn, p: Pack, q: Pack, x: Delivery, y: Delivery)
    requires H(PackPreimage(p)) == H(PackPreimage(q))
    requires Delivered(H, p.entries, x) && Delivered(H, q.entries, y)
    ensures x == y || Collision(H, {PackPreimage(p), PackPreimage(q)} + Contents(x) + Contents(y))
  {
    hide PackPreimage, IsPlainName, Hex, Lower;
    var S := {PackPreimage(p), PackPreimage(q)} + Contents(x) + Contents(y);
    assert PackPreimage(p) in S && PackPreimage(q) in S;
    if !Collision(H, S) {
      PackBound(p, q);
      forall n ensures n in x ==> n in y && x[n] == y[n] {
        SameFile(H, p.entries, x, y, n, S);
      }
      forall n ensures n in y ==> n in x {
        SameFile(H, p.entries, y, x, n, S);
      }
    }
  }

  lemma SameFile(H: HashFn, entries: seq<PackEntry>, x: Delivery, y: Delivery, n: Text, S: set<Bytes>)
    requires Delivered(H, entries, x) && Delivered(H, entries, y)
    requires Contents(x) + Contents(y) <= S && !Collision(H, S)
    ensures n in x ==> n in y && x[n] == y[n]
  {
    hide IsPlainName, Hex, Lower;
    if n in x {
      assert Lists(entries, n);
      var i :| 0 <= i < |entries| && entries[i].name == n;
      assert EntryFault(H, entries[i], x) == None && EntryFault(H, entries[i], y) == None;
      HexIsLower(H(x[n]));
      HexIsLower(H(y[n]));
      HexInjective(H(x[n]), H(y[n]));
      assert x[n] in S && y[n] in S;
    }
  }
}
