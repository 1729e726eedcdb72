/**
 Byte strings as the repository uses them: Rust strings ordered by their UTF-8 bytes, 32-byte
 digests, little-endian lengths, and the sorted enumeration of a set of names that iterating
 a `BTreeMap` gives.
 */
module ByteStrings {

  type Byte = b: int | 0 <= b < 0x100

  type Bytes = seq<Byte>

  const U64_SIZE: nat := 0x1_0000_0000_0000_0000

  /** A Rust string: its byte length fits a machine word. */
  type Text = s: Bytes | |s| < U64_SIZE

  type Digest = d: Bytes | |d| == 32 witness seq(32, _ => 0)

  /** SHA-256, left uninterpreted: every result holds for any function of this type. */
  type HashFn = Bytes -> Digest

  /** Two distinct members of `preimages` that `H` sends to the same digest. */
  ghost predicate Collision(H: HashFn, preimages: set<Bytes>) {
    exists x, y :: x in preimages && y in preimages && x != y && H(x) == H(y)
  }

  /** There is none exactly when the digest tells the preimages apart. */
  lemma CollisionExactly(H: HashFn, preimages: set<Bytes>)
    ensures !Collision(H, preimages) <==>
      forall x, y :: x in preimages && y in preimages && H(x) == H(y) ==> x == y
  {
  }

  /** The bytes of an ASCII literal. */
  function Ascii(s: string): (r: Bytes)
    ensures |r| == |s|
  {
    seq(|s|, i requires 0 <= i < |s| => s[i] as int % 0x100)
  }

  // ----- bytewise order

  predicate Before(a: Bytes, b: Bytes) {
    && b != []
    && (a == [] || a[0] < b[0] || (a[0] == b[0] && Before(a[1..], b[1..])))
  }

  predicate AtMost(a: Bytes, b: Bytes) {
    a == b || Before(a, b)
  }

  lemma {:induction false} BeforeIrreflexive(a: Bytes)
    ensures !Before(a, a)
  {
    if a != [] {
      BeforeIrreflexive(a[1..]);
    }
  }

  lemma {:induction false} BeforeTransitive(a: Bytes, b: Bytes, c: Bytes)
    requires Before(a, b) && Before(b, c)
    ensures Before(a, c)
  {
    if a != [] && a[0] == b[0] == c[0] {
      BeforeTransitive(a[1..], b[1..], c[1..]);
    }
  }

  lemma {:induction false} BeforeTotal(a: Bytes, b: Bytes)
    ensures a == b || Before(a, b) || Before(b, a)
  {
    if a != [] && b != [] && a[0] == b[0] {
      BeforeTotal(a[1..], b[1..]);
      assert a == [a[0]] + a[1..] && b == [b[0]] + b[1..];
    }
  }

  lemma BeforeAsymmetric(a: Bytes, b: Bytes)
    requires Before(a, b)
    ensures a != b && !Before(b, a)
  {
    BeforeIrreflexive(a);
    if Before(b, a) {
      BeforeTransitive(a, b, a);
    }
  }

  /** Strings that agree on their first `n` bytes compare as their remainders do. */
  lemma {:induction false} BeforeDropsCommonPrefix(a: Bytes, b: Bytes, n: nat)
    requires n <= |a| && n <= |b| && a[..n] == b[..n]
    ensures Before(a, b) <==> Before(a[n..], b[n..])
  {
    if n > 0 {
      assert a[0] == a[..n][0] == b[..n][0] == b[0];
      assert a[1..][..n - 1] == a[..n][1..] && b[1..][..n - 1] == b[..n][1..];
      BeforeDropsCommonPrefix(a[1..], b[1..], n - 1);
      assert a[1..][n - 1..] == a[n..] && b[1..][n - 1..] == b[n..];
    } else {
      assert a[0..] == a && b[0..] == b;
    }
  }

  /** A difference within the first `n` bytes decides the comparison. */
  lemma {:induction false} BeforeDecidedByPrefix(a: Bytes, b: Bytes, n: nat)
    requires n <= |a| && n <= |b|
    ensures Before(a[..n], b[..n]) ==> Before(a, b)
    ensures Before(a, b) ==> AtMost(a[..n], b[..n])
  {
    if n > 0 {
      assert a[1..][..n - 1] == a[..n][1..] && b[1..][..n - 1] == b[..n][1..];
      BeforeDecidedByPrefix(a[1..], b[1..], n - 1);
      assert a[..n] == [a[0]] + a[..n][1..] && b[..n] == [b[0]] + b[..n][1..];
    }
  }

  // ----- sorted enumeration

  predicate StrictlySorted(s: seq<Bytes>) {
    forall i, j :: 0 <= i < j < |s| ==> Before(s[i], s[j])
  }

  predicate IsLeast(k: Bytes, s: set<Bytes>) {
    k in s && forall j: Bytes :: j in s ==> AtMost(k, j)
  }

  lemma LeastExists(s: set<Bytes>)
    requires s != {}
    ensures exists k: Bytes :: IsLeast(k, s)
  {
    var x :| x in s;
    if s == {x} {
      assert IsLeast(x, s);
    } else {
      LeastExists(s - {x});
      var k: Bytes :| IsLeast(k, s - {x});
      BeforeTotal(x, k);
      if Before(x, k) {
        forall j | j in s ensures AtMost(x, j) {
          if j != x {
            assert AtMost(k, j);
            if j != k {
              BeforeTransitive(x, k, j);
            }
          }
        }
        assert IsLeast(x, s);
      } else {
        assert IsLeast(k, s);
      }
    }
  }

  lemma LeastUnique(k: Bytes, l: Bytes, s: set<Bytes>)
    requires IsLeast(k, s) && IsLeast(l, s)
    ensures k == l
  {
    assert AtMost(k, l) && AtMost(l, k);
    if k != l {
      BeforeAsymmetric(k, l);
    }
  }

  /** The bytewise least member. */
  function Least(s: set<Bytes>): (k: Bytes)
    requires s != {}
    ensures IsLeast(k, s)
  {
    LeastExists(s);
    assert forall k: Bytes, l: Bytes :: IsLeast(k, s) && IsLeast(l, s) ==> k == l by {
      forall k: Bytes, l: Bytes | IsLeast(k, s) && IsLeast(l, s) ensures k == l {
        LeastUnique(k, l, s);
      }
    }
    var k: Bytes :| k in s && IsLeast(k, s);
    k
  }

  /** The members in bytewise order: what iterating a `BTreeMap`'s keys yields. */
  function SortedKeys(s: set<Bytes>): (r: seq<Bytes>)
    ensures |r| == |s|
    ensures forall k :: k in r <==> k in s
    ensures StrictlySorted(r)
    decreases |s|
  {
    if s == {} then
      []
    else
      var k := Least(s);
      assert |s - {k}| == |s| - 1;
      var rest := SortedKeys(s - {k});
      assert forall j :: 0 <= j < |rest| ==> Before(k, rest[j]) by {
        forall j | 0 <= j < |rest| ensures Before(k, rest[j]) {
          assert rest[j] in rest && AtMost(k, rest[j]);
        }
      }
      [k] + rest
  }

  /** A strictly sorted sequence is the enumeration of its own members. */
  lemma {:induction false} SortedKeysUnique(r: seq<Bytes>, s: set<Bytes>)
    requires StrictlySorted(r)
    requires forall k :: k in r <==> k in s
    ensures r == SortedKeys(s)
  {
    if r == [] {
      assert forall k :: k in s ==> k in r;
    } else {
      assert r[0] in s;
      var k := Least(s);
      assert r[0] == k by {
        if r[0] != k {
          var i :| 0 <= i < |r| && r[i] == k;
          assert Before(r[0], r[i]);
          BeforeAsymmetric(r[0], k);
        }
      }
      assert r == [r[0]] + r[1..];
      BeforeIrreflexive(k);
      assert forall x :: x in r <==> x == k || x in r[1..];
      assert forall x :: x in r[1..] ==> Before(k, x);
      SortedKeysUnique(r[1..], s - {k});
    }
  }

  /** The same for a set of strings. */
  function SortedTexts(s: set<Text>): (r: seq<Text>)
    ensures |r| == |s|
    ensures forall i :: 0 <= i < |r| ==> r[i] in s
    ensures forall k :: k in r <==> k in s
    ensures StrictlySorted(r)
  {
    var r := SortedKeys(s);
    assert forall i :: 0 <= i < |r| ==> r[i] in r;
    r
  }

  /** A map's keys in bytewise order. */
  function KeysOf<V>(m: map<Text, V>): (r: seq<Text>)
    ensures |r| == |m|
    ensures forall i :: 0 <= i < |r| ==> r[i] in m
    ensures forall k :: k in r <==> k in m
    ensures StrictlySorted(r)
  {
    SortedTexts(m.Keys)
  }

  // ----- little-endian machine words

  /** `to_le_bytes` of a `u64`; a wider number is truncated as the `as u64` cast does. */
  function U64Le(n: nat): (r: Bytes)
    ensures |r| == 8
  {
    LeBytes(n, 8)
  }

  function LeBytes(n: nat, width: nat): (r: Bytes)
    ensures |r| == width
  {
    if width == 0 then [] else [n % 0x100] + LeBytes(n / 0x100, width - 1)
  }

  function LeValue(s: Bytes): nat {
    if s == [] then 0 else s[0] + 0x100 * LeValue(s[1..])
  }

  function Pow256(k: nat): nat {
    if k == 0 then 1 else 0x100 * Pow256(k - 1)
  }

  lemma {:induction false} LeRoundTrip(n: nat, width: nat)
    requires n < Pow256(width)
    ensures LeValue(LeBytes(n, width)) == n
  {
    if width > 0 {
      LeRoundTrip(n / 0x100, width - 1);
      assert LeBytes(n, width)[1..] == LeBytes(n / 0x100, width - 1);
    }
  }

  /** The bytes of a machine word, least significant first, are worth the number. */
  lemma U64LeValue(n: nat)
    requires n < U64_SIZE
    ensures LeValue(U64Le(n)) == n
  {
    assert Pow256(4) == 0x1_0000_0000;
    assert Pow256(8) == U64_SIZE by {
      assert Pow256(6) == 0x1_0000 * Pow256(4);
      assert Pow256(8) == 0x1_0000 * Pow256(6);
    }
    LeRoundTrip(n, 8);
  }

  lemma U64LeInjective(m: nat, n: nat)
    requires m < U64_SIZE && n < U64_SIZE && U64Le(m) == U64Le(n)
    ensures m == n
  {
    U64LeValue(m);
    U64LeValue(n);
  }

  // ----- cutting concatenations

  /** Concatenations with heads of one length are cut in one place. */
  lemma SplitAt(a: Bytes, x: Bytes, b: Bytes, y: Bytes)
    requires |a| == |b| && a + x == b + y
    ensures a == b && x == y
  {
    assert a == (a + x)[..|a|] && b == (b + y)[..|b|];
    assert x == (a + x)[|a|..] && y == (b + y)[|b|..];
  }

  lemma SplitHead(a: Bytes, p: Bytes, x: Bytes, b: Bytes, q: Bytes, y: Bytes)
    requires |a| == |b| && (a + p) + x == (b + q) + y
    ensures a == b && p + x == q + y
  {
    assert (a + p) + x == a + (p + x) && (b + q) + y == b + (q + y);
    SplitAt(a, p + x, b, q + y);
  }

  /** A separator that neither tail contains is found in one place. */
  lemma SplitAtLast(a: Bytes, x: Bytes, b: Bytes, y: Bytes, c: Byte)
    requires c !in x && c !in y && a + [c] + x == b + [c] + y
    ensures a == b && x == y
  {
    var s, t := a + [c] + x, b + [c] + y;
    assert s[|a|] == c && forall i :: |a| < i < |s| ==> s[i] == x[i - |a| - 1];
    assert t[|b|] == c && forall i :: |b| < i < |t| ==> t[i] == y[i - |b| - 1];
    SplitAt(a + [c], x, b + [c], y);
    SplitAt(a, [c], b, [c]);
  }

  /** A separator that neither head contains is found in one place. */
  lemma SplitAtFirst(a: Bytes, x: Bytes, b: Bytes, y: Bytes, c: Byte)
    requires c !in a && c !in b && a + [c] + x == b + [c] + y
    ensures a == b && x == y
  {
    var s, t := a + [c] + x, b + [c] + y;
    assert s[|a|] == c && forall i :: 0 <= i < |a| ==> s[i] == a[i];
    assert t[|b|] == c && forall i :: 0 <= i < |b| ==> t[i] == b[i];
    SplitAt(a + [c], x, b + [c], y);
    SplitAt(a, [c], b, [c]);
  }

  // ----- hex

  function HexDigit(n: nat): Byte
    requires n < 16
  {
    if n < 10 then 48 + n else 87 + n
  }

  /** `hex::encode` */
  function Hex(s: Bytes): (r: Bytes)
    ensures |r| == 2 * |s|
  {
    if s == [] then [] else [HexDigit(s[0] / 16), HexDigit(s[0] % 16)] + Hex(s[1..])
  }

  /** Two lower-case digits to a byte, the high half first. */
  lemma {:induction false} HexSpells(s: Bytes, i: nat)
    requires i < |s|
    ensures Hex(s)[2 * i] == Ascii("0123456789abcdef")[s[i] / 16]
    ensures Hex(s)[2 * i + 1] == Ascii("0123456789abcdef")[s[i] % 16]
  {
    if i > 0 {
      HexSpells(s[1..], i - 1);
      assert Hex(s)[2 * i] == Hex(s[1..])[2 * (i - 1)] && Hex(s)[2 * i + 1] == Hex(s[1..])[2 * (i - 1) + 1];
    } else {
      DigitSpelled(s[0] / 16);
      DigitSpelled(s[0] % 16);
    }
  }

  lemma DigitSpelled(n: nat)
    requires n < 16
    ensures HexDigit(n) == Ascii("0123456789abcdef")[n]
  {
  }

  lemma {:induction false} HexInjective(s: Bytes, t: Bytes)
    requires Hex(s) == Hex(t)
    ensures s == t
  {
    assert |Hex(s)| == |Hex(t)|;
    if s != [] {
      var hs, ht := [HexDigit(s[0] / 16), HexDigit(s[0] % 16)], [HexDigit(t[0] / 16), HexDigit(t[0] % 16)];
      SplitAt(hs, Hex(s[1..]), ht, Hex(t[1..]));
      assert hs[0] == ht[0] && hs[1] == ht[1];
      HexInjective(s[1..], t[1..]);
      assert s == [s[0]] + s[1..] && t == [t[0]] + t[1..];
    }
  }

  // ----- a digest of zeros

  function Zeros(): Digest {
    seq(32, _ => 0)
  }
}
