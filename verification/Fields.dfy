/**
 The field encodings preimages are made of, each of which marks its own end, and runs of records
 behind a count (solvency-report/src/digest.rs and the digests that follow it).
 */
module Fields {
  import opened Wrappers
  import opened ByteStrings
  import opened LengthPrefix

  type U64 = n: nat | n < U64_SIZE

  /** A vector whose length fits the `u64` written before it. */
  type Listed<T> = s: seq<T> | |s| < U64_SIZE

  datatype Field =
    | Str(s: Text)
    | Num(n: U64)
    | Amounts(m: AmountMap)
    | Maybe(o: Option<Text>)
    | Names(ts: Listed<Text>)
    | Raw(d: Digest)

  function LpAll(ts: seq<Text>): Bytes {
    if ts == [] then [] else Lp(ts[0]) + LpAll(ts[1..])
  }

  function Enc(f: Field): Bytes {
    match f
    case Str(s) => Lp(s)
    case Num(n) => U64Le(n)
    case Amounts(m) => LpMap(m)
    case Maybe(None) => [0]
    case Maybe(Some(s)) => [1] + Lp(s)
    case Names(ts) => U64Le(|ts|) + LpAll(ts)
    case Raw(d) => d
  }

  predicate SameKind(f: Field, g: Field) {
    match f
    case Str(_) => g.Str?
    case Num(_) => g.Num?
    case Amounts(_) => g.Amounts?
    case Maybe(_) => g.Maybe?
    case Names(_) => g.Names?
    case Raw(_) => g.Raw?
  }

  lemma {:induction false} LpAllPrefix(s: seq<Text>, x: Bytes, t: seq<Text>, y: Bytes)
    requires |s| == |t| && LpAll(s) + x == LpAll(t) + y
    ensures s == t && x == y
  {
    hide Lp;
    if s != [] {
      ConcatAssoc(Lp(s[0]), LpAll(s[1..]), x);
      ConcatAssoc(Lp(t[0]), LpAll(t[1..]), y);
      LpPrefix(s[0], LpAll(s[1..]) + x, t[0], LpAll(t[1..]) + y);
      LpAllPrefix(s[1..], x, t[1..], y);
      assert s == [s[0]] + s[1..] && t == [t[0]] + t[1..];
    } else {
      assert LpAll(s) + x == x && LpAll(t) + y == y;
    }
  }

  lemma ConcatAssoc(a: Bytes, b: Bytes, c: Bytes)
    ensures (a + b) + c == a + (b + c)
  {
  }

  /** A field of a known kind ends where it says it does. */
  lemma FieldPrefix(f: Field, x: Bytes, g: Field, y: Bytes)
    requires SameKind(f, g) && Enc(f) + x == Enc(g) + y
    ensures f == g && x == y
  {
    hide Lp, LpMap, U64Le, LpAll;
    match f {
      case Str(s) => LpPrefix(s, x, g.s, y);
      case Num(n) =>
        SplitAt(U64Le(n), x, U64Le(g.n), y);
        U64LeInjective(n, g.n);
      case Amounts(m) => LpMapPrefix(m, x, g.m, y);
      case Maybe(o) => MaybePrefix(o, x, g.o, y);
      case Names(ts) =>
        SplitHead(U64Le(|ts|), LpAll(ts), x, U64Le(|g.ts|), LpAll(g.ts), y);
        U64LeInjective(|ts|, |g.ts|);
        LpAllPrefix(ts, x, g.ts, y);
      case Raw(d) => SplitAt(d, x, g.d, y);
    }
  }

  /** The presence byte: an absent string and an empty one never agree. */
  lemma MaybePrefix(o: Option<Text>, x: Bytes, p: Option<Text>, y: Bytes)
    requires Enc(Maybe(o)) + x == Enc(Maybe(p)) + y
    ensures o == p && x == y
  {
    hide Lp;
    assert (Enc(Maybe(o)) + x)[0] == (if o.None? then 0 else 1);
    assert (Enc(Maybe(p)) + y)[0] == (if p.None? then 0 else 1);
    if o.Some? {
      SplitHead([1], Lp(o.value), x, [1], Lp(p.value), y);
      LpPrefix(o.value, x, p.value, y);
    } else {
      SplitAt([0], x, [0], y);
    }
  }

  // ----- runs of fields

  type Record = seq<Field>

  function EncAll(fs: Record): Bytes {
    if fs == [] then [] else Enc(fs[0]) + EncAll(fs[1..])
  }

  predicate SameKinds(fs: Record, gs: Record) {
    |fs| == |gs| && forall i :: 0 <= i < |fs| ==> SameKind(fs[i], gs[i])
  }

  lemma {:induction false} RecordPrefix(fs: Record, x: Bytes, gs: Record, y: Bytes)
    requires SameKinds(fs, gs) && EncAll(fs) + x == EncAll(gs) + y
    ensures fs == gs && x == y
  {
    hide Enc, SameKind;
    if fs != [] {
      ConcatAssoc(Enc(fs[0]), EncAll(fs[1..]), x);
      ConcatAssoc(Enc(gs[0]), EncAll(gs[1..]), y);
      FieldPrefix(fs[0], EncAll(fs[1..]) + x, gs[0], EncAll(gs[1..]) + y);
      RecordPrefix(fs[1..], x, gs[1..], y);
      assert fs == [fs[0]] + fs[1..] && gs == [gs[0]] + gs[1..];
    } else {
      assert EncAll(fs) + x == x && EncAll(gs) + y == y;
    }
  }

  function EncRecords(rs: seq<Record>): Bytes {
    if rs == [] then [] else EncAll(rs[0]) + EncRecords(rs[1..])
  }

  /** A count, then the records. */
  function Counted(rs: seq<Record>): Bytes {
    U64Le(|rs|) + EncRecords(rs)
  }

  ghost predicate AllLike(rs: seq<Record>, shape: Record) {
    forall i :: 0 <= i < |rs| ==> SameKinds(rs[i], shape)
  }

  lemma LikeEachOther(r: Record, q: Record, shape: Record)
    requires SameKinds(r, shape) && SameKinds(q, shape)
    ensures SameKinds(r, q)
  {
  }

  lemma {:induction false} RecordsPrefix(rs: seq<Record>, x: Bytes, qs: seq<Record>, y: Bytes, shape: Record)
    requires |rs| == |qs| && AllLike(rs, shape) && AllLike(qs, shape)
    requires EncRecords(rs) + x == EncRecords(qs) + y
    ensures rs == qs && x == y
  {
    hide EncAll, SameKinds;
    if rs != [] {
      LikeEachOther(rs[0], qs[0], shape);
      ConcatAssoc(EncAll(rs[0]), EncRecords(rs[1..]), x);
      ConcatAssoc(EncAll(qs[0]), EncRecords(qs[1..]), y);
      RecordPrefix(rs[0], EncRecords(rs[1..]) + x, qs[0], EncRecords(qs[1..]) + y);
      RecordsPrefix(rs[1..], x, qs[1..], y, shape);
      assert rs == [rs[0]] + rs[1..] && qs == [qs[0]] + qs[1..];
    } else {
      assert EncRecords(rs) + x == x && EncRecords(qs) + y == y;
    }
  }

  /** A counted run of like records ends where it says it does. */
  lemma CountedRunPrefix(rs: Listed<Record>, x: Bytes, qs: Listed<Record>, y: Bytes, shape: Record)
    requires AllLike(rs, shape) && AllLike(qs, shape)
    requires Counted(rs) + x == Counted(qs) + y
    ensures rs == qs && x == y
  {
    hide EncRecords, U64Le;
    SplitHead(U64Le(|rs|), EncRecords(rs), x, U64Le(|qs|), EncRecords(qs), y);
    U64LeInjective(|rs|, |qs|);
    RecordsPrefix(rs, x, qs, y, shape);
  }
}
