/**
 The effects walk over a prepared transaction: a depth-first traversal of a node graph that may be
 cyclic, shared or dangling, accumulating into five collections (sim-core/src/prepared.rs).
 */
module Prepared {
  import opened Wrappers
  import opened ByteStrings

  type Id = Bytes

  /** A value as rendered. */
  type Json = Bytes

  /** The identifiers a node carries, as text; a create has no interface. */
  datatype Identifiers = Identifiers(templateId: Option<Bytes>, packageName: Bytes, interfaceId: Option<Bytes>)

  /** A decoded node; `Unknown` is one whose type is absent. */
  datatype TxNode =
    | Create(
        identifiers: Identifiers, contractId: Id, signatories: seq<Id>, stakeholders: seq<Id>, argument: Option<Json>)
    | Exercise(
        identifiers: Identifiers, contractId: Id, choice: Bytes, consuming: bool,
        signatories: seq<Id>, stakeholders: seq<Id>, actingParties: seq<Id>, choiceObservers: seq<Id>,
        argument: Option<Json>, result: Option<Json>, children: seq<Id>)
    | Fetch(
        identifiers: Identifiers, contractId: Id, signatories: seq<Id>, stakeholders: seq<Id>, actingParties: seq<Id>)
    | Rollback(children: seq<Id>)
    | Unknown

  /** A node as listed: its version may be one the decoder does not know. */
  datatype TxEntry = TxEntry(nodeId: Id, body: Option<TxNode>)

  type NodeMap = map<Id, TxNode>

  datatype NodeKind = CreateKind | ExerciseKind | FetchKind | RollbackKind

  datatype EffectNode = EffectNode(
    nodeId: Id,
    depth: nat,
    kind: NodeKind,
    templateId: Option<Bytes>,
    packageName: Option<Bytes>,
    interfaceId: Option<Bytes>,
    contractId: Option<Id>,
    choice: Option<Bytes>,
    consuming: Option<bool>,
    actingParties: seq<Id>,
    signatories: seq<Id>,
    stakeholders: seq<Id>,
    choiceObservers: seq<Id>,
    argument: Option<Json>,
    result: Option<Json>,
    children: seq<Id>)

  datatype EffectCounts =
    EffectCounts(creates: nat, exercises: nat, archives: nat, fetches: nat, rollbacks: nat)

  function NonEmpty(s: Id): Option<Id> {
    if s == [] then None else Some(s)
  }

  /** What is listed for a node. Arguments and results only when asked for. */
  function EffectOf(show: bool, id: Id, depth: nat, node: TxNode): (e: EffectNode)
    requires !node.Unknown?
    ensures e.nodeId == id && e.depth == depth
  {
    match node
    case Create(l, cid, sig, st, arg) =>
      EffectNode(
        id, depth, CreateKind, l.templateId, NonEmpty(l.packageName), None, NonEmpty(cid), None, None,
        [], sig, st, [], if show then arg else None, None, [])
    case Exercise(l, cid, choice, consuming, sig, st, acting, obs, arg, result, children) =>
      EffectNode(
        id, depth, ExerciseKind, l.templateId, NonEmpty(l.packageName), l.interfaceId, NonEmpty(cid), NonEmpty(choice),
        Some(consuming), acting, sig, st, obs, if show then arg else None, if show then result else None, children)
    case Fetch(l, cid, sig, st, acting) =>
      EffectNode(
        id, depth, FetchKind, l.templateId, NonEmpty(l.packageName), l.interfaceId, NonEmpty(cid), None, None,
        acting, sig, st, [], None, None, [])
    case Rollback(children) =>
      EffectNode(id, depth, RollbackKind, None, None, None, None, None, None, [], [], [], [], None, None, children)
  }

  function AsSet(s: seq<Id>): set<Id> {
    set x | x in s
  }

  /** Everyone a node informs. */
  function Informs(node: TxNode): set<Id> {
    match node
    case Create(_, _, sig, st, _) => AsSet(sig) + AsSet(st)
    case Exercise(_, _, _, _, sig, st, acting, obs, _, _, _) => AsSet(sig) + AsSet(st) + AsSet(acting) + AsSet(obs)
    case Fetch(_, _, sig, st, acting) => AsSet(sig) + AsSet(st) + AsSet(acting)
    case _ => {}
  }

  /** The contract a node archives. */
  function Consumes(node: TxNode): set<Id> {
    if node.Exercise? && node.consuming then {node.contractId} else {}
  }

  // ----- the flat pass: plain folds over the map, no traversal

  predicate Decodable(byId: NodeMap, id: Id) {
    id in byId && !byId[id].Unknown?
  }

  ghost function DecodableAmong(byId: NodeMap, ids: set<Id>): set<Id> {
    set id | id in ids && Decodable(byId, id)
  }

  datatype Counted = Creates | Exercises | Archives | Fetches | Rollbacks

  predicate CountsAs(node: TxNode, c: Counted) {
    match c
    case Creates => node.Create?
    case Exercises => node.Exercise?
    case Archives => node.Exercise? && node.consuming
    case Fetches => node.Fetch?
    case Rollbacks => node.Rollback?
  }

  ghost function Picked(byId: NodeMap, ids: set<Id>, c: Counted): set<Id> {
    set id | id in ids && id in byId && CountsAs(byId[id], c)
  }

  ghost function FlatCounts(byId: NodeMap, ids: set<Id>): EffectCounts {
    EffectCounts(
      |Picked(byId, ids, Creates)|, |Picked(byId, ids, Exercises)|, |Picked(byId, ids, Archives)|,
      |Picked(byId, ids, Fetches)|, |Picked(byId, ids, Rollbacks)|)
  }

  ghost function FlatInformees(byId: NodeMap, ids: set<Id>): set<Id> {
    set id, party | id in ids && id in byId && party in Informs(byId[id]) :: party
  }

  ghost function FlatConsumed(byId: NodeMap, ids: set<Id>): set<Id> {
    set id | id in ids && id in byId && byId[id].Exercise? && byId[id].consuming :: byId[id].contractId
  }

  function Tally(c: EffectCounts, node: TxNode): EffectCounts {
    match node
    case Create(_, _, _, _, _) => c.(creates := c.creates + 1)
    case Exercise(_, _, _, consuming, _, _, _, _, _, _, _) =>
      c.(exercises := c.exercises + 1, archives := c.archives + if consuming then 1 else 0)
    case Fetch(_, _, _, _, _) => c.(fetches := c.fetches + 1)
    case Rollback(_) => c.(rollbacks := c.rollbacks + 1)
    case Unknown => c
  }

  lemma PickOne(byId: NodeMap, ids: set<Id>, id: Id, c: Counted)
    requires id !in ids && id in byId
    ensures |Picked(byId, ids + {id}, c)| == |Picked(byId, ids, c)| + if CountsAs(byId[id], c) then 1 else 0
  {
    hide CountsAs;
    var some, more := Picked(byId, ids, c), Picked(byId, ids + {id}, c);
    assert more == some + if CountsAs(byId[id], c) then {id} else {};
  }

  lemma PickSame(byId: NodeMap, few: set<Id>, many: set<Id>, c: Counted)
    requires few * byId.Keys == many * byId.Keys
    ensures Picked(byId, few, c) == Picked(byId, many, c)
  {
    hide CountsAs;
    assert forall id :: id in byId ==> (id in few <==> id in few * byId.Keys);
    assert forall id :: id in byId ==> (id in many <==> id in many * byId.Keys);
  }

  lemma CountsSame(byId: NodeMap, few: set<Id>, many: set<Id>)
    requires few * byId.Keys == many * byId.Keys
    ensures FlatCounts(byId, few) == FlatCounts(byId, many)
  {
    hide Picked;
    PickSame(byId, few, many, Creates);
    PickSame(byId, few, many, Exercises);
    PickSame(byId, few, many, Archives);
    PickSame(byId, few, many, Fetches);
    PickSame(byId, few, many, Rollbacks);
  }

  lemma TallyOne(byId: NodeMap, ids: set<Id>, id: Id)
    requires id !in ids && id in byId
    ensures FlatCounts(byId, ids + {id}) == Tally(FlatCounts(byId, ids), byId[id])
  {
    hide Picked;
    PickOne(byId, ids, id, Creates);
    PickOne(byId, ids, id, Exercises);
    PickOne(byId, ids, id, Archives);
    PickOne(byId, ids, id, Fetches);
    PickOne(byId, ids, id, Rollbacks);
  }

  lemma InformOne(byId: NodeMap, ids: set<Id>, id: Id)
    requires id in byId
    ensures FlatInformees(byId, ids + {id}) == FlatInformees(byId, ids) + Informs(byId[id])
  {
    hide Informs;
    assert id in ids + {id};
  }

  lemma ConsumeOne(byId: NodeMap, ids: set<Id>, id: Id)
    requires id in byId
    ensures FlatConsumed(byId, ids + {id})
         == FlatConsumed(byId, ids) + Consumes(byId[id])
  {
    assert id in ids + {id};
  }

  lemma DanglingAddsNothing(byId: NodeMap, ids: set<Id>, id: Id)
    requires id !in byId
    ensures FlatCounts(byId, ids + {id}) == FlatCounts(byId, ids)
    ensures FlatInformees(byId, ids + {id}) == FlatInformees(byId, ids)
    ensures FlatConsumed(byId, ids + {id}) == FlatConsumed(byId, ids)
    ensures DecodableAmong(byId, ids + {id}) == DecodableAmong(byId, ids)
  {
    CountsSame(byId, ids, ids + {id});
  }

  // ----- the listing of each node

  predicate IsListing(show: bool, byId: NodeMap, e: EffectNode) {
    Decodable(byId, e.nodeId) && e == EffectOf(show, e.nodeId, e.depth, byId[e.nodeId])
  }

  /** Every decodable node of `ids` is listed, once, as itself. */
  ghost predicate Lists(show: bool, byId: NodeMap, out: seq<EffectNode>, ids: set<Id>) {
    && (forall i :: 0 <= i < |out| ==> out[i].nodeId in ids && IsListing(show, byId, out[i]))
    && (forall i, j :: 0 <= i < j < |out| ==> out[i].nodeId != out[j].nodeId)
    && (forall id :: id in ids && Decodable(byId, id) ==> exists i :: 0 <= i < |out| && out[i].nodeId == id)
  }

  lemma ListOne(show: bool, byId: NodeMap, out: seq<EffectNode>, ids: set<Id>, id: Id, depth: nat)
    requires Lists(show, byId, out, ids) && id !in ids && Decodable(byId, id)
    ensures Lists(show, byId, out + [EffectOf(show, id, depth, byId[id])], ids + {id})
  {
    var more := out + [EffectOf(show, id, depth, byId[id])];
    assert more[|out|].nodeId == id;
    forall x | x in ids + {id} && Decodable(byId, x) ensures exists i :: 0 <= i < |more| && more[i].nodeId == x {
      if x != id {
        var i :| 0 <= i < |out| && out[i].nodeId == x;
        assert more[i].nodeId == x;
      }
    }
  }

  lemma ListNone(show: bool, byId: NodeMap, out: seq<EffectNode>, ids: set<Id>, id: Id)
    requires Lists(show, byId, out, ids) && !Decodable(byId, id)
    ensures Lists(show, byId, out, ids + {id})
  {
  }

  /** What is listed for a node, field by field: what was decoded, an empty text as none. */
  lemma ListedAsDecoded(show: bool, byId: NodeMap, e: EffectNode)
    ensures IsListing(show, byId, e) <==>
      && e.nodeId in byId && !byId[e.nodeId].Unknown?
      && var node := byId[e.nodeId];
      && e.kind == (if node.Create? then CreateKind else if node.Exercise? then ExerciseKind
                    else if node.Fetch? then FetchKind else RollbackKind)
      && e.templateId == (if node.Rollback? then None else node.identifiers.templateId)
      && e.packageName == (if node.Rollback? || node.identifiers.packageName == [] then None
                           else Some(node.identifiers.packageName))
      && e.interfaceId == (if node.Exercise? || node.Fetch? then node.identifiers.interfaceId else None)
      && e.contractId == (if node.Rollback? || node.contractId == [] then None else Some(node.contractId))
      && e.choice == (if node.Exercise? && node.choice != [] then Some(node.choice) else None)
      && e.consuming == (if node.Exercise? then Some(node.consuming) else None)
      && e.actingParties == (if node.Exercise? || node.Fetch? then node.actingParties else [])
      && e.signatories == (if node.Rollback? then [] else node.signatories)
      && e.stakeholders == (if node.Rollback? then [] else node.stakeholders)
      && e.choiceObservers == (if node.Exercise? then node.choiceObservers else [])
      && e.argument == (if show && (node.Create? || node.Exercise?) then node.argument else None)
      && e.result == (if show && node.Exercise? then node.result else None)
      && e.children == (if node.Exercise? || node.Rollback? then node.children else [])
  {
  }

  // ----- the order of the listing

  function Children(node: TxNode): seq<Id> {
    match node
    case Exercise(_, _, _, _, _, _, _, _, _, _, children) => children
    case Rollback(children) => children
    case _ => []
  }

  /** A listed id and how deep it hangs. */
  datatype Place = Place(id: Id, depth: nat)

  datatype Visit = Visit(listed: seq<Place>, seen: set<Id>)

  /**
   Depth-first preorder from each of `ids` in turn: a present node not yet seen comes first, then all
   that hangs below it, then what follows. A node whose type is absent takes no place.
   */
  function Preorder(byId: NodeMap, ids: seq<Id>, depth: nat, seen: set<Id>): (v: Visit)
    ensures seen <= v.seen
    ensures forall i :: 0 <= i < |v.listed| ==> v.listed[i].id in byId
    decreases byId.Keys - seen, |ids|
  {
    if ids == [] then Visit([], seen)
    else if ids[0] in seen || ids[0] !in byId then Preorder(byId, ids[1..], depth, seen)
    else
      var node := byId[ids[0]];
      var below := Preorder(byId, Children(node), depth + 1, seen + {ids[0]});
      var after := Preorder(byId, ids[1..], depth, below.seen);
      Visit((if node.Unknown? then [] else [Place(ids[0], depth)]) + below.listed + after.listed, after.seen)
  }

  /** What was listed so far, then a further visit. */
  function Then(listed: seq<Place>, v: Visit): Visit {
    Visit(listed + v.listed, v.seen)
  }

  lemma ThenThen(a: seq<Place>, b: seq<Place>, v: Visit)
    ensures Then(a, Then(b, v)) == Then(a + b, v)
  {
    assert a + (b + v.listed) == (a + b) + v.listed;
  }

  /** One starting id, then the others. */
  lemma PreorderHead(byId: NodeMap, ids: seq<Id>, depth: nat, seen: set<Id>)
    requires ids != []
    ensures
      var first := Preorder(byId, [ids[0]], depth, seen);
      Preorder(byId, ids, depth, seen) == Then(first.listed, Preorder(byId, ids[1..], depth, first.seen))
  {
    var one: seq<Id> := [ids[0]];
    assert one[1..] == [];
    if ids[0] !in seen && ids[0] in byId {
      OnePlace(byId, ids[0], depth, seen);
    } else {
      assert Preorder(byId, [ids[0]], depth, seen) == Visit([], seen);
    }
  }

  lemma Onward(byId: NodeMap, listed: seq<Place>, ids: seq<Id>, depth: nat, seen: set<Id>)
    requires ids != []
    ensures
      var first := Preorder(byId, [ids[0]], depth, seen);
      Then(listed, Preorder(byId, ids, depth, seen))
        == Then(listed + first.listed, Preorder(byId, ids[1..], depth, first.seen))
  {
    hide Preorder;
    var first := Preorder(byId, [ids[0]], depth, seen);
    PreorderHead(byId, ids, depth, seen);
    ThenThen(listed, first.listed, Preorder(byId, ids[1..], depth, first.seen));
  }

  /** A present node comes before all that hangs below it. */
  lemma OnePlace(byId: NodeMap, id: Id, depth: nat, seen: set<Id>)
    requires id in byId && id !in seen
    ensures
      var below := Preorder(byId, Children(byId[id]), depth + 1, seen + {id});
      Preorder(byId, [id], depth, seen)
        == Then(if byId[id].Unknown? then [] else [Place(id, depth)], below)
  {
    var below := Preorder(byId, Children(byId[id]), depth + 1, seen + {id});
    var own := if byId[id].Unknown? then [] else [Place(id, depth)];
    var one: seq<Id> := [id];
    assert one[1..] == [];
    assert Preorder(byId, [], depth, below.seen) == Visit([], below.seen);
    assert (own + below.listed) + [] == own + below.listed;
  }

  /** The source's own edges. */
  predicate Mentions(byId: NodeMap, id: Id, child: Id) {
    && id in byId && child in byId
    && ((byId[id].Exercise? && child in byId[id].children) || (byId[id].Rollback? && child in byId[id].children))
  }

  lemma ChildrenMentioned(byId: NodeMap, id: Id, child: Id)
    requires id in byId
    ensures Mentions(byId, id, child) <==> child in Children(byId[id]) && child in byId
  {
  }

  ghost predicate ClosedBut(byId: NodeMap, ids: set<Id>, except: set<Id>) {
    forall id, child :: id in ids && id !in except && Mentions(byId, id, child) ==> child in ids
  }

  /**
   What a visit has seen is what can be reached: it holds the starting nodes and every child of what
   it added, and lies in every set that does.
   */
  lemma {:induction false} PreorderReaches(byId: NodeMap, ids: seq<Id>, depth: nat, seen: set<Id>, within: set<Id>)
    ensures
      var v := Preorder(byId, ids, depth, seen);
      && (forall id :: id in ids && id in byId ==> id in v.seen)
      && ClosedBut(byId, v.seen, seen)
      && ((seen <= within && ClosedBut(byId, within, seen)
           && forall id :: id in ids && id in byId ==> id in within)
          ==> v.seen <= within)
    decreases byId.Keys - seen, |ids|
  {
    if ids != [] {
      if ids[0] in seen || ids[0] !in byId {
        PreorderReaches(byId, ids[1..], depth, seen, within);
      } else {
        var node := byId[ids[0]];
        var below := Preorder(byId, Children(node), depth + 1, seen + {ids[0]});
        PreorderReaches(byId, Children(node), depth + 1, seen + {ids[0]}, within);
        PreorderReaches(byId, ids[1..], depth, below.seen, within);
        forall child ensures Mentions(byId, ids[0], child) <==> child in Children(node) && child in byId {
          ChildrenMentioned(byId, ids[0], child);
        }
      }
      assert forall id :: id in ids <==> id == ids[0] || id in ids[1..];
    }
  }

  /** The place at `i` hangs under its nearest shallower predecessor, one edge up, which mentions it. */
  ghost predicate HangsUnder(byId: NodeMap, listed: seq<Place>, i: nat, p: nat)
    requires p < i < |listed|
  {
    && listed[p].depth + 1 == listed[i].depth
    && Mentions(byId, listed[p].id, listed[i].id)
    && forall q :: p < q < i ==> listed[q].depth >= listed[i].depth
  }

  ghost predicate Hangs(byId: NodeMap, listed: seq<Place>, i: nat)
    requires i < |listed|
  {
    exists p :: 0 <= p < i && HangsUnder(byId, listed, i, p)
  }

  /** Every place is a starting node at `depth`, or hangs a level below one listed before it. */
  ghost predicate AllHang(byId: NodeMap, listed: seq<Place>, ids: seq<Id>, depth: nat) {
    forall i :: 0 <= i < |listed| ==>
      || (listed[i].depth == depth && listed[i].id in ids)
      || (listed[i].depth > depth && Hangs(byId, listed, i))
  }

  /** Depth is the number of edges walked: from a starting node, one for each level. */
  lemma {:induction false} PreorderHangs(byId: NodeMap, ids: seq<Id>, depth: nat, seen: set<Id>)
    ensures AllHang(byId, Preorder(byId, ids, depth, seen).listed, ids, depth)
    decreases byId.Keys - seen, |ids|
  {
    hide Hangs, Mentions;
    if ids == [] {
    } else if ids[0] in seen || ids[0] !in byId {
      PreorderHangs(byId, ids[1..], depth, seen);
      assert forall id :: id in ids[1..] ==> id in ids;
    } else {
      var node := byId[ids[0]];
      var below := Preorder(byId, Children(node), depth + 1, seen + {ids[0]});
      var after := Preorder(byId, ids[1..], depth, below.seen);
      PreorderHangs(byId, Children(node), depth + 1, seen + {ids[0]});
      PreorderHangs(byId, ids[1..], depth, below.seen);
      assert forall id :: id in ids[1..] ==> id in ids;
      if node.Unknown? {
        assert below == Visit([], seen + {ids[0]});
        assert [] + below.listed + after.listed == after.listed;
      } else {
        HangBelow(byId, ids[0], below.listed, depth);
        HangAfter(byId, [Place(ids[0], depth)] + below.listed, after.listed, ids, depth);
      }
    }
  }

  lemma HangsShift(byId: NodeMap, head: seq<Place>, tail: seq<Place>, i: nat)
    requires i < |tail| && Hangs(byId, tail, i)
    ensures Hangs(byId, head + tail, |head| + i)
  {
    hide Mentions;
    var all := head + tail;
    var p :| 0 <= p < i && HangsUnder(byId, tail, i, p);
    forall q | |head| + p < q < |head| + i ensures all[q].depth >= tail[i].depth {
      assert all[q] == tail[q - |head|];
    }
    assert HangsUnder(byId, all, |head| + i, |head| + p);
  }

  lemma HangsStill(byId: NodeMap, head: seq<Place>, tail: seq<Place>, i: nat)
    requires i < |head| && Hangs(byId, head, i)
    ensures Hangs(byId, head + tail, i)
  {
    hide Mentions;
    var p :| 0 <= p < i && HangsUnder(byId, head, i, p);
    assert forall q :: 0 <= q <= i ==> (head + tail)[q] == head[q];
    assert HangsUnder(byId, head + tail, i, p);
  }

  lemma HangsFirst(byId: NodeMap, top: Place, below: seq<Place>, i: nat)
    requires i < |below| && below[i].depth == top.depth + 1 && Mentions(byId, top.id, below[i].id)
    requires forall q :: 0 <= q < |below| ==> below[q].depth > top.depth
    ensures Hangs(byId, [top] + below, i + 1)
  {
    hide Mentions;
    var all := [top] + below;
    forall q | 0 < q < i + 1 ensures all[q].depth >= below[i].depth {
      assert all[q] == below[q - 1];
    }
    assert HangsUnder(byId, all, i + 1, 0);
  }

  lemma HangBelow(byId: NodeMap, id: Id, below: seq<Place>, depth: nat)
    requires id in byId && AllHang(byId, below, Children(byId[id]), depth + 1)
    requires forall i :: 0 <= i < |below| ==> below[i].id in byId
    ensures AllHang(byId, [Place(id, depth)] + below, [id], depth)
  {
    hide Children, Mentions, Hangs;
    var top := Place(id, depth);
    var all := [top] + below;
    forall i | 0 < i < |all| ensures all[i].depth > depth && Hangs(byId, all, i) {
      assert all[i] == below[i - 1];
      if all[i].depth == depth + 1 && all[i].id in Children(byId[id]) {
        ChildrenMentioned(byId, id, all[i].id);
        HangsFirst(byId, top, below, i - 1);
      } else {
        HangsShift(byId, [top], below, i - 1);
      }
    }
  }

  lemma HangAfter(byId: NodeMap, head: seq<Place>, after: seq<Place>, ids: seq<Id>, depth: nat)
    requires ids != [] && AllHang(byId, head, [ids[0]], depth) && AllHang(byId, after, ids[1..], depth)
    ensures AllHang(byId, head + after, ids, depth)
  {
    hide Hangs;
    var all := head + after;
    forall i | 0 <= i < |all| && !(all[i].depth == depth && all[i].id in ids)
      ensures all[i].depth > depth && Hangs(byId, all, i)
    {
      if i < |head| {
        HangsStill(byId, head, after, i);
      } else {
        HangsShift(byId, head, after, i - |head|);
      }
    }
  }

  /** Where each entry stands. */
  function Places(out: seq<EffectNode>): seq<Place> {
    seq(|out|, i requires 0 <= i < |out| => Place(out[i].nodeId, out[i].depth))
  }

  lemma PlacesAppend(out: seq<EffectNode>, e: EffectNode)
    ensures Places(out + [e]) == Places(out) + [Place(e.nodeId, e.depth)]
  {
  }

  // ----- the walk

  class EffectsWalk {
    const show: bool
    var out: seq<EffectNode>
    var counts: EffectCounts
    var informees: set<Id>
    var consumed: set<Id>
    var visited: set<Id>

    /** What the accumulators hold is what a flat pass over the visited ids gives. */
    ghost predicate Agrees(byId: NodeMap)
      reads this
    {
      && Lists(show, byId, out, visited)
      && counts == FlatCounts(byId, visited)
      && informees == FlatInformees(byId, visited)
      && consumed == FlatConsumed(byId, visited)
    }

    constructor (show: bool, byId: NodeMap)
      ensures this.show == show
      ensures Agrees(byId) && visited == {} && out == []
    {
      this.show := show;
      out := [];
      counts := EffectCounts(0, 0, 0, 0, 0);
      informees := {};
      consumed := {};
      visited := {};
    }

    /** The accumulation on a node that is present, before its children. */
    method Record(id: Id, depth: nat, byId: NodeMap)
      requires Agrees(byId) && id !in visited && id in byId && !byId[id].Unknown?
      modifies this
      ensures Agrees(byId) && visited == old(visited) + {id}
      ensures out == old(out) + [EffectOf(show, id, depth, byId[id])]
    {
      hide Lists, FlatCounts, FlatInformees, FlatConsumed, AsSet;
      TallyOne(byId, visited, id);
      InformOne(byId, visited, id);
      ConsumeOne(byId, visited, id);
      ListOne(show, byId, out, visited, id, depth);
      visited := visited + {id};
      Accumulate(byId[id]);
      out := out + [EffectOf(show, id, depth, byId[id])];
    }

    /** What one node adds to the counters and the two sets. */
    method Accumulate(node: TxNode)
      modifies this`counts, this`informees, this`consumed
      ensures counts == Tally(old(counts), node)
      ensures informees == old(informees) + Informs(node)
      ensures consumed == old(consumed) + Consumes(node)
    {
      hide AsSet;
      match node {
        case Create(_, _, sig, st, _) =>
          counts := counts.(creates := counts.creates + 1);
          informees := informees + (AsSet(sig) + AsSet(st));
        case Exercise(_, cid, _, consuming, sig, st, acting, obs, _, _, _) =>
          counts := counts.(exercises := counts.exercises + 1);
          if consuming {
            counts := counts.(archives := counts.archives + 1);
            consumed := consumed + {cid};
          }
          informees := informees + (AsSet(sig) + AsSet(st) + AsSet(acting) + AsSet(obs));
        case Fetch(_, _, sig, st, acting) =>
          counts := counts.(fetches := counts.fetches + 1);
          informees := informees + (AsSet(sig) + AsSet(st) + AsSet(acting));
        case Rollback(_) =>
          counts := counts.(rollbacks := counts.rollbacks + 1);
        case Unknown =>
      }
    }

    /** `walk` */
    method Walk(id: Id, depth: nat, byId: NodeMap)
      requires Agrees(byId)
      modifies this
      ensures Agrees(byId)
      ensures old(visited) + {id} <= visited
      ensures
        var v := Preorder(byId, [id], depth, old(visited) * byId.Keys);
        Places(out) == Places(old(out)) + v.listed && visited * byId.Keys == v.seen
      decreases byId.Keys - visited
    {
      hide Lists, FlatCounts, FlatInformees, FlatConsumed, Places, EffectOf;
      var one: seq<Id> := [id];
    assert one[1..] == [];
      if id in visited {
        return;
      }
      if id !in byId {
        DanglingAddsNothing(byId, visited, id);
        ListNone(show, byId, out, visited, id);
        visited := visited + {id};
        return;
      }
      if byId[id].Unknown? {
        UnknownAddsNothing(byId, visited, id);
        ListNone(show, byId, out, visited, id);
        visited := visited + {id};
        OnePlace(byId, id, depth, old(visited) * byId.Keys);
        assert visited * byId.Keys == old(visited) * byId.Keys + {id};
        return;
      }
      Record(id, depth, byId);
      PlacesAppend(old(out), EffectOf(show, id, depth, byId[id]));
      OnePlace(byId, id, depth, old(visited) * byId.Keys);
      assert visited * byId.Keys == old(visited) * byId.Keys + {id};
      var children := EffectOf(show, id, depth, byId[id]).children;
      ListedAsDecoded(show, byId, EffectOf(show, id, depth, byId[id]));
      ghost var start, own := Places(out), Preorder(byId, children, depth + 1, visited * byId.Keys);
      for c := 0 to |children|
        invariant Agrees(byId)
        invariant old(visited) + {id} <= visited
        invariant Then(Places(out), Preorder(byId, children[c..], depth + 1, visited * byId.Keys)) == Then(start, own)
      {
        if children[c] in byId {
          Onward(byId, Places(out), children[c..], depth + 1, visited * byId.Keys);
          Walk(children[c], depth + 1, byId);
        }
        assert children[c..][1..] == children[c + 1..];
      }
      assert children[|children|..] == [];
      ThenThen(Places(old(out)), [Place(id, depth)], own);
    }
  }

  lemma UnknownAddsNothing(byId: NodeMap, ids: set<Id>, id: Id)
    requires id !in ids && id in byId && byId[id].Unknown?
    ensures FlatCounts(byId, ids + {id}) == FlatCounts(byId, ids)
    ensures FlatInformees(byId, ids + {id}) == FlatInformees(byId, ids)
    ensures FlatConsumed(byId, ids + {id}) == FlatConsumed(byId, ids)
  {
    TallyOne(byId, ids, id);
    InformOne(byId, ids, id);
    ConsumeOne(byId, ids, id);
  }

  // ----- the whole transaction

  /** Collecting the nodes by id: a later node under the same id replaces an earlier one. */
  function ById(nodes: seq<TxEntry>): NodeMap {
    if nodes == [] then map[]
    else
      var m := ById(nodes[..|nodes| - 1]);
      var last := nodes[|nodes| - 1];
      if last.body.Some? then m[last.nodeId := last.body.value] else m
  }

  lemma {:induction false} ByIdListed(nodes: seq<TxEntry>, id: Id)
    requires id in ById(nodes)
    ensures exists i :: 0 <= i < |nodes| && nodes[i].nodeId == id
  {
    var n := |nodes| - 1;
    if nodes[n].nodeId != id {
      ByIdListed(nodes[..n], id);
      var i :| 0 <= i < n && nodes[..n][i].nodeId == id;
      assert nodes[i].nodeId == id;
    }
  }

  datatype Effects = Effects(
    nodes: seq<EffectNode>, counts: EffectCounts, informees: set<Id>, consumedInputs: seq<bool>)

  lemma SameFlat(show: bool, byId: NodeMap, ids: set<Id>, w: seq<EffectNode>)
    requires byId.Keys <= ids && Lists(show, byId, w, ids)
    ensures FlatCounts(byId, ids) == FlatCounts(byId, byId.Keys)
    ensures FlatInformees(byId, ids) == FlatInformees(byId, byId.Keys)
    ensures FlatConsumed(byId, ids) == FlatConsumed(byId, byId.Keys)
    ensures Lists(show, byId, w, byId.Keys)
    ensures forall i, j :: 0 <= i < j < |w| ==> w[i].nodeId != w[j].nodeId
  {
    CountsSame(byId, ids, byId.Keys);
  }

  /** Where a transaction's walk starts: its roots, then every listed node in turn. */
  function Starts(nodes: seq<TxEntry>, roots: seq<Id>): seq<Id> {
    roots + seq(|nodes|, i requires 0 <= i < |nodes| => nodes[i].nodeId)
  }

  /**
   `effects_of`: whatever the roots and however the graph is tied, each decodable node is listed
   exactly once, in depth-first preorder from the roots and then from what they did not reach, and the
   accumulators are the flat folds over the node map.
   */
  method EffectsOf(nodes: seq<TxEntry>, roots: seq<Id>, inputs: seq<Id>, show: bool) returns (e: Effects)
    ensures Lists(show, ById(nodes), e.nodes, ById(nodes).Keys)
    ensures forall i, j :: 0 <= i < j < |e.nodes| ==> e.nodes[i].nodeId != e.nodes[j].nodeId
    ensures Places(e.nodes) == Preorder(ById(nodes), Starts(nodes, roots), 0, {}).listed
    ensures e.counts == FlatCounts(ById(nodes), ById(nodes).Keys)
    ensures e.informees == FlatInformees(ById(nodes), ById(nodes).Keys)
    ensures |e.consumedInputs| == |inputs|
    ensures forall i :: 0 <= i < |inputs| ==>
      (e.consumedInputs[i] <==> inputs[i] in FlatConsumed(ById(nodes), ById(nodes).Keys))
  {
    hide Lists, FlatCounts, FlatInformees, FlatConsumed, Places, Preorder;
    var byId := ById(nodes);
    ghost var ids := Starts(nodes, roots);
    var w := new EffectsWalk(show, byId);
    ghost var whole := Preorder(byId, ids, 0, {});
    PlacesNone();
    assert ids[0..] == ids && {} * byId.Keys == {} && [] + whole.listed == whole.listed;
    for r := 0 to |roots|
      invariant w.Agrees(byId)
      invariant Then(Places(w.out), Preorder(byId, ids[r..], 0, w.visited * byId.Keys)) == whole
    {
      Onward(byId, Places(w.out), ids[r..], 0, w.visited * byId.Keys);
      w.Walk(roots[r], 0, byId);
      assert ids[r..][1..] == ids[r + 1..];
    }
    for n := 0 to |nodes|
      invariant w.Agrees(byId)
      invariant Then(Places(w.out), Preorder(byId, ids[|roots| + n..], 0, w.visited * byId.Keys)) == whole
      invariant forall k :: 0 <= k < n ==> nodes[k].nodeId in w.visited
    {
      ghost var rest := ids[|roots| + n..];
      assert rest[0] == nodes[n].nodeId && rest[1..] == ids[|roots| + n + 1..];
      if nodes[n].nodeId !in w.visited {
        Onward(byId, Places(w.out), rest, 0, w.visited * byId.Keys);
        w.Walk(nodes[n].nodeId, 0, byId);
      } else {
        PassedOver(byId, rest, 0, w.visited * byId.Keys);
      }
    }
    assert ids[|roots| + |nodes|..] == [];
    NothingLeft(byId, 0, w.visited * byId.Keys);
    forall id | id in byId ensures id in w.visited {
      ByIdListed(nodes, id);
    }
    SameFlat(show, byId, w.visited, w.out);
    var consumed := w.consumed;
    e := Effects(w.out, w.counts, w.informees, seq(|inputs|, i requires 0 <= i < |inputs| => inputs[i] in consumed));
  }

  lemma PlacesNone()
    ensures Places([]) == []
  {
  }

  lemma PassedOver(byId: NodeMap, ids: seq<Id>, depth: nat, seen: set<Id>)
    requires ids != [] && (ids[0] in seen || ids[0] !in byId)
    ensures Preorder(byId, ids, depth, seen) == Preorder(byId, ids[1..], depth, seen)
  {
  }

  lemma NothingLeft(byId: NodeMap, depth: nat, seen: set<Id>)
    ensures Preorder(byId, [], depth, seen) == Visit([], seen)
  {
  }

  /** In any transaction's listing depth is the number of edges from a top entry, and top entries are starts. */
  lemma ListingHangs(nodes: seq<TxEntry>, roots: seq<Id>, out: seq<EffectNode>)
    requires Places(out) == Preorder(ById(nodes), Starts(nodes, roots), 0, {}).listed
    ensures forall i :: 0 <= i < |out| && out[i].depth == 0 ==> out[i].nodeId in Starts(nodes, roots)
    ensures forall i :: 0 <= i < |out| && out[i].depth > 0 ==>
      exists p ::
        && 0 <= p < i
        && out[p].depth + 1 == out[i].depth
        && Mentions(ById(nodes), out[p].nodeId, out[i].nodeId)
        && forall q :: p < q < i ==> out[q].depth >= out[i].depth
  {
    var listed := Places(out);
    PreorderHangs(ById(nodes), Starts(nodes, roots), 0, {});
    forall i | 0 <= i < |out| && out[i].depth > 0
      ensures exists p ::
        && 0 <= p < i
        && out[p].depth + 1 == out[i].depth
        && Mentions(ById(nodes), out[p].nodeId, out[i].nodeId)
        && forall q :: p < q < i ==> out[q].depth >= out[i].depth
    {
      assert listed[i].depth > 0;
      var p :| 0 <= p < i && HangsUnder(ById(nodes), listed, i, p);
      assert forall q :: p < q < i ==> listed[q].depth == out[q].depth;
    }
    assert forall i :: 0 <= i < |out| ==> listed[i] == Place(out[i].nodeId, out[i].depth);
  }

  /** A later node under the same id replaces an earlier one; a node of unknown version is not there. */
  lemma {:induction false} ByIdKeepsTheLast(nodes: seq<TxEntry>, id: Id, node: TxNode)
    ensures (id in ById(nodes) && ById(nodes)[id] == node) <==>
      exists i ::
        && 0 <= i < |nodes| && nodes[i] == TxEntry(id, Some(node))
        && forall j :: i < j < |nodes| && nodes[j].nodeId == id ==> nodes[j].body.None?
  {
    if nodes != [] {
      var n := |nodes| - 1;
      var front := nodes[..n];
      ByIdKeepsTheLast(front, id, node);
      assert forall j :: 0 <= j < n ==> front[j] == nodes[j];
      if nodes[n].nodeId == id && nodes[n].body.Some? {
        assert nodes[n].body.value == node ==> nodes[n] == TxEntry(id, Some(node));
      } else if id in ById(front) && ById(front)[id] == node {
        var i :| 0 <= i < n && front[i] == TxEntry(id, Some(node))
                 && forall j :: i < j < n && front[j].nodeId == id ==> front[j].body.None?;
        assert nodes[i] == front[i];
      }
    }
  }

  /** Who is informed, by the parties each kind of node names. */
  lemma InformeesByField(byId: NodeMap, ids: set<Id>, party: Id)
    ensures party in FlatInformees(byId, ids) <==>
      exists id :: id in ids && id in byId && var node := byId[id];
        && (node.Create? || node.Exercise? || node.Fetch?)
        && (|| party in node.signatories || party in node.stakeholders
            || (!node.Create? && party in node.actingParties)
            || (node.Exercise? && party in node.choiceObservers))
  {
    assert forall id :: id in byId ==> var node := byId[id]; (party in Informs(node) <==>
      && (node.Create? || node.Exercise? || node.Fetch?)
      && (|| party in node.signatories || party in node.stakeholders
          || (!node.Create? && party in node.actingParties)
          || (node.Exercise? && party in node.choiceObservers)));
  }

  /** Asked to leave arguments out, the listing is the one of nodes that never had any. */
  function Stripped(node: TxNode): TxNode {
    match node
    case Create(names, cid, sig, st, _) => Create(names, cid, sig, st, None)
    case Exercise(names, cid, choice, consuming, sig, st, acting, obs, _, _, children) =>
      Exercise(names, cid, choice, consuming, sig, st, acting, obs, None, None, children)
    case _ => node
  }

  lemma ArgumentsStayOut(byId: NodeMap, bare: NodeMap, out: seq<EffectNode>, ids: set<Id>)
    requires bare.Keys == byId.Keys && forall id :: id in byId ==> bare[id] == Stripped(byId[id])
    ensures Lists(false, byId, out, ids) <==> Lists(true, bare, out, ids)
    ensures Lists(false, byId, out, ids) ==>
      forall i :: 0 <= i < |out| ==> out[i].argument == None && out[i].result == None
  {
    forall e ensures IsListing(false, byId, e) <==> IsListing(true, bare, e) {
      StrippedLists(byId, bare, e);
    }
    assert forall id :: Decodable(byId, id) <==> Decodable(bare, id);
  }

  lemma StrippedLists(byId: NodeMap, bare: NodeMap, e: EffectNode)
    requires bare.Keys == byId.Keys && forall id :: id in byId ==> bare[id] == Stripped(byId[id])
    ensures IsListing(false, byId, e) <==> IsListing(true, bare, e)
    ensures IsListing(false, byId, e) ==> e.argument == None && e.result == None
  {
    if e.nodeId in byId && !byId[e.nodeId].Unknown? {
      assert EffectOf(false, e.nodeId, e.depth, byId[e.nodeId]) == EffectOf(true, e.nodeId, e.depth, bare[e.nodeId]);
    }
  }
}
