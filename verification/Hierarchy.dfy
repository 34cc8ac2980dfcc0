/** Editing of reporting hierarchies (src/app/_components/accounting-settings.client.tsx):
    nodes with parent pointers, cloned, added, removed and moved. */
module Hierarchy {
  import opened Text

  /** A node; one without a member is a group. */
  datatype Node = Node(id: Str, parent: Maybe<Str>, code: Str, name: Str, sortOrder: int, member: Maybe<Str>)

  // ---------------------------------------------------------------- ancestors

  /** The node of an id. */
  function Find(nodes: seq<Node>, id: Str): Maybe<Node> {
    if nodes == [] then None else if nodes[0].id == id then Some(nodes[0]) else Find(nodes[1..], id)
  }

  function Parent(nodes: seq<Node>, id: Str): Maybe<Str> {
    match Find(nodes, id)
    case None => None
    case Some(node) => node.parent
  }

  /** The `n`-th ancestor of an id; the id itself is its ancestor number zero. */
  function Up(nodes: seq<Node>, id: Str, n: nat): Maybe<Str>
    decreases n
  {
    if n == 0 then Some(id)
    else match Parent(nodes, id)
      case None => None
      case Some(p) => Up(nodes, p, n - 1)
  }

  predicate Cycle(nodes: seq<Node>, id: Str, n: nat) {
    n > 0 && Up(nodes, id, n) == Some(id)
  }

  ghost predicate Acyclic(nodes: seq<Node>) {
    forall id, n :: !Cycle(nodes, id, n)
  }

  /** `id` lies on the way up from `from`, or is it. */
  ghost predicate Below(nodes: seq<Node>, from: Str, id: Str) {
    exists n :: Up(nodes, from, n) == Some(id)
  }

  predicate DistinctIds(nodes: seq<Node>) {
    forall i, j | 0 <= i < j < |nodes| :: nodes[i].id != nodes[j].id
  }

  lemma {:induction false} FindRight(nodes: seq<Node>, id: Str)
    ensures Find(nodes, id).Some? ==> Find(nodes, id).value in nodes && Find(nodes, id).value.id == id
    ensures Find(nodes, id).None? ==> forall node <- nodes :: node.id != id
  {
    if nodes != [] {
      FindRight(nodes[1..], id);
      assert nodes == [nodes[0]] + nodes[1..];
    }
  }

  lemma {:induction false} FindAt(nodes: seq<Node>, i: nat)
    requires DistinctIds(nodes) && i < |nodes|
    ensures Find(nodes, nodes[i].id) == Some(nodes[i])
  {
    if i > 0 {
      FindAt(nodes[1..], i - 1);
      assert nodes[1..][i - 1] == nodes[i];
    }
  }

  lemma {:induction false} UpSplit(nodes: seq<Node>, id: Str, m: nat, n: nat)
    ensures Up(nodes, id, m + n) ==
            match Up(nodes, id, m)
            case None => None
            case Some(a) => Up(nodes, a, n)
    decreases m
  {
    if m > 0 && Parent(nodes, id).Some? {
      UpSplit(nodes, Parent(nodes, id).value, m - 1, n);
    }
  }

  // ------------------------------------------------------------------ cloning

  /** `ids.get(id)`: the fresh id made for the last node with that id. */
  function Renamed(nodes: seq<Node>, ids: nat -> Str, id: Str): Maybe<Str> {
    if nodes == [] then None
    else if nodes[|nodes| - 1].id == id then Some(ids(|nodes| - 1))
    else Renamed(nodes[..|nodes| - 1], ids, id)
  }

  /** `cloneHierarchyNodes` */
  function Clone(nodes: seq<Node>, ids: nat -> Str): seq<Node> {
    seq(|nodes|, i requires 0 <= i < |nodes| => CloneNode(nodes, ids, nodes[i]))
  }

  function CloneNode(nodes: seq<Node>, ids: nat -> Str, node: Node): Node {
    var id := Renamed(nodes, ids, node.id);
    node.(id := if id.Some? then id.value else [],
          parent :=
            if node.parent.Some? && node.parent.value != [] then Renamed(nodes, ids, node.parent.value) else None)
  }

  /** Identifiers never come twice. */
  ghost predicate Fresh(ids: nat -> Str) {
    forall i, j :: i != j ==> ids(i) != ids(j)
  }

  lemma {:induction false} RenamedAt(nodes: seq<Node>, ids: nat -> Str, i: nat)
    requires DistinctIds(nodes) && i < |nodes|
    ensures Renamed(nodes, ids, nodes[i].id) == Some(ids(i))
  {
    if i < |nodes| - 1 {
      RenamedAt(nodes[..|nodes| - 1], ids, i);
    }
  }

  lemma {:induction false} RenamedKnown(nodes: seq<Node>, ids: nat -> Str, id: Str)
    ensures Renamed(nodes, ids, id).None? <==> forall i | 0 <= i < |nodes| :: nodes[i].id != id
  {
    if nodes != [] {
      RenamedKnown(nodes[..|nodes| - 1], ids, id);
      assert forall i | 0 <= i < |nodes| - 1 :: nodes[..|nodes| - 1][i] == nodes[i];
    }
  }

  /** The ids of a clone are the fresh ones in order, so they are distinct. */
  lemma CloneIds(nodes: seq<Node>, ids: nat -> Str)
    requires DistinctIds(nodes) && Fresh(ids)
    ensures DistinctIds(Clone(nodes, ids))
    ensures forall i | 0 <= i < |nodes| :: Clone(nodes, ids)[i].id == ids(i)
  {
    forall i | 0 <= i < |nodes| ensures Clone(nodes, ids)[i].id == ids(i) {
      RenamedAt(nodes, ids, i);
    }
  }

  /** A parent pointer leads to the clone of where it led, or nowhere. */
  lemma CloneParent(nodes: seq<Node>, ids: nat -> Str, i: nat)
    requires DistinctIds(nodes) && Fresh(ids) && i < |nodes|
    requires nodes[i].parent != Some([])
    ensures var p := nodes[i].parent; var q := Clone(nodes, ids)[i].parent;
            && (q.None? <==> p.None? || Find(nodes, p.value).None?)
            && forall j | 0 <= j < |nodes| :: q == Some(ids(j)) <==> p == Some(nodes[j].id)
  {
    var p := nodes[i].parent;
    if p.Some? {
      RenamedKnown(nodes, ids, p.value);
      FindRight(nodes, p.value);
      if Find(nodes, p.value).Some? {
        var k :| 0 <= k < |nodes| && nodes[k] == Find(nodes, p.value).value;
        RenamedAt(nodes, ids, k);
      }
    }
  }

  /** Node `i` of the clone has the same ancestors, code for code, as node `i` had: each
      step leads to the same position, or leaves the hierarchy in both. */
  lemma {:induction false} CloneSamePaths(nodes: seq<Node>, ids: nat -> Str, i: nat, n: nat)
    requires DistinctIds(nodes) && Fresh(ids) && i < |nodes|
    requires forall k | 0 <= k < |nodes| :: nodes[k].parent != Some([])
    ensures forall j | 0 <= j < |nodes| ::
      Up(nodes, nodes[i].id, n) == Some(nodes[j].id) <==> Up(Clone(nodes, ids), ids(i), n) == Some(ids(j))
    ensures forall j | 0 <= j < |nodes| ::
      Clone(nodes, ids)[j] == nodes[j].(id := ids(j), parent := Clone(nodes, ids)[j].parent)
    decreases n
  {
    hide Renamed;
    var clone := Clone(nodes, ids);
    CloneIds(nodes, ids);
    if n > 0 {
      FindAt(nodes, i);
      FindAt(clone, i);
      CloneParent(nodes, ids, i);
      var p := nodes[i].parent;
      if p.Some? {
        FindRight(nodes, p.value);
        if Find(nodes, p.value).Some? {
          var k :| 0 <= k < |nodes| && nodes[k] == Find(nodes, p.value).value;
          CloneSamePaths(nodes, ids, k, n - 1);
        } else {
          DanglingEnds(nodes, p.value, n - 1);
        }
      }
    }
  }

  lemma DanglingEnds(nodes: seq<Node>, id: Str, n: nat)
    requires Find(nodes, id).None?
    ensures forall j | 0 <= j < |nodes| :: Up(nodes, id, n) != Some(nodes[j].id)
  {
    FindRight(nodes, id);
  }

  // ------------------------------------------------------------------ removal

  function Cut(node: Node, id: Str): Node {
    if node.parent == Some(id) then node.(parent := None) else node
  }

  /** `removeHierarchyNode`: dropped, and its children moved to the top. */
  function Remove(nodes: seq<Node>, id: Str): seq<Node> {
    if nodes == [] then []
    else if nodes[0].id == id then Remove(nodes[1..], id)
    else [Cut(nodes[0], id)] + Remove(nodes[1..], id)
  }

  lemma {:induction false} RemoveFind(nodes: seq<Node>, id: Str, other: Str)
    ensures Find(Remove(nodes, id), other) ==
            if other == id then None
            else match Find(nodes, other)
              case None => None
              case Some(node) => Some(Cut(node, id))
  {
    if nodes != [] {
      RemoveFind(nodes[1..], id, other);
      assert nodes[0].id != id ==> Remove(nodes, id)[1..] == Remove(nodes[1..], id);
    }
  }

  /** `id` is met within `n` steps up. */
  predicate Meets(nodes: seq<Node>, from: Str, id: Str, n: nat) {
    exists m | 0 <= m <= n :: Up(nodes, from, m) == Some(id)
  }

  /** Every remaining chain is cut exactly at the removed node: what lay below it keeps its
      place, the node itself and everything above it is gone. */
  lemma {:induction false} RemoveCutsChains(nodes: seq<Node>, id: Str, from: Str, n: nat)
    requires from != id
    ensures Up(Remove(nodes, id), from, n) ==
            if Meets(nodes, from, id, n) then None else Up(nodes, from, n)
    decreases n
  {
    hide Remove, Find;
    assert Up(nodes, from, 0) == Some(from);
    if n > 0 {
      RemoveParent(nodes, id, from);
      var p := Parent(nodes, from);
      if p.None? {
        assert forall m | 0 < m <= n :: Up(nodes, from, m) == None;
      } else if p.value == id {
        assert Up(nodes, id, 0) == Some(id);
        assert Up(nodes, from, 1) == Some(id);
      } else {
        RemoveCutsChains(nodes, id, p.value, n - 1);
        MeetsStep(nodes, id, from, p.value, n);
      }
    }
  }

  lemma RemoveParent(nodes: seq<Node>, id: Str, from: Str)
    requires from != id
    ensures Parent(Remove(nodes, id), from) == if Parent(nodes, from) == Some(id) then None else Parent(nodes, from)
  {
    RemoveFind(nodes, id, from);
  }

  lemma MeetsStep(nodes: seq<Node>, id: Str, from: Str, p: Str, n: nat)
    requires n > 0 && from != id && Parent(nodes, from) == Some(p)
    ensures Meets(nodes, from, id, n) <==> Meets(nodes, p, id, n - 1)
    ensures Up(nodes, from, n) == Up(nodes, p, n - 1)
  {
    hide Parent;
    if Meets(nodes, from, id, n) {
      var m :| 0 <= m <= n && Up(nodes, from, m) == Some(id);
      assert Up(nodes, p, m - 1) == Some(id);
      assert Meets(nodes, p, id, n - 1);
    }
    if Meets(nodes, p, id, n - 1) {
      var m :| 0 <= m <= n - 1 && Up(nodes, p, m) == Some(id);
      assert Up(nodes, from, m + 1) == Some(id);
      assert Meets(nodes, from, id, n);
    }
  }

  /** Removing keeps a forest a forest. */
  lemma RemoveKeepsAcyclic(nodes: seq<Node>, id: Str)
    requires Acyclic(nodes)
    ensures Acyclic(Remove(nodes, id))
  {
    forall from, n ensures !Cycle(Remove(nodes, id), from, n) {
      assert !Cycle(nodes, from, n);
      if from != id {
        RemoveCutsChains(nodes, id, from, n);
      } else {
        RemoveFind(nodes, id, id);
      }
    }
  }

  // ------------------------------------------------------------------- moving

  /** `updateHierarchyNode(id, { parentId })` */
  function Move(nodes: seq<Node>, id: Str, parent: Maybe<Str>): seq<Node> {
    if nodes == [] then []
    else [if nodes[0].id == id then nodes[0].(parent := parent) else nodes[0]] + Move(nodes[1..], id, parent)
  }

  lemma {:induction false} MoveParent(nodes: seq<Node>, id: Str, parent: Maybe<Str>, other: Str)
    ensures Find(Move(nodes, id, parent), other).Some? <==> Find(nodes, other).Some?
    ensures Parent(Move(nodes, id, parent), other) ==
            if other == id && Find(nodes, id).Some? then parent else Parent(nodes, other)
  {
    if nodes != [] {
      MoveParent(nodes[1..], id, parent, other);
    }
  }

  /** Up to the first time `id` is met, the ways up are the same. */
  lemma {:induction false} SameUntilMet(nodes: seq<Node>, id: Str, parent: Maybe<Str>, from: Str, n: nat)
    requires forall m | 0 <= m < n :: Up(nodes, from, m) != Some(id)
    ensures Up(Move(nodes, id, parent), from, n) == Up(nodes, from, n)
    decreases n
  {
    hide Find, Parent, Move;
    if n > 0 {
      assert Up(nodes, from, 0) == Some(from);
      MoveParent(nodes, id, parent, from);
      var p := Parent(nodes, from);
      if p.Some? {
        assert forall m | 0 <= m < n - 1 :: Up(nodes, p.value, m) == Up(nodes, from, m + 1);
        SameUntilMet(nodes, id, parent, p.value, n - 1);
      }
    }
  }

  lemma {:induction false} SameUntilMetBack(nodes: seq<Node>, id: Str, parent: Maybe<Str>, from: Str, n: nat)
    requires forall m | 0 <= m < n :: Up(Move(nodes, id, parent), from, m) != Some(id)
    ensures Up(Move(nodes, id, parent), from, n) == Up(nodes, from, n)
    decreases n
  {
    hide Find, Parent, Move;
    var after := Move(nodes, id, parent);
    if n > 0 {
      assert Up(after, from, 0) == Some(from);
      MoveParent(nodes, id, parent, from);
      var p := Parent(nodes, from);
      if p.Some? {
        assert forall m | 0 <= m < n - 1 :: Up(after, p.value, m) == Up(after, from, m + 1);
        SameUntilMetBack(nodes, id, parent, p.value, n - 1);
      }
    }
  }

  /** The first step at which `id` is met. */
  lemma {:induction false} FirstMet(nodes: seq<Node>, from: Str, id: Str, n: nat) returns (k: nat)
    requires Up(nodes, from, n) == Some(id)
    ensures k <= n && Up(nodes, from, k) == Some(id)
    ensures forall m | 0 <= m < k :: Up(nodes, from, m) != Some(id)
    decreases n
  {
    if exists m | 0 <= m < n :: Up(nodes, from, m) == Some(id) {
      var m :| 0 <= m < n && Up(nodes, from, m) == Some(id);
      k := FirstMet(nodes, from, id, m);
    } else {
      k := n;
    }
  }

  /** A move under a descendant closes a loop. */
  lemma MoveBelowCloses(nodes: seq<Node>, id: Str, p: Str)
    requires Find(nodes, id).Some? && Below(nodes, p, id)
    ensures !Acyclic(Move(nodes, id, Some(p)))
  {
    var n :| Up(nodes, p, n) == Some(id);
    var k := FirstMet(nodes, p, id, n);
    SameUntilMet(nodes, id, Some(p), p, k);
    MoveParent(nodes, id, Some(p), id);
    assert Cycle(Move(nodes, id, Some(p)), id, k + 1);
  }

  /** A loop after a move goes through the moved node, whose new parent was below it. */
  lemma LoopNeedsBelow(nodes: seq<Node>, id: Str, parent: Maybe<Str>, from: Str, n: nat)
    requires Acyclic(nodes) && Find(nodes, id).Some? && Cycle(Move(nodes, id, parent), from, n)
    ensures parent.Some? && Below(nodes, parent.value, id)
  {
    hide Find, Parent, Move;
    var after := Move(nodes, id, parent);
    assert !Cycle(nodes, from, n);
    if forall m | 0 <= m < n :: Up(after, from, m) != Some(id) {
      SameUntilMetBack(nodes, id, parent, from, n);
    } else {
      var m :| 0 <= m < n && Up(after, from, m) == Some(id);
      UpSplit(after, from, m, n - m);
      UpSplit(after, id, n - m, m);
      assert Up(after, id, n) == Some(id);
      MoveParent(nodes, id, parent, id);
      StepUp(after, id, n);
      var k := FirstMet(after, parent.value, id, n - 1);
      SameUntilMetBack(nodes, id, parent, parent.value, k);
    }
  }

  lemma StepUp(nodes: seq<Node>, id: Str, n: nat)
    requires n > 0 && Up(nodes, id, n).Some?
    ensures Parent(nodes, id).Some? && Up(nodes, id, n) == Up(nodes, Parent(nodes, id).value, n - 1)
  {
  }

  /** Moving a node keeps a forest a forest exactly when the new parent is not the node
      itself or one of its descendants. */
  lemma MoveKeepsAcyclicExactly(nodes: seq<Node>, id: Str, parent: Maybe<Str>)
    requires Acyclic(nodes) && Find(nodes, id).Some?
    ensures Acyclic(Move(nodes, id, parent)) <==> parent.None? || !Below(nodes, parent.value, id)
  {
    if parent.Some? && Below(nodes, parent.value, id) {
      MoveBelowCloses(nodes, id, parent.value);
    } else {
      forall from, n ensures !Cycle(Move(nodes, id, parent), from, n) {
        if Cycle(Move(nodes, id, parent), from, n) {
          LoopNeedsBelow(nodes, id, parent, from, n);
        }
      }
    }
  }

  // --------------------------------------------------------------------- runs

  predicate IsGroup(nodes: seq<Node>, id: Str) {
    Find(nodes, id).Some? && Find(nodes, id).value.member.None?
  }

  /** A parent pointer names a group of the hierarchy other than the node. */
  predicate WellPlaced(nodes: seq<Node>, node: Node) {
    node.parent.Some? ==> node.parent.value != node.id && IsGroup(nodes, node.parent.value)
  }

  predicate WellParented(nodes: seq<Node>) {
    DistinctIds(nodes) && forall i | 0 <= i < |nodes| :: WellPlaced(nodes, nodes[i])
  }

  function Groups(nodes: seq<Node>): seq<Node> {
    if nodes == [] then [] else (if nodes[0].member.None? then [nodes[0]] else []) + Groups(nodes[1..])
  }

  /** The first top-level group, the first group of a code, the first group. */
  function FirstTop(groups: seq<Node>): Maybe<Str> {
    if groups == [] then None else if groups[0].parent.None? then Some(groups[0].id) else FirstTop(groups[1..])
  }

  function FirstOfCode(groups: seq<Node>, code: Maybe<Str>): Maybe<Str> {
    if groups == [] then None
    else if code == Some(groups[0].code) then Some(groups[0].id)
    else FirstOfCode(groups[1..], code)
  }

  function PreferredParent(groups: seq<Node>, code: Maybe<Str>): Maybe<Str> {
    if FirstOfCode(groups, code).Some? then FirstOfCode(groups, code)
    else if groups == [] then None else Some(groups[0].id)
  }

  datatype Edit =
    | Open(nodes: seq<Node>)
    | OpenClone(nodes: seq<Node>, ids: nat -> Str)
    | AddGroup(id: Str, accounts: bool, code: Str, name: Str)
    | AddMember(id: Str, member: Str, preferred: Maybe<Str>, code: Str, name: Str)
    | Delete(id: Str)
    | Reparent(id: Str, parent: Maybe<Str>)
    | Relabel(id: Str, code: Str, name: Str, sortOrder: int)

  function Relabelled(nodes: seq<Node>, id: Str, code: Str, name: Str, sortOrder: int): seq<Node> {
    seq(|nodes|, i requires 0 <= i < |nodes| =>
      if nodes[i].id == id then nodes[i].(code := code, name := name, sortOrder := sortOrder) else nodes[i])
  }

  /** What the page lets happen: stored hierarchies are well parented, new ids are new, and
      the parent list offers the groups other than the node, and the top. */
  ghost predicate Offered(nodes: seq<Node>, e: Edit) {
    match e
    case Open(stored) => WellParented(stored)
    case OpenClone(stored, ids) =>
      WellParented(stored) && Fresh(ids) && forall i | 0 <= i < |stored| :: stored[i].parent != Some([])
    case AddGroup(id, accounts, code, name) => Find(nodes, id).None?
    case AddMember(id, member, preferred, code, name) => Find(nodes, id).None?
    case Delete(id) => true
    case Reparent(id, parent) => parent.Some? ==> parent.value != id && IsGroup(nodes, parent.value)
    case Relabel(id, code, name, sortOrder) => true
  }

  function Edited(nodes: seq<Node>, e: Edit): seq<Node> {
    match e
    case Open(stored) => stored
    case OpenClone(stored, ids) => Clone(stored, ids)
    case AddGroup(id, accounts, code, name) =>
      var suffix := |Groups(nodes)| + 1;
      nodes + [Node(id, if accounts then FirstTop(Groups(nodes)) else None, code, name, suffix * 100, None)]
    case AddMember(id, member, preferred, code, name) =>
      nodes + [Node(id, PreferredParent(Groups(nodes), preferred), code, name, |nodes| * 10 + 10, Some(member))]
    case Delete(id) => Remove(nodes, id)
    case Reparent(id, parent) => Move(nodes, id, parent)
    case Relabel(id, code, name, sortOrder) => Relabelled(nodes, id, code, name, sortOrder)
  }

  lemma {:induction false} GroupsAreGroups(nodes: seq<Node>)
    ensures forall g <- Groups(nodes) :: g in nodes && g.member.None?
  {
    if nodes != [] {
      GroupsAreGroups(nodes[1..]);
      assert nodes == [nodes[0]] + nodes[1..];
    }
  }

  lemma {:induction false} ChosenAmong(groups: seq<Node>, code: Maybe<Str>)
    ensures FirstTop(groups).Some? ==> exists g <- groups :: g.id == FirstTop(groups).value
    ensures FirstOfCode(groups, code).Some? ==> exists g <- groups :: g.id == FirstOfCode(groups, code).value
  {
    if groups != [] {
      ChosenAmong(groups[1..], code);
      assert groups[0] in groups;
    }
  }

  lemma GroupFound(nodes: seq<Node>, g: Node)
    requires DistinctIds(nodes) && g in nodes && g.member.None?
    ensures IsGroup(nodes, g.id)
  {
    var i :| 0 <= i < |nodes| && nodes[i] == g;
    FindAt(nodes, i);
  }

  /** The parent chosen for an added node is a group, or none. */
  lemma ChosenIsGroup(nodes: seq<Node>, code: Maybe<Str>)
    requires DistinctIds(nodes)
    ensures var top := FirstTop(Groups(nodes)); top.Some? ==> IsGroup(nodes, top.value)
    ensures var p := PreferredParent(Groups(nodes), code); p.Some? ==> IsGroup(nodes, p.value)
  {
    hide IsGroup, DistinctIds;
    var groups := Groups(nodes);
    GroupsAreGroups(nodes);
    ChosenAmong(groups, code);
    forall g <- groups ensures IsGroup(nodes, g.id) {
      GroupFound(nodes, g);
    }
    if groups != [] {
      assert groups[0] in groups;
    }
  }

  lemma {:induction false} FindAppended(nodes: seq<Node>, last: Node, id: Str)
    ensures Find(nodes + [last], id) ==
            if Find(nodes, id).Some? then Find(nodes, id) else if last.id == id then Some(last) else None
  {
    if nodes == [] {
      assert nodes + [last] == [last] && [last][1..] == [];
    } else {
      FindAppended(nodes[1..], last, id);
      assert (nodes + [last])[1..] == nodes[1..] + [last];
    }
  }

  lemma AddedKeeps(nodes: seq<Node>, last: Node)
    requires WellParented(nodes) && Find(nodes, last.id).None?
    requires last.parent.Some? ==> IsGroup(nodes, last.parent.value)
    ensures WellParented(nodes + [last])
  {
    FindRight(nodes, last.id);
    var all := nodes + [last];
    forall i | 0 <= i < |all| ensures WellPlaced(all, all[i]) {
      if all[i].parent.Some? {
        var p := all[i].parent.value;
        FindAppended(nodes, last, p);
        assert i < |nodes| ==> WellPlaced(nodes, nodes[i]);
      }
    }
  }

  lemma {:induction false} RemoveMembers(nodes: seq<Node>, id: Str)
    ensures forall node <- Remove(nodes, id) :: exists m <- nodes :: node == Cut(m, id) && m.id != id
    ensures DistinctIds(nodes) ==> DistinctIds(Remove(nodes, id))
  {
    if nodes != [] {
      var rest := Remove(nodes[1..], id);
      RemoveMembers(nodes[1..], id);
      forall node <- Remove(nodes, id) ensures exists m <- nodes :: node == Cut(m, id) && m.id != id {
        if node in rest {
          var m :| m in nodes[1..] && node == Cut(m, id) && m.id != id;
          assert m in nodes;
        } else {
          assert nodes[0] in nodes;
        }
      }
      if DistinctIds(nodes) {
        forall j | 0 <= j < |rest| ensures rest[j].id != nodes[0].id {
          assert rest[j] in rest;
          var m :| m in nodes[1..] && rest[j] == Cut(m, id);
        }
      }
    }
  }

  lemma RemovedKeeps(nodes: seq<Node>, id: Str)
    requires WellParented(nodes)
    ensures WellParented(Remove(nodes, id))
  {
    hide Remove, Find;
    var all := Remove(nodes, id);
    RemoveMembers(nodes, id);
    forall i | 0 <= i < |all| ensures WellPlaced(all, all[i]) {
      assert all[i] in all;
      var m :| m in nodes && all[i] == Cut(m, id) && m.id != id;
      var k :| 0 <= k < |nodes| && nodes[k] == m;
      assert WellPlaced(nodes, nodes[k]);
      if m.parent.Some? {
        RemoveFind(nodes, id, m.parent.value);
      }
    }
  }

  lemma {:induction false} MoveAt(nodes: seq<Node>, id: Str, parent: Maybe<Str>)
    ensures |Move(nodes, id, parent)| == |nodes|
    ensures forall i | 0 <= i < |nodes| ::
      Move(nodes, id, parent)[i] == if nodes[i].id == id then nodes[i].(parent := parent) else nodes[i]
  {
    if nodes != [] {
      MoveAt(nodes[1..], id, parent);
    }
  }

  /** Changes that keep ids and members in place keep the groups. */
  lemma {:induction false} SameGroups(before: seq<Node>, after: seq<Node>, id: Str)
    requires |before| == |after|
    requires forall i | 0 <= i < |before| :: after[i].id == before[i].id && after[i].member == before[i].member
    ensures IsGroup(before, id) <==> IsGroup(after, id)
  {
    if before != [] {
      SameGroups(before[1..], after[1..], id);
    }
  }

  lemma MovedKeeps(nodes: seq<Node>, id: Str, parent: Maybe<Str>)
    requires WellParented(nodes) && (parent.Some? ==> parent.value != id && IsGroup(nodes, parent.value))
    ensures WellParented(Move(nodes, id, parent))
  {
    hide Move, IsGroup;
    var all := Move(nodes, id, parent);
    MoveAt(nodes, id, parent);
    forall i | 0 <= i < |all| ensures WellPlaced(all, all[i]) {
      assert WellPlaced(nodes, nodes[i]);
      if all[i].parent.Some? {
        SameGroups(nodes, all, all[i].parent.value);
      }
    }
  }

  lemma RelabelledKeeps(nodes: seq<Node>, id: Str, code: Str, name: Str, sortOrder: int)
    requires WellParented(nodes)
    ensures WellParented(Relabelled(nodes, id, code, name, sortOrder))
  {
    hide IsGroup;
    var all := Relabelled(nodes, id, code, name, sortOrder);
    forall i | 0 <= i < |all| ensures WellPlaced(all, all[i]) {
      assert WellPlaced(nodes, nodes[i]);
      if all[i].parent.Some? {
        SameGroups(nodes, all, all[i].parent.value);
      }
    }
  }

  lemma ClonedKeeps(nodes: seq<Node>, ids: nat -> Str)
    requires WellParented(nodes) && Fresh(ids) && forall i | 0 <= i < |nodes| :: nodes[i].parent != Some([])
    ensures WellParented(Clone(nodes, ids))
  {
    hide Renamed, Find;
    var all := Clone(nodes, ids);
    CloneIds(nodes, ids);
    forall i | 0 <= i < |all| ensures WellPlaced(all, all[i]) {
      assert WellPlaced(nodes, nodes[i]);
      CloneParent(nodes, ids, i);
      if all[i].parent.Some? {
        var p := nodes[i].parent.value;
        FindRight(nodes, p);
        var k :| 0 <= k < |nodes| && nodes[k] == Find(nodes, p).value;
        assert all[i].parent == Some(ids(k)) && k != i;
        FindAt(all, k);
      }
    }
  }

  lemma EditKeeps(nodes: seq<Node>, e: Edit)
    requires WellParented(nodes) && Offered(nodes, e)
    ensures WellParented(Edited(nodes, e))
  {
    hide WellParented, IsGroup, Find, Groups, FirstTop, PreferredParent;
    match e
    case Open(stored) =>
    case OpenClone(stored, ids) => ClonedKeeps(stored, ids);
    case AddGroup(id, accounts, code, name) =>
      WellParentedDistinct(nodes);
      ChosenIsGroup(nodes, None);
      AddedKeeps(nodes, Edited(nodes, e)[|nodes|]);
    case AddMember(id, member, preferred, code, name) =>
      WellParentedDistinct(nodes);
      ChosenIsGroup(nodes, preferred);
      AddedKeeps(nodes, Edited(nodes, e)[|nodes|]);
    case Delete(id) => RemovedKeeps(nodes, id);
    case Reparent(id, parent) => MovedKeeps(nodes, id, parent);
    case Relabel(id, code, name, sortOrder) => RelabelledKeeps(nodes, id, code, name, sortOrder);
  }

  lemma WellParentedDistinct(nodes: seq<Node>)
    requires WellParented(nodes)
    ensures DistinctIds(nodes)
  {
  }

  /** A run of edits from an empty editor. */
  ghost predicate Run(states: seq<seq<Node>>, edits: seq<Edit>) {
    && |states| == |edits| + 1 && states[0] == []
    && forall i | 0 <= i < |edits| :: Offered(states[i], edits[i]) && states[i + 1] == Edited(states[i], edits[i])
  }

  /** In every state of every run ids are distinct and every parent pointer names an
      existing group other than the node itself. */
  lemma {:induction false} RunsWellParented(states: seq<seq<Node>>, edits: seq<Edit>, i: nat)
    requires Run(states, edits) && i < |states|
    ensures WellParented(states[i])
  {
    if i > 0 {
      RunsWellParented(states, edits, i - 1);
      EditKeeps(states[i - 1], edits[i - 1]);
    }
  }

  // --------------------------------------------------------- forests over runs

  /** The edits that keep a forest: stored hierarchies are forests, and a node is not moved
      to itself or below. */
  ghost predicate KeepsForest(nodes: seq<Node>, e: Edit) {
    match e
    case Open(stored) => Acyclic(stored)
    case OpenClone(stored, ids) => Acyclic(stored)
    case Reparent(id, parent) => Find(nodes, id).Some? && parent.Some? ==> !Below(nodes, parent.value, id)
    case _ => true
  }

  lemma {:induction false} SameParentsSameUp(a: seq<Node>, b: seq<Node>, from: Str, n: nat)
    requires forall id :: Parent(a, id) == Parent(b, id)
    ensures Up(a, from, n) == Up(b, from, n)
    decreases n
  {
    hide Parent;
    if n > 0 && Parent(a, from).Some? {
      SameParentsSameUp(a, b, Parent(a, from).value, n - 1);
    }
  }

  lemma SameParentsSameForest(a: seq<Node>, b: seq<Node>)
    requires forall id :: Parent(a, id) == Parent(b, id)
    ensures Acyclic(a) <==> Acyclic(b)
  {
    hide Parent;
    forall id, n ensures Cycle(a, id, n) <==> Cycle(b, id, n) {
      SameParentsSameUp(a, b, id, n);
    }
  }

  lemma {:induction false} RelabelledParent(nodes: seq<Node>, id: Str, code: Str, name: Str, sortOrder: int, other: Str)
    ensures Parent(Relabelled(nodes, id, code, name, sortOrder), other) == Parent(nodes, other)
  {
    if nodes != [] {
      RelabelledParent(nodes[1..], id, code, name, sortOrder, other);
      assert Relabelled(nodes, id, code, name, sortOrder)[1..] == Relabelled(nodes[1..], id, code, name, sortOrder);
    }
  }

  /** In a well-parented hierarchy no way up leaves it. */
  lemma {:induction false} UpStays(nodes: seq<Node>, from: Str, n: nat)
    requires WellParented(nodes) && Find(nodes, from).Some? && Up(nodes, from, n).Some?
    ensures Find(nodes, Up(nodes, from, n).value).Some?
    decreases n
  {
    if n > 0 {
      FindRight(nodes, from);
      var i :| 0 <= i < |nodes| && nodes[i] == Find(nodes, from).value;
      assert WellPlaced(nodes, nodes[i]);
      UpStays(nodes, Parent(nodes, from).value, n - 1);
    }
  }

  /** An added node is nobody's ancestor, so the ways up of the others are as they were. */
  lemma {:induction false} AddedUp(nodes: seq<Node>, last: Node, from: Str, n: nat)
    requires WellParented(nodes) && Find(nodes, last.id).None? && Find(nodes, from).Some?
    ensures Up(nodes + [last], from, n) == Up(nodes, from, n)
    decreases n
  {
    if n > 0 {
      FindAppended(nodes, last, from);
      FindRight(nodes, from);
      var i :| 0 <= i < |nodes| && nodes[i] == Find(nodes, from).value;
      assert WellPlaced(nodes, nodes[i]);
      if Parent(nodes, from).Some? {
        AddedUp(nodes, last, Parent(nodes, from).value, n - 1);
      }
    }
  }

  lemma AddedKeepsAcyclic(nodes: seq<Node>, last: Node)
    requires WellParented(nodes) && Acyclic(nodes) && Find(nodes, last.id).None?
    requires last.parent.Some? ==> IsGroup(nodes, last.parent.value)
    ensures Acyclic(nodes + [last])
  {
    var all := nodes + [last];
    forall id: Str, n: nat ensures !Cycle(all, id, n) {
      assert !Cycle(nodes, id, n);
      if Cycle(all, id, n) {
        FindAppended(nodes, last, id);
        StepUp(all, id, n);
        if Find(nodes, id).Some? {
          AddedUp(nodes, last, id, n);
        } else {
          var p := last.parent.value;
          AddedUp(nodes, last, p, n - 1);
          UpStays(nodes, p, n - 1);
        }
      }
    }
  }

  lemma CloneSameCycle(nodes: seq<Node>, ids: nat -> Str, i: nat, n: nat)
    requires DistinctIds(nodes) && Fresh(ids) && i < |nodes|
    requires forall k | 0 <= k < |nodes| :: nodes[k].parent != Some([])
    ensures Cycle(nodes, nodes[i].id, n) <==> Cycle(Clone(nodes, ids), ids(i), n)
  {
    CloneSamePaths(nodes, ids, i, n);
  }

  /** A clone is a forest exactly when its original is. */
  lemma CloneSameForest(nodes: seq<Node>, ids: nat -> Str)
    requires DistinctIds(nodes) && Fresh(ids) && forall k | 0 <= k < |nodes| :: nodes[k].parent != Some([])
    ensures Acyclic(Clone(nodes, ids)) <==> Acyclic(nodes)
  {
    hide Cycle;
    var clone := Clone(nodes, ids);
    CloneIds(nodes, ids);
    if id: Str, n: nat :| Cycle(clone, id, n) {
      var i := CycleAt(clone, id, n);
      CloneSameCycle(nodes, ids, i, n);
    }
    if id: Str, n: nat :| Cycle(nodes, id, n) {
      var i := CycleAt(nodes, id, n);
      CloneSameCycle(nodes, ids, i, n);
    }
  }

  /** A loop goes through nodes of the hierarchy. */
  lemma CycleAt(nodes: seq<Node>, id: Str, n: nat) returns (i: nat)
    requires Cycle(nodes, id, n)
    ensures i < |nodes| && nodes[i].id == id
  {
    StepUp(nodes, id, n);
    FindRight(nodes, id);
    i :| 0 <= i < |nodes| && nodes[i] == Find(nodes, id).value;
  }

  /** An offered edit leaves a forest a forest exactly when it is one of these. */
  lemma EditKeepsForestExactly(nodes: seq<Node>, e: Edit)
    requires WellParented(nodes) && Acyclic(nodes) && Offered(nodes, e)
    ensures Acyclic(Edited(nodes, e)) <==> KeepsForest(nodes, e)
  {
    hide WellParented, Acyclic, Below, IsGroup, Groups, FirstTop, PreferredParent;
    match e
    case Open(stored) =>
    case OpenClone(stored, ids) =>
      WellParentedDistinct(stored);
      CloneSameForest(stored, ids);
    case AddGroup(id, accounts, code, name) =>
      WellParentedDistinct(nodes);
      ChosenIsGroup(nodes, None);
      AddedKeepsAcyclic(nodes, Edited(nodes, e)[|nodes|]);
    case AddMember(id, member, preferred, code, name) =>
      WellParentedDistinct(nodes);
      ChosenIsGroup(nodes, preferred);
      AddedKeepsAcyclic(nodes, Edited(nodes, e)[|nodes|]);
    case Delete(id) => RemoveKeepsAcyclic(nodes, id);
    case Reparent(id, parent) =>
      if Find(nodes, id).Some? {
        MoveKeepsAcyclicExactly(nodes, id, parent);
      } else {
        MovedNothing(nodes, id, parent);
      }
    case Relabel(id, code, name, sortOrder) =>
      forall other ensures Parent(Relabelled(nodes, id, code, name, sortOrder), other) == Parent(nodes, other) {
        RelabelledParent(nodes, id, code, name, sortOrder, other);
      }
      SameParentsSameForest(Relabelled(nodes, id, code, name, sortOrder), nodes);
  }

  lemma MovedNothing(nodes: seq<Node>, id: Str, parent: Maybe<Str>)
    requires Find(nodes, id).None?
    ensures Acyclic(Move(nodes, id, parent)) <==> Acyclic(nodes)
  {
    forall other ensures Parent(Move(nodes, id, parent), other) == Parent(nodes, other) {
      MoveParent(nodes, id, parent, other);
    }
    SameParentsSameForest(Move(nodes, id, parent), nodes);
  }

  /** A run passes through forests only, if and only if every stored hierarchy it opens is
      one and no move of it puts a node at or below itself. */
  lemma RunsForestExactly(states: seq<seq<Node>>, edits: seq<Edit>)
    requires Run(states, edits)
    ensures (forall i | 0 <= i < |states| :: Acyclic(states[i])) <==>
            (forall i | 0 <= i < |edits| :: KeepsForest(states[i], edits[i]))
  {
    hide Acyclic, KeepsForest, Offered, Edited;
    if forall i | 0 <= i < |edits| :: KeepsForest(states[i], edits[i]) {
      forall i | 0 <= i < |states| ensures Acyclic(states[i]) {
        ForestSoFar(states, edits, i);
      }
    }
    if forall i | 0 <= i < |states| :: Acyclic(states[i]) {
      forall i | 0 <= i < |edits| ensures KeepsForest(states[i], edits[i]) {
        assert Acyclic(states[i]) && Acyclic(states[i + 1]);
        RunsWellParented(states, edits, i);
        EditKeepsForestExactly(states[i], edits[i]);
      }
    }
  }

  lemma {:induction false} ForestSoFar(states: seq<seq<Node>>, edits: seq<Edit>, i: nat)
    requires Run(states, edits) && i < |states| && forall k | 0 <= k < i :: KeepsForest(states[k], edits[k])
    ensures Acyclic(states[i])
  {
    if i == 0 {
      forall id, n ensures !Cycle([], id, n) {
        if n > 0 {
          assert Parent([], id) == None;
        }
      }
    } else {
      hide Acyclic, KeepsForest, Offered, Edited;
      ForestSoFar(states, edits, i - 1);
      RunsWellParented(states, edits, i - 1);
      EditKeepsForestExactly(states[i - 1], edits[i - 1]);
    }
  }

  /** The same runs can close a loop: two groups, each moved under the other. */
  lemma RunsCanLoop(a: Str, b: Str, x: Node, y: Node) returns (states: seq<seq<Node>>, edits: seq<Edit>)
    requires a != b && x == Node(a, None, a, a, 100, None) && y == Node(b, None, b, b, 200, None)
    ensures Run(states, edits) && |states| == 4 && !Acyclic(states[3])
  {
    var first := [x, y];
    var second := [x.(parent := Some(b)), y];
    var third := [x.(parent := Some(b)), y.(parent := Some(a))];
    edits := [Open(first), Reparent(a, Some(b)), Reparent(b, Some(a))];
    states := [[], first, second, third];
    TwoMoved(x, y, a, Some(b));
    TwoMoved(x.(parent := Some(b)), y, b, Some(a));
    TwoFound(x, y);
    TwoFound(x.(parent := Some(b)), y);
    TwoFound(x.(parent := Some(b)), y.(parent := Some(a)));
    assert Up(third, a, 0) == Some(a);
    assert Up(third, b, 1) == Some(a);
    assert Cycle(third, a, 2);
  }

  lemma TwoMoved(x: Node, y: Node, id: Str, parent: Maybe<Str>)
    ensures Move([x, y], id, parent) ==
            [if x.id == id then x.(parent := parent) else x, if y.id == id then y.(parent := parent) else y]
  {
    assert [x, y][1..] == [y] && [y][1..] == [];
    assert Move([y], id, parent) == [if y.id == id then y.(parent := parent) else y];
  }

  lemma TwoFound(x: Node, y: Node)
    requires x.id != y.id
    ensures Find([x, y], x.id) == Some(x) && Find([x, y], y.id) == Some(y)
  {
    assert [x, y][1..] == [y];
  }

  // ---------------------------------------------------------------- defaults

  /** Every parent pointer names an earlier node. */
  predicate EarlierParents(nodes: seq<Node>) {
    forall i | 0 <= i < |nodes| && nodes[i].parent.Some? ::
      exists j | 0 <= j < i :: nodes[j].id == nodes[i].parent.value
  }

  lemma {:induction false} ClimbsDown(nodes: seq<Node>, i: nat, n: nat)
    requires DistinctIds(nodes) && EarlierParents(nodes) && i < |nodes| && Up(nodes, nodes[i].id, n).Some?
    ensures exists j | 0 <= j <= i :: Up(nodes, nodes[i].id, n) == Some(nodes[j].id) && (n > 0 ==> j < i)
    decreases n
  {
    FindAt(nodes, i);
    if n > 0 {
      var j :| 0 <= j < i && nodes[j].id == nodes[i].parent.value;
      ClimbsDown(nodes, j, n - 1);
      var k :| 0 <= k <= j && Up(nodes, nodes[j].id, n - 1) == Some(nodes[k].id);
      assert Up(nodes, nodes[i].id, n) == Some(nodes[k].id);
    }
  }

  lemma EarlierParentsAcyclic(nodes: seq<Node>)
    requires DistinctIds(nodes) && EarlierParents(nodes)
    ensures Acyclic(nodes)
  {
    forall id, n ensures !Cycle(nodes, id, n) {
      if Cycle(nodes, id, n) {
        FindRight(nodes, id);
        StepUp(nodes, id, n);
        var i :| 0 <= i < |nodes| && nodes[i] == Find(nodes, id).value;
        ClimbsDown(nodes, i, n);
      }
    }
  }

  datatype Group = Group(class_: Str, code: Str, name: Str)
  datatype Account = Account(id: Str, code: Str, name: Str, class_: Str, group: Str)

  /** `map.get(key)`: the position of the last entry with the key. */
  function Last(keys: seq<Str>, key: Str): (r: Maybe<nat>)
    ensures r.Some? ==> r.value < |keys| && keys[r.value] == key
    ensures r.None? ==> key !in keys
  {
    if keys == [] then None
    else if keys[|keys| - 1] == key then Some(|keys| - 1)
    else Last(keys[..|keys| - 1], key)
  }

  /** The account hierarchy of `defaultHierarchyNodes`: a root for each statement class,
      the standard groups under them, and the accounts under their group, or their class,
      or nothing. Ids are made in this order. */
  function DefaultAccounts(classes: seq<Str>, groups: seq<Group>, accounts: seq<Account>, ids: nat -> Str): seq<Node> {
    Roots(classes, ids) + GroupNodes(classes, groups, ids) + AccountNodes(classes, groups, accounts, ids)
  }

  function Roots(classes: seq<Str>, ids: nat -> Str): seq<Node> {
    seq(|classes|, i requires 0 <= i < |classes| => Node(ids(i), None, classes[i], classes[i], (i + 1) * 100, None))
  }

  function GroupNodes(classes: seq<Str>, groups: seq<Group>, ids: nat -> Str): seq<Node> {
    seq(|groups|, i requires 0 <= i < |groups| =>
      Node(ids(|classes| + i), ClassParent(classes, groups[i].class_, ids), groups[i].code, groups[i].name,
           (i + 1) * 100, None))
  }

  function AccountNodes(classes: seq<Str>, groups: seq<Group>, accounts: seq<Account>, ids: nat -> Str): seq<Node> {
    seq(|accounts|, i requires 0 <= i < |accounts| =>
      Node(ids(|classes| + |groups| + i), GroupParent(classes, groups, accounts[i], ids), accounts[i].code,
           accounts[i].name, (i + 1) * 10, Some(accounts[i].id)))
  }

  function ClassParent(classes: seq<Str>, class_: Str, ids: nat -> Str): Maybe<Str> {
    var r := Last(classes, class_);
    if r.Some? then Some(ids(r.value)) else None
  }

  function GroupParent(classes: seq<Str>, groups: seq<Group>, account: Account, ids: nat -> Str): Maybe<Str> {
    var g := Last(seq(|groups|, i requires 0 <= i < |groups| => groups[i].code), account.group);
    if g.Some? then Some(ids(|classes| + g.value)) else ClassParent(classes, account.class_, ids)
  }

  /** Where a node of the defaults stands, and which earlier group is its parent. */
  lemma DefaultNodeAt(classes: seq<Str>, groups: seq<Group>, accounts: seq<Account>, ids: nat -> Str, i: nat)
    requires i < |DefaultAccounts(classes, groups, accounts, ids)|
    ensures var all := DefaultAccounts(classes, groups, accounts, ids);
            && all[i].id == ids(i) && (all[i].member.None? <==> i < |classes| + |groups|)
            && (all[i].parent.Some? ==>
                  exists j | 0 <= j < i && j < |classes| + |groups| :: all[i].parent == Some(ids(j)))
  {
  }

  /** A default hierarchy is well parented and a forest. */
  lemma DefaultsSound(classes: seq<Str>, groups: seq<Group>, accounts: seq<Account>, ids: nat -> Str)
    requires Fresh(ids)
    ensures WellParented(DefaultAccounts(classes, groups, accounts, ids))
    ensures Acyclic(DefaultAccounts(classes, groups, accounts, ids))
  {
    var all := DefaultAccounts(classes, groups, accounts, ids);
    hide DefaultAccounts, Find;
    forall i | 0 <= i < |all|
      ensures all[i].id == ids(i)
    {
      DefaultNodeAt(classes, groups, accounts, ids, i);
    }
    assert DistinctIds(all);
    forall i | 0 <= i < |all| && all[i].parent.Some?
      ensures WellPlaced(all, all[i]) && exists j | 0 <= j < i :: all[j].id == all[i].parent.value
    {
      DefaultNodeAt(classes, groups, accounts, ids, i);
      var j :| 0 <= j < i && j < |classes| + |groups| && all[i].parent == Some(ids(j));
      DefaultNodeAt(classes, groups, accounts, ids, j);
      FindAt(all, j);
      assert all[j].id == all[i].parent.value;
    }
    EarlierParentsAcyclic(all);
  }

  // --------------------------------------------------------- what an edit shows

  /** Every group is listed. */
  lemma {:induction false} GroupsComplete(nodes: seq<Node>)
    ensures forall node <- nodes :: node.member.None? ==> node in Groups(nodes)
  {
    if nodes != [] {
      GroupsComplete(nodes[1..]);
      assert nodes == [nodes[0]] + nodes[1..];
    }
  }

  /** Node `m` is the first of the hierarchy that is such a group. */
  predicate FirstWith(nodes: seq<Node>, m: nat, fits: Node -> bool) {
    && m < |nodes| && nodes[m].member.None? && fits(nodes[m])
    && forall i | 0 <= i < m :: !(nodes[i].member.None? && fits(nodes[i]))
  }

  predicate NoneWith(nodes: seq<Node>, fits: Node -> bool) {
    forall i | 0 <= i < |nodes| :: !(nodes[i].member.None? && fits(nodes[i]))
  }

  /** The parent is the first such group, or there is none. */
  ghost predicate ParentIsFirst(nodes: seq<Node>, parent: Maybe<Str>, fits: Node -> bool) {
    match parent
    case None => NoneWith(nodes, fits)
    case Some(id) => exists m: nat :: FirstWith(nodes, m, fits) && nodes[m].id == id
  }

  lemma FirstInTail(nodes: seq<Node>, parent: Maybe<Str>, fits: Node -> bool)
    requires nodes != [] && !(nodes[0].member.None? && fits(nodes[0])) && ParentIsFirst(nodes[1..], parent, fits)
    ensures ParentIsFirst(nodes, parent, fits)
  {
    if parent.Some? {
      var m: nat :| FirstWith(nodes[1..], m, fits) && nodes[1..][m].id == parent.value;
      forall i | 0 <= i < m + 1 ensures !(nodes[i].member.None? && fits(nodes[i])) {
        if i > 0 {
          assert nodes[1..][i - 1] == nodes[i];
        }
      }
      assert FirstWith(nodes, m + 1, fits);
    } else {
      forall i | 0 <= i < |nodes| ensures !(nodes[i].member.None? && fits(nodes[i])) {
        if i > 0 {
          assert nodes[1..][i - 1] == nodes[i];
        }
      }
    }
  }

  lemma FirstHere(nodes: seq<Node>, fits: Node -> bool)
    requires nodes != [] && nodes[0].member.None? && fits(nodes[0])
    ensures ParentIsFirst(nodes, Some(nodes[0].id), fits)
  {
    assert FirstWith(nodes, 0, fits);
  }

  lemma {:induction false} FirstTopExactly(nodes: seq<Node>)
    ensures ParentIsFirst(nodes, FirstTop(Groups(nodes)), (node: Node) => node.parent.None?)
  {
    var fits := (node: Node) => node.parent.None?;
    if nodes == [] {
    } else if nodes[0].member.None? && fits(nodes[0]) {
      FirstHere(nodes, fits);
      assert Groups(nodes)[0] == nodes[0];
    } else {
      FirstTopExactly(nodes[1..]);
      if nodes[0].member.None? {
        assert Groups(nodes) == [nodes[0]] + Groups(nodes[1..]);
        assert Groups(nodes)[1..] == Groups(nodes[1..]);
      } else {
        assert Groups(nodes) == Groups(nodes[1..]);
      }
      FirstInTail(nodes, FirstTop(Groups(nodes)), fits);
    }
  }

  lemma {:induction false} FirstOfCodeExactly(nodes: seq<Node>, code: Maybe<Str>)
    ensures ParentIsFirst(nodes, FirstOfCode(Groups(nodes), code), (node: Node) => code == Some(node.code))
  {
    var fits := (node: Node) => code == Some(node.code);
    if nodes == [] {
    } else if nodes[0].member.None? && fits(nodes[0]) {
      FirstHere(nodes, fits);
      assert Groups(nodes)[0] == nodes[0];
    } else {
      FirstOfCodeExactly(nodes[1..], code);
      if nodes[0].member.None? {
        assert Groups(nodes) == [nodes[0]] + Groups(nodes[1..]);
        assert Groups(nodes)[1..] == Groups(nodes[1..]);
      } else {
        assert Groups(nodes) == Groups(nodes[1..]);
      }
      FirstInTail(nodes, FirstOfCode(Groups(nodes), code), fits);
    }
  }

  lemma {:induction false} FirstGroupExactly(nodes: seq<Node>)
    ensures ParentIsFirst(nodes, if Groups(nodes) == [] then None else Some(Groups(nodes)[0].id), (node: Node) => true)
  {
    var fits := (node: Node) => true;
    if nodes == [] {
    } else if nodes[0].member.None? {
      FirstHere(nodes, fits);
      assert Groups(nodes)[0] == nodes[0];
    } else {
      FirstGroupExactly(nodes[1..]);
      assert Groups(nodes) == Groups(nodes[1..]);
      FirstInTail(nodes, if Groups(nodes) == [] then None else Some(Groups(nodes)[0].id), fits);
    }
  }

  /** Where a new member goes: under the first group of the preferred code, without one under
      the first group, without any to the top. */
  ghost predicate MemberPlaced(nodes: seq<Node>, parent: Maybe<Str>, preferred: Maybe<Str>) {
    var ofCode := (node: Node) => preferred == Some(node.code);
    if NoneWith(nodes, ofCode) then ParentIsFirst(nodes, parent, (node: Node) => true)
    else ParentIsFirst(nodes, parent, ofCode)
  }

  lemma PreferredExactly(nodes: seq<Node>, preferred: Maybe<Str>)
    ensures MemberPlaced(nodes, PreferredParent(Groups(nodes), preferred), preferred)
  {
    hide Groups, FirstOfCode;
    FirstOfCodeExactly(nodes, preferred);
    FirstGroupExactly(nodes);
  }

  /** What the hierarchy holds after an edit. */
  ghost predicate EditShown(nodes: seq<Node>, t: seq<Node>, e: Edit) {
    match e
    case Open(stored) => t == stored
    case OpenClone(stored, ids) => |t| == |stored|
    case AddGroup(id, accounts, code, name) =>
      && |t| == |nodes| + 1 && t[..|nodes|] == nodes
      && var last := t[|nodes|];
         && last.id == id && last.code == code && last.name == name && last.member == None
         && last.sortOrder == 100 * (|Groups(nodes)| + 1)
         && if accounts then ParentIsFirst(nodes, last.parent, (node: Node) => node.parent.None?)
            else last.parent == None
    case AddMember(id, member, preferred, code, name) =>
      && |t| == |nodes| + 1 && t[..|nodes|] == nodes
      && var last := t[|nodes|];
         && last.id == id && last.code == code && last.name == name && last.member == Some(member)
         && last.sortOrder == 10 * (|nodes| + 1)
         && MemberPlaced(nodes, last.parent, preferred)
    case Delete(id) =>
      && (forall node <- t :: node.id != id && node.parent != Some(id))
      && (forall node <- nodes :: node.id != id ==>
            exists kept <- t :: kept == node.(parent := if node.parent == Some(id) then None else node.parent))
    case Reparent(id, parent) =>
      && |t| == |nodes|
      && forall i | 0 <= i < |nodes| ::
           t[i] == nodes[i].(parent := if nodes[i].id == id then parent else nodes[i].parent)
    case Relabel(id, code, name, sortOrder) =>
      && |t| == |nodes|
      && forall i | 0 <= i < |nodes| ::
           if nodes[i].id == id then t[i] == Node(id, nodes[i].parent, code, name, sortOrder, nodes[i].member)
           else t[i] == nodes[i]
  }

  lemma {:induction false} RemoveKeepsOthers(nodes: seq<Node>, id: Str)
    ensures forall node <- Remove(nodes, id) :: node.id != id && node.parent != Some(id)
    ensures forall node <- nodes :: node.id != id ==> Cut(node, id) in Remove(nodes, id)
  {
    if nodes != [] {
      RemoveKeepsOthers(nodes[1..], id);
      assert nodes == [nodes[0]] + nodes[1..];
    }
  }

  /** Every edit shows what it was given and leaves the other nodes as they were. */
  lemma EditShows(nodes: seq<Node>, e: Edit)
    ensures EditShown(nodes, Edited(nodes, e), e)
  {
    hide Groups, FirstTop, PreferredParent, Remove, Move, ParentIsFirst, MemberPlaced, Clone;
    match e {
      case Open(stored) =>
      case OpenClone(stored, ids) => CloneLength(stored, ids);
      case AddGroup(id, accounts, code, name) => FirstTopExactly(nodes);
      case AddMember(id, member, preferred, code, name) => PreferredExactly(nodes, preferred);
      case Delete(id) =>
        RemoveKeepsOthers(nodes, id);
        forall node <- nodes | node.id != id
          ensures exists kept <- Remove(nodes, id) ::
            kept == node.(parent := if node.parent == Some(id) then None else node.parent)
        {
          assert Cut(node, id) in Remove(nodes, id);
        }
      case Reparent(id, parent) => MoveAt(nodes, id, parent);
      case Relabel(id, code, name, sortOrder) =>
    }
  }

  lemma CloneLength(nodes: seq<Node>, ids: nat -> Str)
    ensures |Clone(nodes, ids)| == |nodes|
  {
  }

  // ----------------------------------------------------- what the defaults hold

  /** The node a parent pointer leads to is the group or class of that code. */
  predicate LeadsTo(all: seq<Node>, parent: Maybe<Str>, code: Str) {
    parent.Some? && Find(all, parent.value).Some? && Find(all, parent.value).value.code == code
  }

  /** The defaults hold every class at the top, every group under its class, and every account
      under its group, without one under its class, without either at the top. */
  lemma DefaultsComplete(classes: seq<Str>, groups: seq<Group>, accounts: seq<Account>, ids: nat -> Str)
    requires Fresh(ids)
    ensures var all := DefaultAccounts(classes, groups, accounts, ids);
      && |all| == |classes| + |groups| + |accounts|
      && (forall i | 0 <= i < |classes| ::
            all[i].code == all[i].name == classes[i] && all[i].parent == None && all[i].member == None)
      && (forall i | 0 <= i < |groups| :: var node := all[|classes| + i];
            && node.code == groups[i].code && node.name == groups[i].name && node.member == None
            && if groups[i].class_ in classes then LeadsTo(all, node.parent, groups[i].class_) else node.parent == None)
      && (forall i | 0 <= i < |accounts| :: var node := all[|classes| + |groups| + i];
            && node.code == accounts[i].code && node.name == accounts[i].name && node.member == Some(accounts[i].id)
            && if exists g <- groups :: g.code == accounts[i].group then LeadsTo(all, node.parent, accounts[i].group)
               else if accounts[i].class_ in classes then LeadsTo(all, node.parent, accounts[i].class_)
               else node.parent == None)
  {
    var all := DefaultAccounts(classes, groups, accounts, ids);
    DefaultsSound(classes, groups, accounts, ids);
    DefaultsAt(classes, groups, accounts, ids);
    hide DefaultAccounts, Find, Acyclic, ClassParent, GroupParent, WellPlaced;
    forall i | 0 <= i < |groups|
      ensures var node := all[|classes| + i];
        if groups[i].class_ in classes then LeadsTo(all, node.parent, groups[i].class_) else node.parent == None
    {
      ClassLeads(classes, groups, accounts, ids, all, groups[i].class_);
    }
    forall i | 0 <= i < |accounts|
      ensures var node := all[|classes| + |groups| + i];
        if exists g <- groups :: g.code == accounts[i].group then LeadsTo(all, node.parent, accounts[i].group)
        else if accounts[i].class_ in classes then LeadsTo(all, node.parent, accounts[i].class_)
        else node.parent == None
    {
      ClassLeads(classes, groups, accounts, ids, all, accounts[i].class_);
      GroupLeads(classes, groups, accounts, ids, all, accounts[i]);
    }
  }

  /** The defaults position by position. */
  lemma DefaultsAt(classes: seq<Str>, groups: seq<Group>, accounts: seq<Account>, ids: nat -> Str)
    ensures var all := DefaultAccounts(classes, groups, accounts, ids);
      && |all| == |classes| + |groups| + |accounts|
      && (forall i | 0 <= i < |all| :: all[i].id == ids(i))
      && (forall i | 0 <= i < |classes| ::
            all[i].code == all[i].name == classes[i] && all[i].parent == None && all[i].member == None)
      && (forall i | 0 <= i < |groups| :: var node := all[|classes| + i];
            && node.code == groups[i].code && node.name == groups[i].name && node.member == None
            && node.parent == ClassParent(classes, groups[i].class_, ids))
      && (forall i | 0 <= i < |accounts| :: var node := all[|classes| + |groups| + i];
            && node.code == accounts[i].code && node.name == accounts[i].name && node.member == Some(accounts[i].id)
            && node.parent == GroupParent(classes, groups, accounts[i], ids))
  {
    hide ClassParent, GroupParent;
  }

  /** Each of the three kinds is numbered from one, accounts in tens and the others in hundreds. */
  lemma DefaultsSorted(classes: seq<Str>, groups: seq<Group>, accounts: seq<Account>, ids: nat -> Str)
    ensures var all := DefaultAccounts(classes, groups, accounts, ids);
      && |all| == |classes| + |groups| + |accounts|
      && (forall i | 0 <= i < |classes| :: all[i].sortOrder == 100 * (i + 1))
      && (forall i | 0 <= i < |groups| :: var node := all[|classes| + i];
            node.name == groups[i].name && node.sortOrder == 100 * (i + 1))
      && (forall i | 0 <= i < |accounts| :: var node := all[|classes| + |groups| + i];
            node.name == accounts[i].name && node.sortOrder == 10 * (i + 1))
  {
    hide ClassParent, GroupParent;
  }

  lemma ClassLeads(classes: seq<Str>, groups: seq<Group>, accounts: seq<Account>, ids: nat -> Str, all: seq<Node>,
                   class_: Str)
    requires all == DefaultAccounts(classes, groups, accounts, ids) && DistinctIds(all)
    ensures if class_ in classes then LeadsTo(all, ClassParent(classes, class_, ids), class_)
            else ClassParent(classes, class_, ids) == None
  {
    DefaultsAt(classes, groups, accounts, ids);
    hide DefaultAccounts, Find;
    var r := Last(classes, class_);
    if r.Some? {
      FindAt(all, r.value);
    }
  }

  lemma GroupLeads(classes: seq<Str>, groups: seq<Group>, accounts: seq<Account>, ids: nat -> Str, all: seq<Node>,
                   account: Account)
    requires all == DefaultAccounts(classes, groups, accounts, ids) && DistinctIds(all)
    ensures if exists g <- groups :: g.code == account.group
            then LeadsTo(all, GroupParent(classes, groups, account, ids), account.group)
            else GroupParent(classes, groups, account, ids) == ClassParent(classes, account.class_, ids)
  {
    DefaultsAt(classes, groups, accounts, ids);
    GroupParentIs(classes, groups, account, ids);
    hide DefaultAccounts, Find, ClassParent, GroupParent;
    if exists g <- groups :: g.code == account.group {
      var i :| 0 <= i < |groups| && groups[i].code == account.group
               && GroupParent(classes, groups, account, ids) == Some(ids(|classes| + i));
      FindAt(all, |classes| + i);
    }
  }

  lemma GroupParentIs(classes: seq<Str>, groups: seq<Group>, account: Account, ids: nat -> Str)
    ensures if exists g <- groups :: g.code == account.group
            then exists i | 0 <= i < |groups| :: groups[i].code == account.group
                   && GroupParent(classes, groups, account, ids) == Some(ids(|classes| + i))
            else GroupParent(classes, groups, account, ids) == ClassParent(classes, account.class_, ids)
  {
    hide ClassParent, Last;
    var codes := seq(|groups|, i requires 0 <= i < |groups| => groups[i].code);
    if exists g <- groups :: g.code == account.group {
      var i :| 0 <= i < |groups| && groups[i].code == account.group;
      assert codes[i] == account.group;
    }
    var r := Last(codes, account.group);
    if r.Some? {
      assert groups[r.value] in groups && groups[r.value].code == account.group;
    }
  }
}
