/** Mount-local FUSE node identities and their lookup references (`node.rs`). */
module NodeTable {
  import opened Bytes

  const ROOT: u64 := 1
  const FIRST_DYNAMIC_NODE_SEQUENCE: u64 := 2

  type NodeId = u64
  type ObjectId = Str

  datatype Binding = Binding(node: NodeId, item: ObjectId, lookups: u64)

  datatype ForgetOutcome = Retained(binding: Binding) | Removed(item: ObjectId)

  datatype NodeError =
    | UnknownNode(node: NodeId)
    | NodeIdExhausted
    | LookupCountExhausted(node: NodeId)
    | ForgetCountExceedsLookupCount(node: NodeId, requested: u64, current: u64)
    | CannotForgetRoot
    | InvariantViolation

  datatype Nodes = Nodes(nodes: map<NodeId, Binding>, objects: map<ObjectId, NodeId>, next: Option<u64>)

  function New(root: ObjectId): Nodes {
    Nodes(map[ROOT := Binding(ROOT, root, 1)], map[root := ROOT], Some(FIRST_DYNAMIC_NODE_SEQUENCE))
  }

  function Allocate(s: Nodes, item: ObjectId): (Nodes, Result<Binding, NodeError>) {
    if s.next.None? then (s, Err(NodeIdExhausted))
    else if s.next.value == 0 || s.next.value in s.nodes || item in s.objects then (s, Err(InvariantViolation))
    else
      var node := s.next.value;
      var binding := Binding(node, item, 1);
      (Nodes(s.nodes[node := binding], s.objects[item := node], CheckedNext(node)), Ok(binding))
  }

  function RememberLookup(s: Nodes, item: ObjectId): (Nodes, Result<Binding, NodeError>) {
    if item !in s.objects then Allocate(s, item)
    else
      var node := s.objects[item];
      if node !in s.nodes || s.nodes[node].item != item then (s, Err(InvariantViolation))
      else if node == ROOT then (s, Ok(s.nodes[node]))
      else if CheckedNext(s.nodes[node].lookups).None? then (s, Err(LookupCountExhausted(node)))
      else
        var binding := s.nodes[node].(lookups := s.nodes[node].lookups + 1);
        (s.(nodes := s.nodes[node := binding]), Ok(binding))
  }

  /** A `NonZeroU64` count is a positive one. */
  function Forget(s: Nodes, node: NodeId, count: u64): (Nodes, Result<ForgetOutcome, NodeError>)
    requires count > 0
  {
    if node == ROOT then (s, Err(CannotForgetRoot))
    else if node !in s.nodes then (s, Err(UnknownNode(node)))
    else
      var binding := s.nodes[node];
      if count > binding.lookups then (s, Err(ForgetCountExceedsLookupCount(node, count, binding.lookups)))
      else if binding.item !in s.objects || s.objects[binding.item] != node then (s, Err(InvariantViolation))
      else if count == binding.lookups then
        (s.(nodes := s.nodes - {node}, objects := s.objects - {binding.item}), Ok(Removed(binding.item)))
      else
        var kept := binding.(lookups := binding.lookups - count);
        (s.(nodes := s.nodes[node := kept]), Ok(Retained(kept)))
  }

  function Resolve(s: Nodes, node: NodeId): Result<ObjectId, NodeError> {
    if node in s.nodes then Ok(s.nodes[node].item) else Err(UnknownNode(node))
  }

  function NodeForObject(s: Nodes, item: ObjectId): Result<Option<NodeId>, NodeError> {
    if item !in s.objects then Ok(None)
    else if s.objects[item] !in s.nodes || s.nodes[s.objects[item]].item != item then Err(InvariantViolation)
    else Ok(Some(s.objects[item]))
  }

  // ----- runs with their history -------------------------------------------

  datatype Op = Lookup(item: ObjectId) | Drop(node: NodeId, count: u64)

  /**
   A table with what has happened to it: the object each identity was ever
   bound to, and the references handed out and given back under it.
   */
  datatype Mount = Mount(table: Nodes, bound: map<NodeId, ObjectId>, given: map<NodeId, nat>, returned: map<NodeId, nat>)

  function Tally(m: map<NodeId, nat>, node: NodeId, n: nat): map<NodeId, nat> {
    m[node := n + if node in m then m[node] else 0]
  }

  function Step(m: Mount, op: Op): Mount {
    match op
    case Lookup(item) =>
      var (table, r) := RememberLookup(m.table, item);
      if r.Err? then m.(table := table)
      else m.(table := table, bound := m.bound[r.value.node := item], given := Tally(m.given, r.value.node, 1))
    case Drop(node, count) =>
      if count == 0 then m
      else
        var (table, r) := Forget(m.table, node, count);
        if r.Err? then m.(table := table) else m.(table := table, returned := Tally(m.returned, node, count))
  }

  function Run(m: Mount, ops: seq<Op>): Mount
    decreases |ops|
  {
    if ops == [] then m else Run(Step(m, ops[0]), ops[1..])
  }

  function Mounted(root: ObjectId): Mount {
    Mount(New(root), map[ROOT := root], map[], map[])
  }

  // ----- invariant ---------------------------------------------------------

  predicate Inverse(s: Nodes) {
    && (forall n :: n in s.nodes ==> s.nodes[n].node == n && s.nodes[n].item in s.objects && s.objects[s.nodes[n].item] == n)
    && (forall o :: o in s.objects ==> s.objects[o] in s.nodes && s.nodes[s.objects[o]].item == o)
  }

  predicate RootPinned(s: Nodes) {
    ROOT in s.nodes && s.nodes[ROOT].lookups == 1
  }

  function Count(m: map<NodeId, nat>, node: NodeId): nat {
    if node in m then m[node] else 0
  }

  /** An ordinary live node holds exactly the references still out, and at least one. */
  predicate Counted(s: Nodes, given: map<NodeId, nat>, returned: map<NodeId, nat>) {
    forall n :: n in s.nodes && n != ROOT ==> s.nodes[n].lookups >= 1 && s.nodes[n].lookups == Count(given, n) - Count(returned, n)
  }

  /** No identity at or past the cursor was ever used, and every one before it was. */
  ghost predicate Unused(s: Nodes, bound: map<NodeId, ObjectId>, given: map<NodeId, nat>, returned: map<NodeId, nat>) {
    && |bound| + 1 == (if s.next.Some? then s.next.value else U64_COUNT)
    && (s.next.Some? ==> s.next.value >= FIRST_DYNAMIC_NODE_SEQUENCE)
    && (forall n :: n in s.nodes ==> n in bound && bound[n] == s.nodes[n].item)
    && (s.next.Some? ==> forall n :: n in bound || n in given || n in returned ==> n < s.next.value)
  }

  ghost predicate MountValid(m: Mount) {
    && Inverse(m.table) && RootPinned(m.table)
    && Counted(m.table, m.given, m.returned)
    && Unused(m.table, m.bound, m.given, m.returned)
  }

  lemma MountedValid(root: ObjectId)
    ensures MountValid(Mounted(root))
  {
  }

  lemma LookupCounted(m: Mount, item: ObjectId)
    requires MountValid(m)
    ensures var n := Step(m, Lookup(item)); Counted(n.table, n.given, n.returned)
  {
    hide RootPinned;
  }

  lemma LookupUnused(m: Mount, item: ObjectId)
    requires MountValid(m)
    ensures var n := Step(m, Lookup(item)); Unused(n.table, n.bound, n.given, n.returned)
  {
    hide RootPinned, Counted;
    if item in m.table.objects {
      assert m.bound[m.table.objects[item] := item] == m.bound;
    }
  }

  lemma LookupValid(m: Mount, item: ObjectId)
    requires MountValid(m)
    ensures MountValid(Step(m, Lookup(item)))
  {
    hide Inverse, Counted, RootPinned, RememberLookup;
    LookupInverse(m.table, item);
    LookupCounted(m, item);
    LookupUnused(m, item);
  }

  lemma LookupInverse(s: Nodes, item: ObjectId)
    requires Inverse(s) && RootPinned(s) && (s.next.Some? ==> s.next.value !in s.nodes)
    ensures Inverse(RememberLookup(s, item).0) && RootPinned(RememberLookup(s, item).0)
  {
  }

  lemma ForgetInverse(s: Nodes, node: NodeId, count: u64)
    requires Inverse(s) && RootPinned(s) && count > 0
    ensures Inverse(Forget(s, node, count).0) && RootPinned(Forget(s, node, count).0)
  {
  }

  lemma DropCounted(m: Mount, node: NodeId, count: u64)
    requires MountValid(m)
    ensures var n := Step(m, Drop(node, count)); Counted(n.table, n.given, n.returned)
  {
    hide Inverse, RootPinned;
  }

  lemma DropUnused(m: Mount, node: NodeId, count: u64)
    requires MountValid(m)
    ensures var n := Step(m, Drop(node, count)); Unused(n.table, n.bound, n.given, n.returned)
  {
    hide Inverse, RootPinned, Counted;
    var n := Step(m, Drop(node, count));
    assert n.bound == m.bound && n.given == m.given && n.table.next == m.table.next;
    assert forall x :: x in n.table.nodes ==> x in m.table.nodes && n.table.nodes[x].item == m.table.nodes[x].item;
    assert forall x :: x in n.returned ==> x in m.returned || x in m.table.nodes;
  }

  lemma DropValid(m: Mount, node: NodeId, count: u64)
    requires MountValid(m)
    ensures MountValid(Step(m, Drop(node, count)))
  {
    hide Inverse, Counted, RootPinned, Forget;
    DropCounted(m, node, count);
    DropUnused(m, node, count);
    if count > 0 {
      ForgetInverse(m.table, node, count);
    }
  }

  /** Identities are bound once and, once retired, stay retired. */
  predicate Later(m: Mount, n: Mount) {
    && (forall x :: x in m.bound ==> x in n.bound && n.bound[x] == m.bound[x])
    && (forall x :: x in m.bound && x !in m.table.nodes ==> x !in n.table.nodes)
  }

  lemma StepLater(m: Mount, op: Op)
    requires MountValid(m)
    ensures Later(m, Step(m, op))
  {
    hide Counted, RootPinned;
  }

  lemma {:induction false} RunValid(m: Mount, ops: seq<Op>)
    requires MountValid(m)
    ensures MountValid(Run(m, ops)) && Later(m, Run(m, ops))
    decreases |ops|
  {
    hide MountValid, Step;
    if ops != [] {
      match ops[0] {
        case Lookup(item) => LookupValid(m, item);
        case Drop(node, count) => DropValid(m, node, count);
      }
      StepLater(m, ops[0]);
      RunValid(Step(m, ops[0]), ops[1..]);
    }
  }

  /** At no two moments of a mount does one node identity resolve to different objects. */
  lemma NeverRebound(root: ObjectId, before: seq<Op>, after: seq<Op>, node: NodeId)
    ensures var m, n := Run(Mounted(root), before), Run(Run(Mounted(root), before), after);
            && (Resolve(m.table, node).Ok? && Resolve(n.table, node).Ok? ==> Resolve(m.table, node) == Resolve(n.table, node))
            && (Resolve(m.table, node).Err? && node in m.bound ==> Resolve(n.table, node).Err?)
  {
    hide Inverse, Counted, RootPinned, Run;
    MountedValid(root);
    RunValid(Mounted(root), before);
    RunValid(Run(Mounted(root), before), after);
  }

  /** A rejected call changes nothing, and in a valid table no call can find the indexes in disagreement. */
  lemma RejectedUnchanged(m: Mount, item: ObjectId, node: NodeId, count: u64)
    requires MountValid(m) && count > 0
    ensures var (t, r) := RememberLookup(m.table, item); r.Err? ==> t == m.table && r.error != InvariantViolation
    ensures var (t, r) := Forget(m.table, node, count); r.Err? ==> t == m.table && r.error != InvariantViolation
    ensures NodeForObject(m.table, item) == Ok(if item in m.table.objects then Some(m.table.objects[item]) else None)
  {
  }

  /** The two indexes agree about an object. */
  predicate Agrees(s: Nodes, item: ObjectId) {
    item in s.objects ==> s.objects[item] in s.nodes && s.nodes[s.objects[item]].item == item
  }

  /** On any table, valid or not, a disagreement of the indexes is reported exactly where a call runs into it. */
  lemma DisagreementReported(s: Nodes, item: ObjectId, node: NodeId, count: u64)
    requires count > 0
    ensures NodeForObject(s, item) == Err(InvariantViolation) <==> !Agrees(s, item)
    ensures RememberLookup(s, item).1 == Err(InvariantViolation) <==>
            || !Agrees(s, item)
            || (item !in s.objects && s.next.Some? && (s.next.value == 0 || s.next.value in s.nodes))
    ensures Allocate(s, item).1 == Err(InvariantViolation) <==>
            s.next.Some? && (s.next.value == 0 || s.next.value in s.nodes || item in s.objects)
    ensures Forget(s, node, count).1 == Err(InvariantViolation) <==>
            && node != 1 && node in s.nodes && count <= s.nodes[node].lookups
            && (s.nodes[node].item !in s.objects || s.objects[s.nodes[node].item] != node)
  {
  }

  // ----- the table ---------------------------------------------------------

  /**
   What a lookup promises: the object it names, under the identity it returns,
   one more reference out. It fails only when a counter is at its last value.
   */
  lemma LookupMeans(m: Mount, item: ObjectId)
    requires MountValid(m)
    ensures var (t, r) := RememberLookup(m.table, item);
            && (r.Ok? ==>
                  && Resolve(t, r.value.node) == Ok(item) && NodeForObject(t, item) == Ok(Some(r.value.node))
                  && (item !in m.table.objects ==> r.value.node !in m.bound && r.value.node == |m.bound| + 1 && r.value.lookups == 1)
                  && (item in m.table.objects ==> r.value.node == m.table.objects[item]
                                                  && r.value.lookups == m.table.nodes[r.value.node].lookups + if r.value.node == 1 then 0 else 1))
            && (forall x :: x in m.table.nodes ==> x in t.nodes && t.nodes[x].item == m.table.nodes[x].item)
            && (forall x :: x in m.table.nodes && m.table.nodes[x].item != item ==> t.nodes[x] == m.table.nodes[x])
  {
    hide Counted, RootPinned;
  }

  /** A lookup is refused only for the last node identity or the last reference of a node. */
  lemma LookupAccepted(m: Mount, item: ObjectId)
    requires MountValid(m)
    ensures var r := RememberLookup(m.table, item).1;
            if item !in m.table.objects then
              && (r.Ok? <==> |m.bound| < 0xFFFF_FFFF_FFFF_FFFF)
              && (r.Err? ==> r.error == NodeIdExhausted)
            else
              && (r.Ok? <==> m.table.objects[item] == 1 || m.table.nodes[m.table.objects[item]].lookups < 0xFFFF_FFFF_FFFF_FFFF)
              && (r.Err? ==> r.error == LookupCountExhausted(m.table.objects[item]))
  {
    hide Counted, RootPinned;
    NextUnused(m);
  }

  /** What a forget promises: only this node changes, and with its last reference it becomes stale. */
  lemma ForgetMeans(m: Mount, node: NodeId, count: u64)
    requires MountValid(m) && count > 0
    ensures var (t, r) := Forget(m.table, node, count);
            && (r.Ok? <==> node != ROOT && node in m.table.nodes && count <= m.table.nodes[node].lookups)
            && (r.Ok? ==> (Resolve(t, node).Err? <==> count == m.table.nodes[node].lookups))
            && (r.Ok? ==>
                  if count == m.table.nodes[node].lookups then r.value == Removed(m.table.nodes[node].item) && NodeForObject(t, m.table.nodes[node].item) == Ok(None)
                  else r.value == Retained(t.nodes[node]) && t.nodes[node] == m.table.nodes[node].(lookups := m.table.nodes[node].lookups - count))
            && (r.Err? ==> r.error == if node == 1 then CannotForgetRoot else if node !in m.table.nodes then UnknownNode(node)
                                      else ForgetCountExceedsLookupCount(node, count, m.table.nodes[node].lookups))
            && (forall x :: x in m.table.nodes && x != node ==> x in t.nodes && t.nodes[x] == m.table.nodes[x])
  {
    hide Counted, RootPinned;
  }

  /**
   The table behind its lock. The ghost fields record its history: every
   binding ever made and the references handed out and given back.
   */
  class Table {
    var nodes: map<NodeId, Binding>
    var objects: map<ObjectId, NodeId>
    var next: Option<u64>
    ghost var bound: map<NodeId, ObjectId>
    ghost var given: map<NodeId, nat>
    ghost var returned: map<NodeId, nat>

    function Value(): Nodes
      reads this
    {
      Nodes(nodes, objects, next)
    }

    ghost function History(): Mount
      reads this
    {
      Mount(Value(), bound, given, returned)
    }

    /** Indexes inverse, root pinned, counts equal to lookups minus forgets, no identity ever reused. */
    ghost predicate Valid()
      reads this
    {
      MountValid(History())
    }

    constructor (root: ObjectId)
      ensures History() == Mounted(root) && Valid()
    {
      nodes := map[ROOT := Binding(ROOT, root, 1)];
      objects := map[root := ROOT];
      next := Some(FIRST_DYNAMIC_NODE_SEQUENCE);
      bound, given, returned := map[ROOT := root], map[], map[];
      MountedValid(root);
    }

    /** A binding is made only under an identity that never existed before. */
    method AllocateNode(item: ObjectId) returns (r: Result<Binding, NodeError>)
      requires Valid()
      modifies this
      ensures (Value(), r) == Allocate(old(Value()), item)
      ensures item !in old(objects) ==> History() == Step(old(History()), Lookup(item)) && Valid()
      ensures r.Ok? ==> item !in old(objects) && r.value.node !in old(bound) && Resolve(Value(), r.value.node) == Ok(item)
      ensures r.Err? ==> History() == old(History()) && (r.error.InvariantViolation? ==> item in old(objects))
    {
      hide MountValid;
      LookupValid(History(), item);
      LookupMeans(History(), item);
      NextUnused(History());
      if next.None? {
        return Err(NodeIdExhausted);
      }
      var node := next.value;
      if node == 0 || node in nodes || item in objects {
        return Err(InvariantViolation);
      }
      var binding := Binding(node, item, 1);
      next := CheckedNext(node);
      nodes := nodes[node := binding];
      objects := objects[item := node];
      bound, given := bound[node := item], Tally(given, node, 1);
      r := Ok(binding);
    }

    /** The object resolves under the returned identity; a rejected lookup leaves no trace. */
    method Remember(item: ObjectId) returns (r: Result<Binding, NodeError>)
      requires Valid()
      modifies this
      ensures (Value(), r) == RememberLookup(old(Value()), item)
      ensures History() == Step(old(History()), Lookup(item)) && Valid() && Later(old(History()), History())
      ensures r.Ok? ==> Resolve(Value(), r.value.node) == Ok(item) && NodeForObject(Value(), item) == Ok(Some(r.value.node))
      ensures r.Err? ==> History() == old(History()) && r.error != InvariantViolation
      ensures item !in old(objects) ==> (r.Ok? <==> |old(bound)| < 0xFFFF_FFFF_FFFF_FFFF)
      ensures item in old(objects) && old(objects)[item] in old(nodes) ==>
                (r.Ok? <==> old(objects)[item] == 1 || old(nodes)[old(objects)[item]].lookups < 0xFFFF_FFFF_FFFF_FFFF)
    {
      hide MountValid, Later;
      LookupAccepted(History(), item);
      LookupValid(History(), item);
      LookupMeans(History(), item);
      StepLater(History(), Lookup(item));
      RejectedUnchanged(History(), item, ROOT, 1);
      if item in objects {
        var node := objects[item];
        if node !in nodes || nodes[node].item != item {
          return Err(InvariantViolation);
        }
        if node != ROOT {
          var count := CheckedNext(nodes[node].lookups);
          if count.None? {
            return Err(LookupCountExhausted(node));
          }
          nodes := nodes[node := nodes[node].(lookups := count.value)];
        }
        BindingNode(old(History()), node);
        bound, given := bound[node := item], Tally(given, node, 1);
        return Ok(nodes[node]);
      }
      r := AllocateNode(item);
    }

    /** Accepted exactly within the references held; the last one makes the node stale for good. */
    method ForgetNode(node: NodeId, count: u64) returns (r: Result<ForgetOutcome, NodeError>)
      requires Valid() && count > 0
      modifies this
      ensures (Value(), r) == Forget(old(Value()), node, count)
      ensures History() == Step(old(History()), Drop(node, count)) && Valid() && Later(old(History()), History())
      ensures r.Ok? <==> node != ROOT && node in old(nodes) && count <= old(nodes)[node].lookups
      ensures r.Ok? ==> (Resolve(Value(), node).Err? <==> count == old(nodes)[node].lookups)
      ensures r.Err? ==> History() == old(History()) && r.error != InvariantViolation
    {
      hide MountValid, Later;
      DropValid(History(), node, count);
      ForgetMeans(History(), node, count);
      StepLater(History(), Drop(node, count));
      RejectedUnchanged(History(), [], node, count);
      if node == ROOT {
        return Err(CannotForgetRoot);
      }
      if node !in nodes {
        return Err(UnknownNode(node));
      }
      var binding := nodes[node];
      if count > binding.lookups {
        return Err(ForgetCountExceedsLookupCount(node, count, binding.lookups));
      }
      if binding.item !in objects || objects[binding.item] != node {
        return Err(InvariantViolation);
      }
      returned := Tally(returned, node, count);
      if count == binding.lookups {
        nodes := nodes - {node};
        objects := objects - {binding.item};
        return Ok(Removed(binding.item));
      }
      nodes := nodes[node := binding.(lookups := binding.lookups - count)];
      r := Ok(Retained(nodes[node]));
    }
  }

  lemma NextUnused(m: Mount)
    requires MountValid(m)
    ensures m.table.next.Some? ==> m.table.next.value != 0 && m.table.next.value !in m.table.nodes && m.table.next.value !in m.bound
  {
    hide Counted, Inverse;
  }

  lemma BindingNode(m: Mount, node: NodeId)
    requires MountValid(m) && node in m.table.nodes
    ensures m.table.nodes[node].node == node
  {
    hide Counted;
  }
}
