/** The registry of expected inodes and its staged renames (`backing.rs`). */
module Moves {
  import opened Bytes
  import opened Patterns
  import opened Path

  type Ino = u64
  type Registry = map<Segments, Ino>

  datatype Move = Move(source: Segments, destination: Segments, inode: Ino)

  datatype IdentityError = Mismatch(path: Segments, expected: Ino, actual: Ino) | Missing(path: Segments)

  /** Why one move cannot be staged over the registry as it stands. */
  function MoveFault(m: Registry, v: Move): Option<IdentityError> {
    if v.source !in m then Some(Missing(v.source))
    else if m[v.source] != v.inode then Some(Mismatch(v.source, m[v.source], v.inode))
    else if v.destination in m && m[v.destination] != v.inode then Some(Mismatch(v.destination, m[v.destination], v.inode))
    else None
  }

  /** The first fault of a batch, every move being checked against the unchanged registry. */
  function FirstFault(m: Registry, moves: seq<Move>): Option<IdentityError> {
    if moves == [] then None
    else
      var n := |moves| - 1;
      var earlier := FirstFault(m, moves[..n]);
      if earlier.Some? then earlier else MoveFault(m, moves[n])
  }

  /** The renames themselves, in order. */
  function Shift(m: Registry, moves: seq<Move>): Registry {
    if moves == [] then m
    else
      var v := moves[|moves| - 1];
      (Shift(m, moves[..|moves| - 1]) - {v.source})[v.destination := v.inode]
  }

  function Stage(m: Registry, moves: seq<Move>): (Registry, Option<IdentityError>) {
    var fault := FirstFault(m, moves);
    if fault.Some? then (m, fault) else (Shift(m, moves), None)
  }

  /** The first half of the rollback; `None` is the panic on a lost or changed destination. */
  function TakeBack(m: Registry, moves: seq<Move>): Option<Registry> {
    if moves == [] then Some(m)
    else
      var v := moves[|moves| - 1];
      match TakeBack(m, moves[..|moves| - 1])
      case None => None
      case Some(r) => if v.destination in r && r[v.destination] == v.inode then Some(r - {v.destination}) else None
  }

  /** The second half; `None` is the panic on a source taken by another inode. */
  function PutBack(m: Registry, moves: seq<Move>): Option<Registry> {
    if moves == [] then Some(m)
    else
      var v := moves[|moves| - 1];
      match PutBack(m, moves[..|moves| - 1])
      case None => None
      case Some(r) => if v.source in r && r[v.source] != v.inode then None else Some(r[v.source := v.inode])
  }

  function Restore(m: Registry, moves: seq<Move>): Option<Registry> {
    match TakeBack(m, moves)
    case None => None
    case Some(r) => PutBack(r, moves)
  }

  // ----- the round trip ----------------------------------------------------

  predicate DistinctDestinations(moves: seq<Move>) {
    forall i, j :: 0 <= i < j < |moves| ==> moves[i].destination != moves[j].destination
  }

  predicate FreshDestinations(m: Registry, moves: seq<Move>) {
    forall i :: 0 <= i < |moves| ==> moves[i].destination !in m
  }

  /** No move starts where an earlier move of the batch has arrived. */
  predicate Unchained(moves: seq<Move>) {
    forall i, j :: 0 <= i < j < |moves| ==> moves[j].source != moves[i].destination
  }

  /** A destination that is already registered is itself moved away by the batch. */
  predicate Vacated(m: Registry, moves: seq<Move>) {
    forall i :: 0 <= i < |moves| && moves[i].destination in m ==> moves[i].destination in Sources(moves)
  }

  /** Every move starts from a registered path with the inode it claims. */
  predicate Sourced(m: Registry, moves: seq<Move>) {
    forall i :: 0 <= i < |moves| ==> moves[i].source in m && m[moves[i].source] == moves[i].inode
  }

  function Sources(moves: seq<Move>): set<Segments> {
    set i | 0 <= i < |moves| :: moves[i].source
  }

  function Destinations(moves: seq<Move>): set<Segments> {
    set i | 0 <= i < |moves| :: moves[i].destination
  }

  /** Where the moved paths are once staged. */
  function Arrivals(moves: seq<Move>): (r: Registry)
    ensures r.Keys == Destinations(moves)
  {
    if moves == [] then map[]
    else
      var v := moves[|moves| - 1];
      DestinationsSnoc(moves[..|moves| - 1], v);
      assert moves == moves[..|moves| - 1] + [v];
      Arrivals(moves[..|moves| - 1])[v.destination := v.inode]
  }

  lemma DestinationsSnoc(front: seq<Move>, v: Move)
    ensures Destinations(front + [v]) == Destinations(front) + {v.destination}
    ensures Sources(front + [v]) == Sources(front) + {v.source}
  {
    var all := front + [v];
    assert all[|front|] == v;
    forall i | 0 <= i < |front| ensures all[i] == front[i] {
    }
    forall p | p in Destinations(front) ensures p in Destinations(all) {
      var i :| 0 <= i < |front| && front[i].destination == p;
      assert all[i].destination == p;
    }
    forall p | p in Sources(front) ensures p in Sources(all) {
      var i :| 0 <= i < |front| && front[i].source == p;
      assert all[i].source == p;
    }
  }

  lemma {:induction false} FaultFree(m: Registry, moves: seq<Move>)
    ensures FirstFault(m, moves).None? <==> forall i :: 0 <= i < |moves| ==> MoveFault(m, moves[i]).None?
  {
    hide MoveFault;
    if moves != [] {
      var n := |moves| - 1;
      FaultFree(m, moves[..n]);
      forall i | 0 <= i < n ensures moves[..n][i] == moves[i] {
      }
    }
  }

  lemma OneMove(m: Registry, gone: set<Segments>, arrived: Registry, v: Move)
    requires v.source !in arrived
    ensures ((m - gone) + arrived - {v.source})[v.destination := v.inode] == (m - (gone + {v.source})) + arrived[v.destination := v.inode]
  {
  }

  lemma Undone(m: Registry, gone: set<Segments>, arrived: Registry)
    ensures (m - gone + arrived) - arrived.Keys == (m - arrived.Keys) - gone
  {
  }

  /** Staging moves exactly the named paths and leaves every other entry. */
  lemma {:induction false} ShiftExact(m: Registry, moves: seq<Move>)
    requires Unchained(moves)
    ensures Shift(m, moves) == (m - Sources(moves)) + Arrivals(moves)
    decreases |moves|
  {
    if moves == [] {
      assert Sources(moves) == {};
    } else {
      var n := |moves| - 1;
      var front, v := moves[..n], moves[n];
      assert moves == front + [v];
      DestinationsSnoc(front, v);
      ShiftExact(m, front);
      assert v.source !in Destinations(front);
      OneMove(m, Sources(front), Arrivals(front), v);
    }
  }

  lemma {:induction false} ArrivalOf(moves: seq<Move>, k: nat)
    requires DistinctDestinations(moves) && k < |moves|
    ensures moves[k].destination in Arrivals(moves) && Arrivals(moves)[moves[k].destination] == moves[k].inode
    decreases |moves|
  {
    var n := |moves| - 1;
    if k < n {
      ArrivalOf(moves[..n], k);
      assert moves[..n][k] == moves[k];
    }
  }

  lemma {:induction false} TakeBackExact(full: Registry, moves: seq<Move>, k: nat)
    requires DistinctDestinations(moves) && k <= |moves|
    requires forall i :: 0 <= i < |moves| ==> moves[i].destination in full && full[moves[i].destination] == moves[i].inode
    ensures TakeBack(full, moves[..k]) == Some(full - Destinations(moves[..k]))
    decreases k
  {
    if k == 0 {
      assert full - Destinations(moves[..0]) == full;
    } else {
      var v := moves[k - 1];
      assert v.destination !in Destinations(moves[..k - 1]);
      hide Destinations;
      assert moves[..k][..k - 1] == moves[..k - 1];
      assert moves[..k] == moves[..k - 1] + [v];
      TakeBackExact(full, moves, k - 1);
      DestinationsSnoc(moves[..k - 1], v);
      assert full - Destinations(moves[..k - 1]) - {v.destination} == full - Destinations(moves[..k]);
    }
  }

  lemma {:induction false} PutBackExact(m: Registry, moves: seq<Move>, k: nat)
    requires Sourced(m, moves) && k <= |moves|
    ensures PutBack(m - Sources(moves), moves[..k]) == Some(m - (Sources(moves) - Sources(moves[..k])))
    decreases k
  {
    if k == 0 {
      assert m - (Sources(moves) - Sources(moves[..0])) == m - Sources(moves);
    } else {
      var v := moves[k - 1];
      assert v.source in Sources(moves);
      hide Sources;
      assert moves[..k][..k - 1] == moves[..k - 1];
      assert moves[..k] == moves[..k - 1] + [v];
      PutBackExact(m, moves, k - 1);
      DestinationsSnoc(moves[..k - 1], v);
      assert (m - (Sources(moves) - Sources(moves[..k - 1])))[v.source := v.inode] == m - (Sources(moves) - Sources(moves[..k]));
    }
  }

  /** The first half of a rollback only takes away, and wants each destination once and with its inode. */
  lemma {:induction false} TakeBackNeeds(m: Registry, moves: seq<Move>)
    requires TakeBack(m, moves).Some?
    ensures forall p :: p in TakeBack(m, moves).value ==> p in m && TakeBack(m, moves).value[p] == m[p] && p !in Destinations(moves)
    ensures forall i :: 0 <= i < |moves| ==> moves[i].destination in m && m[moves[i].destination] == moves[i].inode
    ensures DistinctDestinations(moves)
    decreases |moves|
  {
    if moves != [] {
      var n := |moves| - 1;
      var front, v := moves[..n], moves[n];
      TakeBackNeeds(m, front);
      assert moves == front + [v];
      DestinationsSnoc(front, v);
      forall i | 0 <= i < n ensures moves[i] == front[i] && moves[i].destination != v.destination {
        assert front[i].destination in Destinations(front);
      }
    }
  }

  /** A path left by a later move than the one that reached it is gone once all moves are made. */
  lemma {:induction false} ShiftLoses(m: Registry, moves: seq<Move>, i: nat, j: nat, n: nat)
    requires DistinctDestinations(moves) && i < j < n <= |moves| && moves[j].source == moves[i].destination
    ensures moves[i].destination !in Shift(m, moves[..n])
    decreases n
  {
    assert moves[..n][..n - 1] == moves[..n - 1];
    if n > j + 1 {
      ShiftLoses(m, moves, i, j, n - 1);
    }
  }

  /** Rolling back an unchained batch gives the registry without what its destinations held and it did not move away. */
  lemma StageRollsBack(m: Registry, moves: seq<Move>)
    requires Stage(m, moves).1.None? && DistinctDestinations(moves) && Unchained(moves)
    ensures Restore(Stage(m, moves).0, moves) == Some(m - (Destinations(moves) - Sources(moves)))
  {
    FaultFree(m, moves);
    assert Sourced(m, moves);
    SourcesKept(m, moves);
    hide Shift, TakeBack, PutBack, FirstFault, Sources, Destinations, Arrivals;
    ShiftExact(m, moves);
    var full := m - Sources(moves) + Arrivals(moves);
    assert moves[..|moves|] == moves;
    forall i | 0 <= i < |moves|
      ensures moves[i].destination in full && full[moves[i].destination] == moves[i].inode
    {
      ArrivalOf(moves, i);
    }
    TakeBackExact(full, moves, |moves|);
    var left := m - (Destinations(moves) - Sources(moves));
    Undone(m, Sources(moves), Arrivals(moves));
    Regrouped(m, Sources(moves), Destinations(moves));
    PutBackExact(left, moves, |moves|);
    assert left - (Sources(moves) - Sources(moves)) == left;
  }

  lemma Regrouped(m: Registry, sources: set<Segments>, destinations: set<Segments>)
    ensures (m - destinations) - sources == (m - (destinations - sources)) - sources
  {
  }

  lemma SourcesKept(m: Registry, moves: seq<Move>)
    requires Sourced(m, moves)
    ensures Sourced(m - (Destinations(moves) - Sources(moves)), moves)
  {
    forall i | 0 <= i < |moves| ensures moves[i].source in Sources(moves) {
    }
  }

  /** Two moves to one destination, or a move from where an earlier one arrived, make the rollback panic. */
  lemma RollbackPanics(m: Registry, moves: seq<Move>)
    requires Stage(m, moves).1.None? && !(DistinctDestinations(moves) && Unchained(moves))
    ensures Restore(Stage(m, moves).0, moves).None?
  {
    hide Shift, PutBack, FirstFault;
    var staged := Shift(m, moves);
    assert moves[..|moves|] == moves;
    if TakeBack(staged, moves).Some? {
      TakeBackNeeds(staged, moves);
      var i, j :| 0 <= i < j < |moves| && moves[j].source == moves[i].destination;
      ShiftLoses(m, moves, i, j, |moves|);
    }
  }

  /**
   A refused batch changes nothing. A staged batch is undone exactly if and
   only if its destinations are pairwise distinct, no move starts where an
   earlier one arrived, and every destination that was already registered is
   moved away by the batch itself.
   */
  lemma StageRestores(m: Registry, moves: seq<Move>)
    ensures Stage(m, moves).1.Some? ==> Stage(m, moves).0 == m
    ensures Stage(m, moves).1.None? ==>
              (Restore(Stage(m, moves).0, moves) == Some(m) <==>
               DistinctDestinations(moves) && Unchained(moves) && Vacated(m, moves))
  {
    hide Shift, Restore, FirstFault, DistinctDestinations, Unchained;
    if Stage(m, moves).1.None? {
      if DistinctDestinations(moves) && Unchained(moves) {
        StageRollsBack(m, moves);
        NothingLost(m, moves);
      } else {
        RollbackPanics(m, moves);
      }
    }
  }

  lemma NothingLost(m: Registry, moves: seq<Move>)
    ensures m - (Destinations(moves) - Sources(moves)) == m <==> Vacated(m, moves)
  {
    if !Vacated(m, moves) {
      var i :| 0 <= i < |moves| && moves[i].destination in m && moves[i].destination !in Sources(moves);
      assert moves[i].destination in Destinations(moves);
      assert moves[i].destination !in m - (Destinations(moves) - Sources(moves));
    } else {
      assert m.Keys !! (Destinations(moves) - Sources(moves));
    }
  }

  /** In the ordinary case, all destinations new, the condition is that they are distinct. */
  lemma FreshRestores(m: Registry, moves: seq<Move>)
    requires Stage(m, moves).1.None? && FreshDestinations(m, moves)
    ensures Restore(Stage(m, moves).0, moves) == Some(m) <==> DistinctDestinations(moves)
  {
    hide Shift, Restore;
    FaultFree(m, moves);
    assert Sourced(m, moves);
    StageRestores(m, moves);
  }

  // ----- batches that are not undone ---------------------------------------

  /** Renaming onto another registered name of the same inode stages, and its rollback loses that name. */
  lemma RollbackLosesALink(a: Segments, b: Segments, inode: Ino)
    requires a != b
    ensures var m: Registry, moves := map[a := inode, b := inode], [Move(a, b, inode)];
            Stage(m, moves).1.None? && Restore(Stage(m, moves).0, moves) == Some(map[a := inode])
  {
    var m: Registry := map[a := inode, b := inode];
    var v := Move(a, b, inode);
    assert [v][..0] == [];
    assert FirstFault(m, [v]) == MoveFault(m, v);
    var staged: Registry := map[b := inode];
    assert Shift(m, [v]) == (m - {a})[b := inode] == staged;
    assert TakeBack(staged, [v]) == Some(staged - {b});
    assert staged - {b} == map[];
    assert PutBack(map[], [v]) == Some(map[a := inode]);
  }

  lemma StagesTwo(m: Registry, v: Move, w: Move)
    requires MoveFault(m, v).None? && MoveFault(m, w).None?
    ensures Stage(m, [v, w]).1.None?
  {
    FaultFree(m, [v, w]);
  }

  /** Two links of one inode moved to one new name stage, and their rollback panics. */
  lemma RollbackPanicsOnShared(a: Segments, b: Segments, c: Segments, inode: Ino)
    requires a != b && a != c && b != c
    ensures var m: Registry, moves := map[a := inode, b := inode], [Move(a, c, inode), Move(b, c, inode)];
            Stage(m, moves).1.None? && FreshDestinations(m, moves) && Restore(Stage(m, moves).0, moves).None?
  {
    hide Restore, Shift, FirstFault;
    var m: Registry := map[a := inode, b := inode];
    var moves := [Move(a, c, inode), Move(b, c, inode)];
    StagesTwo(m, moves[0], moves[1]);
    assert moves[0].destination == moves[1].destination;
    RollbackPanics(m, moves);
  }

  /** A registered destination does no harm when the batch has already moved it away. */
  lemma ChainRestores(a: Segments, b: Segments, c: Segments, inode: Ino)
    requires a != b && a != c && b != c
    ensures var m: Registry, moves := map[a := inode, b := inode], [Move(b, c, inode), Move(a, b, inode)];
            Stage(m, moves).1.None? && !FreshDestinations(m, moves) && Restore(Stage(m, moves).0, moves) == Some(m)
  {
    hide Restore, Shift, FirstFault;
    var m: Registry := map[a := inode, b := inode];
    var moves := [Move(b, c, inode), Move(a, b, inode)];
    StagesTwo(m, moves[0], moves[1]);
    assert moves[0].source in Sources(moves);
    assert moves[1].destination in m;
    StageRestores(m, moves);
  }

  // ----- renaming a subtree ------------------------------------------------

  /** The moves of one directory rename: each registered path below `source`, once, rebased. */
  predicate Rebases(m: Registry, source: Segments, destination: Segments, moves: seq<Move>) {
    && (forall i, j :: 0 <= i < j < |moves| ==> moves[i].source != moves[j].source)
    && forall i :: 0 <= i < |moves| ==>
         && ValidPath(moves[i].source) && moves[i].source in m && m[moves[i].source] == moves[i].inode
         && Rebase(moves[i].source, source, destination) == Some(moves[i].destination)
  }

  /** A subtree rename never maps two paths to one. */
  lemma RebasedDistinct(m: Registry, source: Segments, destination: Segments, moves: seq<Move>)
    requires ValidPath(source) && ValidPath(destination) && Rebases(m, source, destination, moves)
    ensures DistinctDestinations(moves)
  {
    hide ValidPath;
    forall i, j | 0 <= i < j < |moves| ensures moves[i].destination != moves[j].destination {
      if moves[i].destination == moves[j].destination {
        RebaseInjective(moves[i].source, moves[j].source, source, destination);
      }
    }
  }

  /** Neither directory lies inside the other, as a rename of a directory requires. */
  predicate Apart(source: Segments, destination: Segments) {
    !(source <= destination) && !(destination <= source)
  }

  /** The paths a subtree rename leaves are never those it reaches. */
  lemma RebasedApart(m: Registry, source: Segments, destination: Segments, moves: seq<Move>)
    requires ValidPath(source) && ValidPath(destination) && Rebases(m, source, destination, moves) && Apart(source, destination)
    ensures Sources(moves) !! Destinations(moves)
  {
    hide ValidPath;
    forall i, j | 0 <= i < |moves| && 0 <= j < |moves| ensures moves[i].source != moves[j].destination {
      RebaseExact(moves[j].source, source, destination);
      RebaseExact(moves[i].source, source, destination);
      Comparable(source, destination, moves[i].source);
    }
  }

  lemma Comparable(a: Segments, b: Segments, p: Segments)
    ensures a <= p && b <= p ==> a <= b || b <= a
  {
    if a <= p && b <= p {
      assert a == p[..|a|] && b == p[..|b|];
      if |a| <= |b| {
        assert p[..|b|][..|a|] == p[..|a|];
      } else {
        assert p[..|a|][..|b|] == p[..|b|];
      }
    }
  }

  /**
   A subtree rename between directories apart from each other is undone
   exactly if and only if none of its destinations was registered; when
   nothing is registered at or below the new name it also always stages.
   */
  lemma RebasedSubtree(m: Registry, source: Segments, destination: Segments, moves: seq<Move>)
    requires ValidPath(source) && ValidPath(destination) && Rebases(m, source, destination, moves)
    ensures Apart(source, destination) && Stage(m, moves).1.None? ==>
              (Restore(Stage(m, moves).0, moves) == Some(m) <==> FreshDestinations(m, moves))
    ensures (forall p :: p in m ==> !(destination <= p)) ==>
              Stage(m, moves).1.None? && Restore(Stage(m, moves).0, moves) == Some(m)
  {
    RebasedDistinct(m, source, destination, moves);
    hide ValidPath, Stage, Restore;
    if Apart(source, destination) && Stage(m, moves).1.None? {
      RebasedApart(m, source, destination, moves);
      StageRestores(m, moves);
      ApartExact(m, moves);
    }
    if forall p :: p in m ==> !(destination <= p) {
      forall i | 0 <= i < |moves| ensures moves[i].destination !in m && MoveFault(m, moves[i]).None? {
        RebaseExact(moves[i].source, source, destination);
        assert destination <= moves[i].destination;
      }
      FaultFree(m, moves);
      Staged(m, moves);
      FreshRestores(m, moves);
    }
  }

  lemma ApartExact(m: Registry, moves: seq<Move>)
    requires Sources(moves) !! Destinations(moves)
    ensures Unchained(moves)
    ensures Vacated(m, moves) <==> FreshDestinations(m, moves)
  {
    forall i | 0 <= i < |moves| ensures moves[i].source in Sources(moves) && moves[i].destination in Destinations(moves) {
    }
  }

  lemma Staged(m: Registry, moves: seq<Move>)
    requires FirstFault(m, moves).None?
    ensures Stage(m, moves).1.None?
  {
  }

  // ----- what the rollback needs -------------------------------------------

  /** Every destination is registered with the inode that moved there. */
  predicate Arrived(m: Registry, moves: seq<Move>) {
    forall i :: 0 <= i < |moves| ==> moves[i].destination in m && m[moves[i].destination] == moves[i].inode
  }

  /** No source is taken by another inode, in the registry or by the batch itself. */
  predicate SourcesFree(m: Registry, moves: seq<Move>) {
    && (forall i :: 0 <= i < |moves| && moves[i].source in m ==> m[moves[i].source] == moves[i].inode)
    && (forall i, j :: 0 <= i < j < |moves| && moves[i].source == moves[j].source ==> moves[i].inode == moves[j].inode)
  }

  lemma TakeBackMeans(m: Registry, moves: seq<Move>)
    ensures TakeBack(m, moves).Some? <==> DistinctDestinations(moves) && Arrived(m, moves)
    ensures TakeBack(m, moves).Some? ==> TakeBack(m, moves).value == m - Destinations(moves)
  {
    hide TakeBack, Destinations;
    assert moves[..|moves|] == moves;
    if TakeBack(m, moves).Some? {
      TakeBackNeeds(m, moves);
    }
    if DistinctDestinations(moves) && Arrived(m, moves) {
      TakeBackExact(m, moves, |moves|);
    }
  }

  /** The sources of the batch with their inodes. */
  predicate PutIn(m: Registry, moves: seq<Move>, r: Registry) {
    && r.Keys == m.Keys + Sources(moves)
    && (forall p :: p in m && p !in Sources(moves) ==> p in r && r[p] == m[p])
    && (forall i :: 0 <= i < |moves| ==> moves[i].source in r && r[moves[i].source] == moves[i].inode)
  }

  lemma {:induction false} PutBackMeans(m: Registry, moves: seq<Move>)
    ensures PutBack(m, moves).Some? <==> SourcesFree(m, moves)
    ensures PutBack(m, moves).Some? ==> PutIn(m, moves, PutBack(m, moves).value)
    decreases |moves|
  {
    if moves != [] {
      var n := |moves| - 1;
      var front, v := moves[..n], moves[n];
      assert moves == front + [v];
      PutBackMeans(m, front);
      DestinationsSnoc(front, v);
      forall i | 0 <= i < n ensures front[i] == moves[i] && front[i].source in Sources(front) {
      }
      assert SourcesFree(m, moves) ==> SourcesFree(m, front);
      if PutBack(m, front).Some? {
        var r := PutBack(m, front).value;
        PutOneFree(m, front, v, r);
        if v.source in r ==> r[v.source] == v.inode {
          PutOneIn(m, front, v, r);
        }
      }
    }
  }

  lemma SourceOf(moves: seq<Move>, p: Segments)
    ensures p in Sources(moves) <==> exists i :: 0 <= i < |moves| && moves[i].source == p
  {
  }

  lemma PutOneFree(m: Registry, front: seq<Move>, v: Move, r: Registry)
    requires SourcesFree(m, front) && PutIn(m, front, r)
    ensures SourcesFree(m, front + [v]) <==> (v.source in r ==> r[v.source] == v.inode)
  {
    var all := front + [v];
    SourceOf(front, v.source);
    hide Sources;
    assert all[|front|] == v;
    forall i | 0 <= i < |front| ensures all[i] == front[i] {
    }
    if v.source in Sources(front) {
      var i :| 0 <= i < |front| && front[i].source == v.source;
      assert r[v.source] == front[i].inode;
      assert SourcesFree(m, all) ==> all[i].inode == all[|front|].inode;
    }
  }

  lemma PutOneIn(m: Registry, front: seq<Move>, v: Move, r: Registry)
    requires PutIn(m, front, r) && (v.source in r ==> r[v.source] == v.inode)
    ensures PutIn(m, front + [v], r[v.source := v.inode])
  {
    var all, more := front + [v], r[v.source := v.inode];
    DestinationsSnoc(front, v);
    hide Sources;
    forall i | 0 <= i < |all| ensures all[i].source in more && more[all[i].source] == all[i].inode {
      if i < |front| {
        assert all[i] == front[i];
      }
    }
    assert more.Keys == r.Keys + {v.source};
  }

  /**
   On any registry the rollback panics unless the destinations are distinct
   and registered with their inodes, and then no source is taken by another
   inode; otherwise the destinations are gone and the sources back.
   */
  lemma RestoreExact(m: Registry, moves: seq<Move>)
    ensures Restore(m, moves).Some? <==>
            DistinctDestinations(moves) && Arrived(m, moves) && SourcesFree(m - Destinations(moves), moves)
    ensures Restore(m, moves).Some? ==> PutIn(m - Destinations(moves), moves, Restore(m, moves).value)
  {
    hide TakeBack, PutBack, SourcesFree, Arrived, PutIn;
    TakeBackMeans(m, moves);
    PutBackMeans(m - Destinations(moves), moves);
  }

  /** The move starts from a path registered with its inode and does not run into another inode. */
  predicate Movable(m: Registry, v: Move) {
    && v.source in m && m[v.source] == v.inode
    && (v.destination in m ==> m[v.destination] == v.inode)
  }

  /** Why a move is not: its source first, then its destination. */
  predicate Blames(m: Registry, v: Move, e: IdentityError) {
    if v.source !in m then e == Missing(v.source)
    else if m[v.source] != v.inode then e == Mismatch(v.source, m[v.source], v.inode)
    else v.destination in m && m[v.destination] != v.inode && e == Mismatch(v.destination, m[v.destination], v.inode)
  }

  /** A batch stages exactly when every move can be made from the registry as it stands; otherwise the first that cannot is blamed. */
  lemma {:induction false} StageAccepts(m: Registry, moves: seq<Move>)
    ensures Stage(m, moves).1.None? <==> forall i :: 0 <= i < |moves| ==> Movable(m, moves[i])
    ensures Stage(m, moves).1.Some? ==>
              && Stage(m, moves).0 == m
              && exists k :: 0 <= k < |moves| && Blames(m, moves[k], Stage(m, moves).1.value) && forall i :: 0 <= i < k ==> Movable(m, moves[i])
    decreases |moves|
  {
    hide Shift;
    if moves != [] {
      var n := |moves| - 1;
      var front := moves[..n];
      StageAccepts(m, front);
      forall i | 0 <= i < n ensures front[i] == moves[i] {
      }
      if Stage(m, front).1.Some? {
        var e := Stage(m, front).1.value;
        var k :| 0 <= k < n && Blames(m, front[k], e) && forall i :: 0 <= i < k ==> Movable(m, front[i]);
        assert Blames(m, moves[k], e);
      } else if MoveFault(m, moves[n]).Some? {
        assert Blames(m, moves[n], MoveFault(m, moves[n]).value);
      }
    }
  }

  // ----- the registry ------------------------------------------------------

  class PathRegistry {
    var paths: Registry

    /** `stage_path_moves`: a checking pass, then a moving pass. */
    method StagePathMoves(moves: seq<Move>) returns (error: Option<IdentityError>)
      modifies this
      ensures (paths, error) == Stage(old(paths), moves)
    {
      hide MoveFault;
      for k := 0 to |moves|
        invariant paths == old(paths) && FirstFault(paths, moves[..k]).None?
      {
        assert moves[..k + 1][..k] == moves[..k];
        error := MoveFault(paths, moves[k]);
        if error.Some? {
          FaultPrefix(paths, moves, k + 1);
          return;
        }
      }
      assert moves[..|moves|] == moves;
      for k := 0 to |moves|
        invariant paths == Shift(old(paths), moves[..k])
      {
        assert moves[..k + 1][..k] == moves[..k];
        paths := paths - {moves[k].source};
        paths := paths[moves[k].destination := moves[k].inode];
      }
      error := None;
    }

    /** `restore_path_moves`; `false` where the source panics. */
    method RestorePathMoves(moves: seq<Move>) returns (ok: bool)
      modifies this
      ensures ok <==> Restore(old(paths), moves).Some?
      ensures ok ==> Some(paths) == Restore(old(paths), moves)
    {
      for k := 0 to |moves|
        invariant TakeBack(old(paths), moves[..k]) == Some(paths)
      {
        assert moves[..k + 1][..k] == moves[..k];
        var v := moves[k];
        if v.destination !in paths || paths[v.destination] != v.inode {
          TakeBackFails(old(paths), moves, k + 1);
          return false;
        }
        paths := paths - {v.destination};
      }
      assert moves[..|moves|] == moves;
      ghost var taken := paths;
      for k := 0 to |moves|
        invariant PutBack(taken, moves[..k]) == Some(paths)
      {
        assert moves[..k + 1][..k] == moves[..k];
        var v := moves[k];
        if v.source in paths && paths[v.source] != v.inode {
          PutBackFails(taken, moves, k + 1);
          return false;
        }
        paths := paths[v.source := v.inode];
      }
      ok := true;
    }
  }

  lemma {:induction false} FaultPrefix(m: Registry, moves: seq<Move>, k: nat)
    requires k <= |moves| && FirstFault(m, moves[..k]).Some?
    ensures FirstFault(m, moves) == FirstFault(m, moves[..k])
    decreases |moves| - k
  {
    if k < |moves| {
      assert moves[..k + 1][..k] == moves[..k];
      FaultPrefix(m, moves, k + 1);
    } else {
      assert moves[..k] == moves;
    }
  }

  lemma {:induction false} TakeBackFails(m: Registry, moves: seq<Move>, k: nat)
    requires k <= |moves| && TakeBack(m, moves[..k]).None?
    ensures TakeBack(m, moves).None?
    decreases |moves| - k
  {
    if k < |moves| {
      assert moves[..k + 1][..k] == moves[..k];
      TakeBackFails(m, moves, k + 1);
    } else {
      assert moves[..k] == moves;
    }
  }

  lemma {:induction false} PutBackFails(m: Registry, moves: seq<Move>, k: nat)
    requires k <= |moves| && PutBack(m, moves[..k]).None?
    ensures PutBack(m, moves).None?
    decreases |moves| - k
  {
    if k < |moves| {
      assert moves[..k + 1][..k] == moves[..k];
      PutBackFails(m, moves, k + 1);
    } else {
      assert moves[..k] == moves;
    }
  }
}
