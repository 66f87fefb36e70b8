/**
 Hard-link repair during repository preflight (`backing.rs`). The file
 system is a map of repository names to inodes, a map of names outside the
 repository to inodes, and the contents of each inode.
 */
module Backing {
  import opened Bytes
  import opened Order
  import opened Patterns

  type Ino = u64
  type Outer = nat

  datatype Content = Regular(bytes: Str) | Symlink(target: Str) | Directory

  datatype Spec = RegularFile | SymlinkTo(target: Str) | DirectorySpec

  /** One line of the repository manifest. */
  datatype Entry = Entry(path: Segments, spec: Spec, inode: Ino)

  function SpecOf(c: Content): Spec {
    match c
    case Regular(_) => RegularFile
    case Symlink(target) => SymlinkTo(target)
    case Directory => DirectorySpec
  }

  function Names<K>(names: map<K, Ino>, i: Ino): set<K> {
    set k | k in names && names[k] == i
  }

  /** The link count the kernel keeps for an inode that is not a directory. */
  function LinkCount(inside: map<Segments, Ino>, outside: map<Outer, Ino>, i: Ino): nat {
    |Names(inside, i)| + |Names(outside, i)|
  }

  // ----- the manifest ------------------------------------------------------

  predicate Distinct(entries: seq<Entry>) {
    forall j, k :: 0 <= j < k < |entries| ==> entries[j].path != entries[k].path
  }

  /** Each line names a repository path with the inode and kind it has. */
  predicate Lists(inside: map<Segments, Ino>, contents: map<Ino, Content>, entries: seq<Entry>) {
    forall k :: 0 <= k < |entries| ==>
      && entries[k].path in inside && entries[k].inode == inside[entries[k].path]
      && entries[k].inode in contents && entries[k].spec == SpecOf(contents[entries[k].inode])
  }

  predicate Covers(inside: map<Segments, Ino>, entries: seq<Entry>) {
    forall p :: p in inside ==> exists k :: 0 <= k < |entries| && entries[k].path == p
  }

  /** What a scan of an unchanging tree returns. */
  predicate ScanOf(inside: map<Segments, Ino>, outside: map<Outer, Ino>, contents: map<Ino, Content>, entries: seq<Entry>, counts: map<Ino, nat>) {
    && Distinct(entries) && Lists(inside, contents, entries) && Covers(inside, entries)
    && (forall i :: i in counts ==> counts[i] == LinkCount(inside, outside, i))
    && (forall k :: 0 <= k < |entries| && entries[k].spec != DirectorySpec ==> entries[k].inode in counts)
  }

  /** How many lines, directories aside, name inode `i`. */
  function NameCount(entries: seq<Entry>, i: Ino): nat {
    if entries == [] then 0
    else
      var last := entries[|entries| - 1];
      NameCount(entries[..|entries| - 1], i) + if last.spec != DirectorySpec && last.inode == i then 1 else 0
  }

  function PathsOf(entries: seq<Entry>, i: Ino): set<Segments> {
    set k | 0 <= k < |entries| && entries[k].spec != DirectorySpec && entries[k].inode == i :: entries[k].path
  }

  lemma {:induction false} NameCountIsCard(entries: seq<Entry>, i: Ino)
    requires Distinct(entries)
    ensures NameCount(entries, i) == |PathsOf(entries, i)|
    decreases |entries|
  {
    if entries != [] {
      var front, last := entries[..|entries| - 1], entries[|entries| - 1];
      assert last.path !in PathsOf(front, i);
      hide PathsOf;
      assert entries == front + [last];
      NameCountIsCard(front, i);
      PathsOfSnoc(front, last, i);
    }
  }

  lemma PathsOfSnoc(front: seq<Entry>, last: Entry, i: Ino)
    ensures PathsOf(front + [last], i)
         == PathsOf(front, i) + if last.spec != DirectorySpec && last.inode == i then {last.path} else {}
  {
    var all := front + [last];
    forall p | p in PathsOf(front, i) ensures p in PathsOf(all, i) {
      var k :| 0 <= k < |front| && front[k].spec != DirectorySpec && front[k].inode == i && front[k].path == p;
      assert all[k] == front[k];
    }
    if last.spec != DirectorySpec && last.inode == i {
      assert all[|front|] == last;
    }
    forall p | p in PathsOf(all, i) ensures p in PathsOf(front, i) || (last.spec != DirectorySpec && last.inode == i && p == last.path) {
      var k :| 0 <= k < |all| && all[k].spec != DirectorySpec && all[k].inode == i && all[k].path == p;
      assert k < |front| ==> all[k] == front[k];
    }
  }

  /** `external_alias_inodes`: the inodes whose link count is not their number of repository names. */
  method ExternalAliasInodes(entries: seq<Entry>, counts: map<Ino, nat>) returns (external: seq<Ino>)
    ensures Ascending(external)
    ensures forall i :: i in external <==> IsExternal(entries, counts, i)
  {
    var names: map<Ino, nat> := map[];
    for k := 0 to |entries|
      invariant forall i :: i in names <==> NameCount(entries[..k], i) > 0
      invariant forall i :: i in names ==> names[i] == NameCount(entries[..k], i)
    {
      var entry := entries[k];
      assert entries[..k + 1][..k] == entries[..k];
      if entry.spec != DirectorySpec {
        names := names[entry.inode := 1 + if entry.inode in names then names[entry.inode] else 0];
      }
    }
    assert entries[..|entries|] == entries;
    var hits := set i | i in names && i in counts && counts[i] != names[i];
    external := Sorted(hits);
  }

  predicate IsExternal(entries: seq<Entry>, counts: map<Ino, nat>, i: Ino) {
    NameCount(entries, i) > 0 && i in counts && counts[i] != NameCount(entries, i)
  }

  /** On a scanned tree those are exactly the non-directory inodes named on both sides of the boundary. */
  lemma ExternalExact(inside: map<Segments, Ino>, outside: map<Outer, Ino>, contents: map<Ino, Content>,
                      entries: seq<Entry>, counts: map<Ino, nat>, i: Ino)
    requires ScanOf(inside, outside, contents, entries, counts)
    ensures IsExternal(entries, counts, i) <==>
            && Names(inside, i) != {} && Names(outside, i) != {}
            && i in contents && contents[i] != Directory
  {
    NameCountIsCard(entries, i);
    if i in contents && contents[i] != Directory {
      AllNames(inside, contents, entries, i);
      if Names(inside, i) != {} {
        var p :| p in Names(inside, i);
        var k :| 0 <= k < |entries| && entries[k].path == p;
        assert entries[k].inode in counts;
      }
    }
  }

  /** The manifest lists every repository name of an inode that is not a directory. */
  lemma AllNames(inside: map<Segments, Ino>, contents: map<Ino, Content>, entries: seq<Entry>, i: Ino)
    requires Lists(inside, contents, entries) && Covers(inside, entries)
    requires i in contents && contents[i] != Directory
    ensures PathsOf(entries, i) == Names(inside, i)
  {
    forall p | p in Names(inside, i) ensures p in PathsOf(entries, i) {
      var k :| 0 <= k < |entries| && entries[k].path == p;
      assert entries[k].spec == SpecOf(contents[i]);
    }
  }

  /** `repository_names`. */
  function RepositoryNames(entries: seq<Entry>, i: Ino): (names: seq<Entry>)
    ensures forall e :: e in names <==> e in entries && e.inode == i && e.spec != DirectorySpec
  {
    if entries == [] then []
    else
      var last := entries[|entries| - 1];
      assert entries == entries[..|entries| - 1] + [last];
      RepositoryNames(entries[..|entries| - 1], i) + if last.inode == i && last.spec != DirectorySpec then [last] else []
  }

  // ----- rewiring ----------------------------------------------------------

  ghost predicate Extends<K, V>(a: map<K, V>, b: map<K, V>) {
    forall k :: k in a ==> k in b && b[k] == a[k]
  }

  /** Every name of the tree leads to an inode with contents. */
  predicate Named<K>(names: map<K, Ino>, contents: map<Ino, Content>) {
    forall k :: k in names ==> names[k] in contents
  }

  /** `copies` gives some old inodes a private copy, each its own. */
  ghost predicate Copies(prior: map<Ino, Content>, now: map<Ino, Content>, copies: map<Ino, Ino>) {
    && Extends(prior, now)
    && (forall i :: i in copies ==> i in prior && copies[i] !in prior && copies[i] in now && now[copies[i]] == prior[i])
    && (forall i, j :: i in copies && j in copies && copies[i] == copies[j] ==> i == j)
  }

  /** Each name keeps its inode or has moved to the copy; names of inodes in `done` have all moved. */
  predicate Rewired(before: map<Segments, Ino>, now: map<Segments, Ino>, copies: map<Ino, Ino>, done: set<Ino>) {
    && now.Keys == before.Keys
    && (forall p :: p in before ==> now[p] == before[p] || (before[p] in copies && now[p] == copies[before[p]]))
    && (forall p :: p in before && before[p] in done ==> before[p] in copies && now[p] == copies[before[p]])
  }

  /** Every repository name still reads the same. */
  predicate SameContents(before: map<Segments, Ino>, prior: map<Ino, Content>, now: map<Segments, Ino>, contents: map<Ino, Content>) {
    && now.Keys == before.Keys
    && forall p :: p in before && before[p] in prior ==> now[p] in contents && contents[now[p]] == prior[before[p]]
  }

  /** Names share an inode exactly when they did before. */
  predicate SameAliasing(before: map<Segments, Ino>, now: map<Segments, Ino>) {
    && now.Keys == before.Keys
    && forall p, q :: p in before && q in before ==> (now[p] == now[q] <==> before[p] == before[q])
  }

  predicate NoNewAliasing(before: map<Segments, Ino>, now: map<Segments, Ino>) {
    && now.Keys == before.Keys
    && forall p, q :: p in before && q in before && now[p] == now[q] ==> before[p] == before[q]
  }

  /** No inode but a directory answers to a name on each side. */
  predicate NoExternalAlias(inside: map<Segments, Ino>, outside: map<Outer, Ino>, contents: map<Ino, Content>) {
    forall p, o :: p in inside && o in outside && inside[p] == outside[o] ==> inside[p] in contents && contents[inside[p]] == Directory
  }

  /** However far a repair got, the repository reads the same and no two names were merged. */
  lemma RewiredHarmless(before: map<Segments, Ino>, prior: map<Ino, Content>, now: map<Segments, Ino>, contents: map<Ino, Content>,
                        copies: map<Ino, Ino>, done: set<Ino>)
    requires Named(before, prior) && Copies(prior, contents, copies) && Rewired(before, now, copies, done)
    ensures SameContents(before, prior, now, contents) && NoNewAliasing(before, now) && Named(now, contents)
  {
  }

  /** A finished repair keeps aliasing inside and leaves none across the boundary. */
  lemma RewiredRepairs(before: map<Segments, Ino>, outside: map<Outer, Ino>, prior: map<Ino, Content>,
                       now: map<Segments, Ino>, contents: map<Ino, Content>, copies: map<Ino, Ino>, done: set<Ino>)
    requires Named(before, prior) && Named(outside, prior) && Copies(prior, contents, copies) && Rewired(before, now, copies, done)
    requires copies.Keys == done
    requires forall p, o :: p in before && o in outside && before[p] == outside[o] && prior[before[p]] != Directory ==> before[p] in done
    ensures SameAliasing(before, now) && NoExternalAlias(now, outside, contents)
  {
  }

  // ----- the repository ----------------------------------------------------

  type Temporary = (nat, nat)

  datatype RepairError =
    | BudgetExceeded(required: nat, remaining: nat)
    | IoFailed
    | ExternalHardLink(inode: Ino, linkCount: nat, names: seq<Segments>)

  datatype MaterializedAlias = MaterializedAlias(path: Segments, bytes: nat, additionalNames: nat)

  function TotalBytes(done: seq<MaterializedAlias>): nat {
    if done == [] then 0 else TotalBytes(done[..|done| - 1]) + done[|done| - 1].bytes
  }

  function PathsIn(names: seq<Entry>): seq<Segments> {
    seq(|names|, k requires 0 <= k < |names| => names[k].path)
  }

  /** `external_hard_link_error` describes the first inode. */
  function HardLinkError(external: seq<Ino>, entries: seq<Entry>, counts: map<Ino, nat>): RepairError {
    var i := if external == [] then 0 else external[0];
    ExternalHardLink(i, if i in counts then counts[i] else 0, PathsIn(RepositoryNames(entries, i)))
  }

  /** Contents in bytes of the listed inodes together. */
  function SizeSum(contents: map<Ino, Content>, inodes: seq<Ino>): nat {
    if inodes == [] then 0
    else
      var last := inodes[|inodes| - 1];
      SizeSum(contents, inodes[..|inodes| - 1]) + if last in contents then SizeOf(contents[last]) else 0
  }

  lemma SizeSumSnoc(contents: map<Ino, Content>, inodes: seq<Ino>, k: nat)
    requires k < |inodes| && inodes[k] in contents
    ensures SizeSum(contents, inodes[..k + 1]) == SizeSum(contents, inodes[..k]) + SizeOf(contents[inodes[k]])
  {
    assert inodes[..k + 1][..k] == inodes[..k];
  }

  lemma {:induction false} SizeSumGrows(contents: map<Ino, Content>, inodes: seq<Ino>, k: nat)
    requires k <= |inodes|
    ensures SizeSum(contents, inodes[..k]) <= SizeSum(contents, inodes)
    decreases |inodes|
  {
    if k < |inodes| {
      SizeSumGrows(contents, inodes[..|inodes| - 1], k);
      assert inodes[..|inodes| - 1][..k] == inodes[..k];
    } else {
      assert inodes[..k] == inodes;
    }
  }

  /** The budget gave out at place `k`, and the error says by how much. */
  predicate OverBudget(contents: map<Ino, Content>, inodes: seq<Ino>, k: nat, budget: nat, e: RepairError) {
    && k < |inodes| && inodes[k] in contents
    && SizeSum(contents, inodes[..k]) <= budget
    && e == BudgetExceeded(SizeOf(contents[inodes[k]]), budget - SizeSum(contents, inodes[..k]))
    && e.required > e.remaining
  }

  /** A budget error means the listed inodes do not fit together. */
  lemma OverBudgetMeans(contents: map<Ino, Content>, inodes: seq<Ino>, k: nat, budget: nat, e: RepairError)
    requires OverBudget(contents, inodes, k, budget, e)
    ensures SizeSum(contents, inodes) > budget
  {
    SizeSumSnoc(contents, inodes, k);
    SizeSumGrows(contents, inodes, k + 1);
  }

  /** An inode named on both sides of the boundary that is not a directory. */
  predicate Aliased(inside: map<Segments, Ino>, outside: map<Outer, Ino>, contents: map<Ino, Content>, i: Ino) {
    Names(inside, i) != {} && Names(outside, i) != {} && i in contents && contents[i] != Directory
  }

  /** All of them, in order. */
  ghost predicate AllAliased(inside: map<Segments, Ino>, outside: map<Outer, Ino>, contents: map<Ino, Content>, inodes: seq<Ino>) {
    Ascending(inodes) && forall i :: i in inodes <==> Aliased(inside, outside, contents, i)
  }

  /** The report names one path of the inode, its size, and how many more paths followed. */
  predicate Reports(inside: map<Segments, Ino>, contents: map<Ino, Content>, i: Ino, a: MaterializedAlias) {
    && a.path in inside && inside[a.path] == i
    && i in contents && a.bytes == SizeOf(contents[i])
    && a.additionalNames + 1 == |Names(inside, i)|
  }

  ghost predicate AllReported(inside: map<Segments, Ino>, contents: map<Ino, Content>, inodes: seq<Ino>, done: seq<MaterializedAlias>) {
    |done| == |inodes| && forall k :: 0 <= k < |inodes| ==> Reports(inside, contents, inodes[k], done[k])
  }

  lemma {:induction false} NamesCounted(entries: seq<Entry>, i: Ino)
    ensures |RepositoryNames(entries, i)| == NameCount(entries, i)
    decreases |entries|
  {
    if entries != [] {
      NamesCounted(entries[..|entries| - 1], i);
    }
  }

  /** What the report says of one repaired inode. */
  function ReportOf(names: seq<Entry>, content: Content): MaterializedAlias
    requires names != []
  {
    MaterializedAlias(names[0].path, SizeOf(content), |names| - 1)
  }

  lemma TotalBytesSnoc(done: seq<MaterializedAlias>, last: MaterializedAlias)
    ensures TotalBytes(done + [last]) == TotalBytes(done) + last.bytes
  {
    assert (done + [last])[..|done|] == done;
  }

  lemma TotalBytesNone()
    ensures TotalBytes([]) == 0
  {
  }

  /** A system call either works or fails; either is possible each time. */
  class Repository {
    var inside: map<Segments, Ino>
    const outside: map<Outer, Ino>
    var contents: map<Ino, Content>
    var temporaries: map<Temporary, Ino>
    // how many system calls the kernel has refused
    ghost var faults: nat

    ghost predicate Valid()
      reads this
    {
      Named(inside, contents) && Named(outside, contents)
    }

    /** Creates a new inode at a temporary name that must not exist yet. */
    method Create(at: Temporary, content: Content) returns (created: Option<Ino>)
      modifies this`contents, this`temporaries, this`faults
      ensures created.None? ==> contents == old(contents) && temporaries == old(temporaries)
      ensures created.None? ==> faults > old(faults) || at in old(temporaries)
      ensures created.Some? ==>
                && created.value !in old(contents) && contents == old(contents)[created.value := content]
                && at !in old(temporaries) && temporaries == old(temporaries)[at := created.value]
                && faults == old(faults)
    {
      if at in temporaries {
        return None;
      }
      if i: Ino :| i !in contents {
        if * {
          contents := contents[i := content];
          temporaries := temporaries[at := i];
          return Some(i);
        }
      }
      faults := faults + 1;
      created := None;
    }

    /** `linkat` from a repository name to a temporary name. */
    method Link(p: Segments, at: Temporary) returns (ok: bool)
      requires p in inside
      modifies this`temporaries, this`faults
      ensures !ok ==> temporaries == old(temporaries) && (faults > old(faults) || at in old(temporaries))
      ensures ok ==> at !in old(temporaries) && temporaries == old(temporaries)[at := inside[p]] && faults == old(faults)
    {
      if at in temporaries {
        return false;
      }
      if * {
        temporaries := temporaries[at := inside[p]];
        return true;
      }
      faults := faults + 1;
      ok := false;
    }

    /** `replace_with_temporary`: one rename, undone by a best-effort unlink of the temporary name. */
    method Replace(at: Temporary, p: Segments) returns (ok: bool)
      requires at in temporaries && p in inside
      modifies this`inside, this`temporaries, this`faults
      ensures !ok ==> inside == old(inside) && (temporaries == old(temporaries) || temporaries == old(temporaries) - {at})
      ensures !ok ==> faults > old(faults)
      ensures ok ==> inside == old(inside)[p := old(temporaries)[at]] && temporaries == old(temporaries) - {at} && faults == old(faults)
    {
      if * {
        inside := inside[p := temporaries[at]];
        temporaries := temporaries - {at};
        ok := true;
      } else {
        if * {
          temporaries := temporaries - {at};
        }
        faults := faults + 1;
        ok := false;
      }
    }

    /** The first replacement of one inode: a copy within the remaining budget, moved onto its first name. */
    method CopyFirst(first: Entry, at: Temporary, remaining: nat) returns (r: Result<(nat, Ino), RepairError>)
      requires Valid() && first.path in inside && inside[first.path] == first.inode
      requires contents[first.inode] != Directory && first.spec == SpecOf(contents[first.inode])
      modifies this
      ensures Extends(old(contents), contents)
      ensures r.Err? ==> inside == old(inside) && !r.error.ExternalHardLink?
      ensures r.Err? && r.error.IoFailed? ==> faults > old(faults) || at in old(temporaries)
      ensures r.Err? && r.error.BudgetExceeded? ==>
                r.error == BudgetExceeded(SizeOf(old(contents)[first.inode]), remaining) && SizeOf(old(contents)[first.inode]) > remaining
      ensures r.Ok? ==> faults == old(faults)
      ensures r.Ok? ==>
                var (bytes, copy) := r.value;
                && bytes <= remaining && bytes == SizeOf(old(contents)[first.inode])
                && copy !in old(contents) && copy in contents && contents[copy] == old(contents)[first.inode]
                && inside == old(inside)[first.path := copy] && temporaries == old(temporaries)
    {
      var bytes := 0;
      var content := Directory;
      match first.spec {
        case SymlinkTo(target) => content := Symlink(target);
        case RegularFile =>
          content := contents[inside[first.path]];
          bytes := |content.bytes|;
          if bytes > remaining {
            return Err(BudgetExceeded(bytes, remaining));
          }
        case DirectorySpec =>
      }
      var created := Create(at, content);
      if created.None? {
        return Err(IoFailed);
      }
      var ok := Replace(at, first.path);
      if !ok {
        return Err(IoFailed);
      }
      r := Ok((bytes, created.value));
    }

    /** The other names of the inode, relinked onto the copy one by one. */
    method Relink(first: Segments, rest: seq<Entry>, index: nat) returns (ok: bool)
      requires first in inside && forall e :: e in rest ==> e.path in inside
      modifies this`inside, this`temporaries, this`faults
      ensures inside.Keys == old(inside).Keys && inside[first] == old(inside)[first]
      ensures !ok ==> faults > old(faults) || Leftover(old(temporaries), index)
      ensures ok ==> faults == old(faults)
      ensures forall p :: p in inside ==> inside[p] == old(inside)[p] || (OneOf(rest, p) && inside[p] == old(inside)[first])
      ensures ok ==> temporaries == old(temporaries) && forall e :: e in rest ==> inside[e.path] == old(inside)[first]
    {
      for k := 0 to |rest|
        invariant inside.Keys == old(inside).Keys && inside[first] == old(inside)[first]
        invariant temporaries == old(temporaries) && faults == old(faults)
        invariant forall p :: p in inside ==> inside[p] == old(inside)[p] || (OneOf(rest, p) && inside[p] == old(inside)[first])
        invariant forall j :: 0 <= j < k ==> inside[rest[j].path] == old(inside)[first]
      {
        assert rest[k] in rest;
        ok := Link(first, (index, k + 1));
        if !ok {
          assert (index, k + 1) in old(temporaries) ==> (index, k + 1).0 == index;
          return;
        }
        ok := Replace((index, k + 1), rest[k].path);
        if !ok {
          return;
        }
      }
      ok := true;
    }

    /** One inode: on failure `copy` tells whether some of its names have already moved. */
    method MaterializeInode(names: seq<Entry>, index: nat, remaining: nat)
      returns (r: Result<MaterializedAlias, RepairError>, ghost copy: Option<Ino>)
      requires Valid() && names != []
      requires forall e :: e in names ==> e.path in inside && inside[e.path] == e.inode == names[0].inode
      requires contents[names[0].inode] != Directory && names[0].spec == SpecOf(contents[names[0].inode])
      modifies this
      ensures inside.Keys == old(inside).Keys && Extends(old(contents), contents)
      ensures r.Err? ==> !r.error.ExternalHardLink?
      ensures r.Err? && r.error.IoFailed? ==> faults > old(faults) || Leftover(old(temporaries), index)
      ensures r.Err? && r.error.BudgetExceeded? ==>
                && r.error == BudgetExceeded(SizeOf(old(contents)[names[0].inode]), remaining)
                && SizeOf(old(contents)[names[0].inode]) > remaining
      ensures r.Ok? ==> faults == old(faults)
      ensures copy.None? ==> inside == old(inside)
      ensures copy.Some? ==>
                && copy.value !in old(contents) && copy.value in contents && contents[copy.value] == old(contents)[names[0].inode]
                && forall p :: p in inside ==> inside[p] == old(inside)[p] || (OneOf(names, p) && inside[p] == copy.value)
      ensures r.Ok? ==>
                && copy.Some? && temporaries == old(temporaries) && r.value.bytes <= remaining
                && r.value == ReportOf(names, old(contents)[names[0].inode])
                && forall e :: e in names ==> inside[e.path] == copy.value
    {
      var first, rest := names[0], names[1..];
      assert names == [first] + rest;
      copy := None;
      assert (index, 0) in temporaries ==> (index, 0).0 == index;
      var copied := CopyFirst(first, (index, 0), remaining);
      if copied.Err? {
        r := Err(copied.error);
        return;
      }
      copy := Some(copied.value.1);
      var ok := Relink(first.path, rest, index);
      if !ok {
        r := Err(IoFailed);
        return;
      }
      r := Ok(MaterializedAlias(first.path, copied.value.0, |rest|));
    }

    /**
     `materialize_external_aliases`. Success leaves every name readable as
     before, the same aliasing inside and none across the boundary; failure
     at any point still leaves every name readable as before. What is copied
     never exceeds the budget.
     */
    method Materialize(external: seq<Ino>, entries: seq<Entry>, ghost counts: map<Ino, nat>, budget: nat)
      returns (r: Result<seq<MaterializedAlias>, RepairError>)
      requires Valid() && ScanOf(inside, outside, contents, entries, counts)
      requires Ascending(external) && forall i :: i in external <==> IsExternal(entries, counts, i)
      modifies this
      ensures Valid()
      ensures Extends(old(contents), contents)
      ensures r.Err? ==> !r.error.ExternalHardLink?
      ensures r.Err? && r.error.IoFailed? ==> faults > old(faults) || exists index :: 0 <= index < |external| && Leftover(old(temporaries), index)
      ensures r.Err? && r.error.BudgetExceeded? ==> exists k: nat :: OverBudget(old(contents), external, k, budget, r.error)
      ensures r.Ok? ==> faults == old(faults) && SizeSum(old(contents), external) <= budget
      ensures SameContents(old(inside), old(contents), inside, contents) && NoNewAliasing(old(inside), inside)
      ensures r.Ok? ==>
                && SameAliasing(old(inside), inside) && NoExternalAlias(inside, outside, contents)
                && temporaries == old(temporaries) && TotalBytes(r.value) <= budget && |r.value| == |external|
                && forall k :: 0 <= k < |external| ==>
                     && RepositoryNames(entries, external[k]) != [] && external[k] in old(contents)
                     && r.value[k] == ReportOf(RepositoryNames(entries, external[k]), old(contents)[external[k]])
    {
      hide IsExternal, NameCount, ScanOf, Copies, Rewired, Named, OneOf, SameContents, SameAliasing, NoNewAliasing, NoExternalAlias, Names;
      hide RepositoryNames, ReportOf, TotalBytes, SizeSum, Leftover;
      var remaining: nat := budget;
      var materialized: seq<MaterializedAlias> := [];
      ghost var copies: map<Ino, Ino> := map[];
      ghost var before, prior := inside, contents;
      NothingMoved(before, prior, copies);
      TotalBytesNone();
      SizeSumNone(contents);
      assert external[..0] == [];
      for index := 0 to |external|
        invariant Valid() && temporaries == old(temporaries) && |materialized| == index && faults == old(faults)
        invariant Copies(prior, contents, copies) && Rewired(before, inside, copies, copies.Keys)
        invariant Extends(prior, contents)
        invariant forall i :: i in copies <==> i in external[..index]
        invariant TotalBytes(materialized) + remaining == budget
        invariant SizeSum(prior, external[..index]) + remaining == budget
        invariant forall k :: 0 <= k < index ==>
                    && RepositoryNames(entries, external[k]) != [] && external[k] in prior
                    && materialized[k] == ReportOf(RepositoryNames(entries, external[k]), prior[external[k]])
      {
        var i := external[index];
        assert i !in external[..index];
        ExternalExact(before, outside, prior, entries, counts, i);
        ListedNames(before, outside, prior, entries, counts, i);
        var names := RepositoryNames(entries, i);
        ghost var mid, stock := inside, contents;
        StillThere(before, mid, copies, i, names);
        var one, copy := MaterializeInode(names, index, remaining);
        ghost var done := copies.Keys;
        if copy.Some? {
          OneMoreCopy(prior, stock, contents, copies, i, copy.value);
          SomeMoved(before, mid, inside, copies, i, copy.value, names);
          copies := copies[i := copy.value];
        } else {
          CopiesKept(prior, stock, contents, copies);
        }
        RewiredHarmless(before, prior, inside, contents, copies, done);
        OutsideKept(outside, prior, contents, copies);
        SizeSumSnoc(prior, external, index);
        assert stock[i] == prior[i];
        if one.Err? {
          assert one.error.BudgetExceeded? ==> OverBudget(prior, external, index, budget, one.error);
          r := Err(one.error);
          return;
        }
        ReportSize(names, prior[i], one.value);
        assert copies.Keys - {i} == done;
        AllMoved(before, inside, copies, i, names);
        TotalBytesSnoc(materialized, one.value);
        materialized := materialized + [one.value];
        remaining := remaining - one.value.bytes;
      }
      RewiredHarmless(before, prior, inside, contents, copies, copies.Keys);
      OutsideKept(outside, prior, contents, copies);
      assert external[..|external|] == external;
      EveryAlias(before, outside, prior, entries, counts, external);
      RewiredRepairs(before, outside, prior, inside, contents, copies, copies.Keys);
      r := Ok(materialized);
    }

    /** One pass over an unchanging tree. */
    method Scan() returns (entries: seq<Entry>, counts: map<Ino, nat>)
      requires Valid()
      ensures ScanOf(inside, outside, contents, entries, counts)
    {
      entries, counts := [], map[];
      var todo := inside.Keys;
      while todo != {}
        invariant todo <= inside.Keys
        invariant Distinct(entries) && Lists(inside, contents, entries)
        invariant forall p :: p in inside ==> p in todo || exists k :: 0 <= k < |entries| && entries[k].path == p
        invariant forall k :: 0 <= k < |entries| ==> entries[k].path !in todo
        invariant forall i :: i in counts ==> counts[i] == LinkCount(inside, outside, i)
        invariant forall k :: 0 <= k < |entries| && entries[k].spec != DirectorySpec ==> entries[k].inode in counts
        decreases |todo|
      {
        var p :| p in todo;
        var entry := Entry(p, SpecOf(contents[inside[p]]), inside[p]);
        ghost var seen := entries;
        entries := entries + [entry];
        assert entries[|seen|] == entry && forall k :: 0 <= k < |seen| ==> entries[k] == seen[k];
        if entry.spec != DirectorySpec {
          counts := counts[entry.inode := LinkCount(inside, outside, entry.inode)];
        }
        todo := todo - {p};
      }
    }

    /**
     `validate_repository_tree`, with the materialization budget or `None` to
     refuse external aliases. One repair pass is enough for an unchanging
     outside: the second scan never finds another alias.
     */
    method ValidateTree(policy: Option<nat>) returns (r: Result<(seq<Entry>, seq<MaterializedAlias>), RepairError>)
      requires Valid()
      modifies this
      ensures Valid() && SameContents(old(inside), old(contents), inside, contents) && NoNewAliasing(old(inside), inside)
      ensures r.Ok? ==>
                && NoExternalAlias(inside, outside, contents) && SameAliasing(old(inside), inside)
                && Distinct(r.value.0) && Lists(inside, contents, r.value.0) && Covers(inside, r.value.0)
                && (policy.Some? ==> TotalBytes(r.value.1) <= policy.value)
      ensures policy.None? || NoExternalAlias(old(inside), outside, old(contents)) ==> unchanged(this)
      ensures policy.None? ==> (r.Ok? <==> NoExternalAlias(old(inside), outside, old(contents)))
      ensures NoExternalAlias(old(inside), outside, old(contents)) ==> r.Ok? && r.value.1 == []
      ensures r.Err? && r.error.ExternalHardLink? ==>
                && policy.None? && Aliased(inside, outside, contents, r.error.inode)
                && (forall i :: Aliased(inside, outside, contents, i) ==> r.error.inode <= i)
                && r.error.linkCount == LinkCount(inside, outside, r.error.inode)
                && (forall p :: p in r.error.names <==> p in inside && inside[p] == r.error.inode)
      ensures r.Err? && r.error.IoFailed? ==> faults > old(faults) || old(temporaries) != map[]
      ensures r.Err? && r.error.BudgetExceeded? ==>
                && policy.Some?
                && exists inodes, k: nat :: AllAliased(old(inside), outside, old(contents), inodes)
                                            && OverBudget(old(contents), inodes, k, policy.value, r.error)
      ensures r.Ok? && policy.Some? ==>
                exists inodes :: AllAliased(old(inside), outside, old(contents), inodes) && SizeSum(old(contents), inodes) <= policy.value
                                 && AllReported(old(inside), old(contents), inodes, r.value.1)
    {
      hide IsExternal, NameCount, LinkCount, Named, RepositoryNames, SizeSum, Aliased, AllReported, Leftover;
      var entries, counts := Scan();
      var external := ExternalAliasInodes(entries, counts);
      NoneExternal(inside, outside, contents, entries, counts, external);
      ExternalAliased(inside, outside, contents, entries, counts, external);
      if external == [] {
        NothingReported(inside, contents);
        return Ok((entries, []));
      }
      if policy.None? {
        FirstAlias(inside, outside, contents, entries, counts, external);
        return Err(HardLinkError(external, entries, counts));
      }
      ghost var before, prior := inside, contents;
      var materialized := Materialize(external, entries, counts, policy.value);
      if materialized.Err? {
        LeftoverMeans(old(temporaries), external);
        return Err(materialized.error);
      }
      ReportsExact(before, outside, prior, entries, counts, external, materialized.value);
      var again, recounts := Scan();
      var left := ExternalAliasInodes(again, recounts);
      NoneExternal(inside, outside, contents, again, recounts, left);
      if left != [] {
        return Err(HardLinkError(left, again, recounts));
      }
      r := Ok((again, materialized.value));
    }
  }

  /** An empty list of external inodes means no alias across the boundary, and conversely. */
  lemma NoneExternal(inside: map<Segments, Ino>, outside: map<Outer, Ino>, contents: map<Ino, Content>,
                     entries: seq<Entry>, counts: map<Ino, nat>, external: seq<Ino>)
    requires ScanOf(inside, outside, contents, entries, counts) && Named(inside, contents)
    requires forall i :: i in external <==> IsExternal(entries, counts, i)
    ensures external == [] <==> NoExternalAlias(inside, outside, contents)
  {
    hide IsExternal, ScanOf;
    EveryAlias(inside, outside, contents, entries, counts, external);
    if external != [] {
      var i := external[0];
      assert i in external;
      ExternalExact(inside, outside, contents, entries, counts, i);
      var p :| p in Names(inside, i);
      var o :| o in Names(outside, i);
      assert inside[p] == outside[o];
    }
  }

  lemma ExternalAliased(inside: map<Segments, Ino>, outside: map<Outer, Ino>, contents: map<Ino, Content>,
                        entries: seq<Entry>, counts: map<Ino, nat>, external: seq<Ino>)
    requires ScanOf(inside, outside, contents, entries, counts)
    requires Ascending(external) && forall i :: i in external <==> IsExternal(entries, counts, i)
    ensures AllAliased(inside, outside, contents, external)
  {
    hide IsExternal, ScanOf;
    forall i ensures i in external <==> Aliased(inside, outside, contents, i) {
      ExternalExact(inside, outside, contents, entries, counts, i);
    }
  }

  /** The refusal describes the least aliased inode in full. */
  lemma FirstAlias(inside: map<Segments, Ino>, outside: map<Outer, Ino>, contents: map<Ino, Content>,
                   entries: seq<Entry>, counts: map<Ino, nat>, external: seq<Ino>)
    requires ScanOf(inside, outside, contents, entries, counts) && AllAliased(inside, outside, contents, external) && external != []
    ensures var e := HardLinkError(external, entries, counts);
            && Aliased(inside, outside, contents, e.inode)
            && (forall i :: Aliased(inside, outside, contents, i) ==> e.inode <= i)
            && e.linkCount == LinkCount(inside, outside, e.inode)
            && (forall p :: p in e.names <==> p in inside && inside[p] == e.inode)
  {
    var i := external[0];
    assert i in external;
    forall x | Aliased(inside, outside, contents, x) ensures i <= x {
      var k :| 0 <= k < |external| && external[k] == x;
    }
    var names := RepositoryNames(entries, i);
    ListedNames(inside, outside, contents, entries, counts, i);
    forall p ensures p in PathsIn(names) <==> p in inside && inside[p] == i {
      if OneOf(names, p) {
        var e :| e in names && e.path == p;
        var k :| 0 <= k < |names| && names[k] == e;
        assert PathsIn(names)[k] == p;
      }
    }
    var e :| e in names;
    var k :| 0 <= k < |entries| && entries[k] == e;
    assert entries[k].inode in counts;
  }

  lemma NothingReported(inside: map<Segments, Ino>, contents: map<Ino, Content>)
    ensures AllReported(inside, contents, [], []) && SizeSum(contents, []) == 0
  {
  }

  lemma ReportsExact(inside: map<Segments, Ino>, outside: map<Outer, Ino>, contents: map<Ino, Content>,
                     entries: seq<Entry>, counts: map<Ino, nat>, external: seq<Ino>, done: seq<MaterializedAlias>)
    requires ScanOf(inside, outside, contents, entries, counts) && AllAliased(inside, outside, contents, external)
    requires |done| == |external|
    requires forall k :: 0 <= k < |external| ==>
               && RepositoryNames(entries, external[k]) != [] && external[k] in contents
               && done[k] == ReportOf(RepositoryNames(entries, external[k]), contents[external[k]])
    ensures AllReported(inside, contents, external, done)
  {
    hide ScanOf, RepositoryNames;
    forall k | 0 <= k < |external| ensures Reports(inside, contents, external[k], done[k]) {
      assert external[k] in external;
      OneReported(inside, outside, contents, entries, counts, external[k]);
    }
  }

  lemma OneReported(inside: map<Segments, Ino>, outside: map<Outer, Ino>, contents: map<Ino, Content>,
                    entries: seq<Entry>, counts: map<Ino, nat>, i: Ino)
    requires ScanOf(inside, outside, contents, entries, counts) && Aliased(inside, outside, contents, i)
    ensures RepositoryNames(entries, i) != [] && Reports(inside, contents, i, ReportOf(RepositoryNames(entries, i), contents[i]))
  {
    var names := RepositoryNames(entries, i);
    ListedNames(inside, outside, contents, entries, counts, i);
    NamesCounted(entries, i);
    NameCountIsCard(entries, i);
    AllNames(inside, contents, entries, i);
    assert names[0] in names;
  }

  lemma ReportSize(names: seq<Entry>, content: Content, a: MaterializedAlias)
    requires names != [] && a == ReportOf(names, content)
    ensures a.bytes == SizeOf(content)
  {
  }

  lemma SizeSumNone(contents: map<Ino, Content>)
    ensures SizeSum(contents, []) == 0
  {
  }

  lemma LeftoverMeans(temporaries: map<Temporary, Ino>, external: seq<Ino>)
    ensures (exists index :: 0 <= index < |external| && Leftover(temporaries, index)) ==> temporaries != map[]
  {
  }

  // ----- steps of the repair -----------------------------------------------

  lemma ListedNames(inside: map<Segments, Ino>, outside: map<Outer, Ino>, contents: map<Ino, Content>,
                    entries: seq<Entry>, counts: map<Ino, nat>, i: Ino)
    requires ScanOf(inside, outside, contents, entries, counts)
    requires i in contents && contents[i] != Directory && Names(inside, i) != {}
    ensures var names := RepositoryNames(entries, i);
            && names != []
            && (forall e :: e in names ==> e.path in inside && inside[e.path] == i == e.inode && e.spec == SpecOf(contents[i]))
            && (forall p :: p in inside && inside[p] == i ==> OneOf(names, p))
  {
    var names := RepositoryNames(entries, i);
    forall p | p in inside && inside[p] == i ensures OneOf(names, p) {
      var k :| 0 <= k < |entries| && entries[k].path == p;
      assert entries[k] in names;
    }
    var p :| p in Names(inside, i);
    assert OneOf(names, p);
    forall e | e in names ensures e.path in inside && inside[e.path] == i == e.inode && e.spec == SpecOf(contents[i]) {
      var k :| 0 <= k < |entries| && entries[k] == e;
    }
  }

  lemma NothingMoved(before: map<Segments, Ino>, prior: map<Ino, Content>, copies: map<Ino, Ino>)
    requires copies == map[]
    ensures Copies(prior, prior, copies) && Rewired(before, before, copies, copies.Keys)
  {
  }

  lemma OutsideKept(outside: map<Outer, Ino>, prior: map<Ino, Content>, contents: map<Ino, Content>, copies: map<Ino, Ino>)
    requires Named(outside, prior) && Copies(prior, contents, copies)
    ensures Named(outside, contents) && Extends(prior, contents)
  {
  }

  /** Names of an inode not yet handled still lead to it. */
  lemma StillThere(before: map<Segments, Ino>, mid: map<Segments, Ino>, copies: map<Ino, Ino>, i: Ino, names: seq<Entry>)
    requires Rewired(before, mid, copies, copies.Keys) && i !in copies
    requires forall e :: e in names ==> e.path in before && before[e.path] == i
    ensures forall e :: e in names ==> e.path in mid && mid[e.path] == i
  {
  }

  lemma CopiesKept(prior: map<Ino, Content>, stock: map<Ino, Content>, now: map<Ino, Content>, copies: map<Ino, Ino>)
    requires Copies(prior, stock, copies) && Extends(stock, now)
    ensures Copies(prior, now, copies)
  {
  }

  lemma OneMoreCopy(prior: map<Ino, Content>, stock: map<Ino, Content>, now: map<Ino, Content>, copies: map<Ino, Ino>, i: Ino, c: Ino)
    requires Copies(prior, stock, copies) && Extends(stock, now)
    requires i in prior && i !in copies && c !in stock && c in now && now[c] == stock[i]
    ensures Copies(prior, now, copies[i := c])
  {
  }

  lemma SomeMoved(before: map<Segments, Ino>, mid: map<Segments, Ino>, now: map<Segments, Ino>, copies: map<Ino, Ino>, i: Ino, c: Ino, names: seq<Entry>)
    requires Rewired(before, mid, copies, copies.Keys) && i !in copies && now.Keys == mid.Keys
    requires forall e :: e in names ==> e.path in before && before[e.path] == i
    requires forall p :: p in mid ==> now[p] == mid[p] || (OneOf(names, p) && now[p] == c)
    ensures Rewired(before, now, copies[i := c], copies.Keys)
  {
  }

  lemma AllMoved(before: map<Segments, Ino>, now: map<Segments, Ino>, copies: map<Ino, Ino>, i: Ino, names: seq<Entry>)
    requires i in copies && Rewired(before, now, copies, copies.Keys - {i})
    requires forall p :: p in before && before[p] == i ==> OneOf(names, p)
    requires forall e :: e in names ==> e.path in now && now[e.path] == copies[i]
    ensures Rewired(before, now, copies, copies.Keys)
  {
  }

  /** Every inode named on both sides is on the list of inodes to repair. */
  lemma EveryAlias(inside: map<Segments, Ino>, outside: map<Outer, Ino>, contents: map<Ino, Content>,
                   entries: seq<Entry>, counts: map<Ino, nat>, external: seq<Ino>)
    requires ScanOf(inside, outside, contents, entries, counts) && Named(inside, contents)
    requires forall i :: i in external <==> IsExternal(entries, counts, i)
    ensures forall p, o :: p in inside && o in outside && inside[p] == outside[o] && contents[inside[p]] != Directory ==> inside[p] in external
  {
    hide IsExternal, ScanOf;
    forall p, o | p in inside && o in outside && inside[p] == outside[o] && contents[inside[p]] != Directory
      ensures inside[p] in external
    {
      var i := inside[p];
      assert p in Names(inside, i) && o in Names(outside, i);
      ExternalExact(inside, outside, contents, entries, counts, i);
    }
  }

  /** A temporary name of this place was there before. */
  ghost predicate Leftover(temporaries: map<Temporary, Ino>, index: nat) {
    exists t :: t in temporaries && t.0 == index
  }

  predicate OneOf(entries: seq<Entry>, p: Segments) {
    exists e :: e in entries && e.path == p
  }

  function SizeOf(c: Content): nat {
    if c.Regular? then |c.bytes| else 0
  }
}
