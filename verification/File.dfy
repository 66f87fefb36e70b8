/** File effects and file authority (`file.rs`). */
module File {
  import opened Bytes
  import opened Patterns
  import opened Path
  import opened Bits

  datatype Effect =
    | ReadData
    | ListDirectory
    | WriteData
    | Truncate
    | CreateFile
    | CreateDirectory
    | RemoveFile
    | RemoveDirectory
    | Rename
    | SetMetadata
    | ReadLink
    | CreateSymlink
    | CreateHardLink

  /** The closed effect universe in wire order. */
  const ALL: seq<Effect> := [
    ReadData, ListDirectory, WriteData, Truncate, CreateFile, CreateDirectory, RemoveFile,
    RemoveDirectory, Rename, SetMetadata, ReadLink, CreateSymlink, CreateHardLink
  ]

  function Tag(e: Effect): (t: byte)
    ensures t < |ALL| && ALL[t] == e
  {
    match e
    case ReadData => 0
    case ListDirectory => 1
    case WriteData => 2
    case Truncate => 3
    case CreateFile => 4
    case CreateDirectory => 5
    case RemoveFile => 6
    case RemoveDirectory => 7
    case Rename => 8
    case SetMetadata => 9
    case ReadLink => 10
    case CreateSymlink => 11
    case CreateHardLink => 12
  }

  function FromTag(t: byte): Option<Effect> {
    if t < |ALL| then Some(ALL[t]) else None
  }

  /** The wire tag and the effect universe agree in both directions. */
  lemma TagsInverse(t: byte)
    ensures forall e :: FromTag(Tag(e)) == Some(e)
    ensures FromTag(t).Some? ==> Tag(FromTag(t).value) == t
  {
  }

  /** A `u16` bitset over the thirteen effects. */
  type Effects = nat

  predicate HasEffect(bits: Effects, e: Effect) {
    Has(bits, Tag(e), 16)
  }

  predicate ValidEffects(bits: Effects) {
    bits < Pow2(13)
  }

  /** `is_subset_of` is set inclusion over the effect universe. */
  lemma EffectsSubsetExact(a: Effects, b: Effects)
    requires ValidEffects(a)
    ensures Subset(a, b, 16) <==> forall e :: HasEffect(a, e) ==> HasEffect(b, e)
    ensures a == 0 <==> forall e :: !HasEffect(a, e)
  {
    SubsetExact(a, b, 13, 16);
    forall t: nat | t < 13
      ensures Has(a, t, 16) <==> HasEffect(a, ALL[t])
      ensures Has(b, t, 16) <==> HasEffect(b, ALL[t])
    {
      TagsInverse(t);
    }
  }

  function TagsOf(effects: seq<Effect>): seq<nat> {
    seq(|effects|, i requires 0 <= i < |effects| => Tag(effects[i]) as nat)
  }

  /** `FileEffects::from_effects`: a fold of masks. */
  function FromEffects(effects: seq<Effect>): Effects {
    FromTags(TagsOf(effects), 16)
  }

  /** The fold builds exactly the listed set, duplicates and order aside, and never a bit outside the universe. */
  lemma FromEffectsExact(effects: seq<Effect>)
    ensures ValidEffects(FromEffects(effects))
    ensures forall e :: HasEffect(FromEffects(effects), e) <==> e in effects
  {
    hide FromTags, Pow2;
    var tags, bits := TagsOf(effects), FromEffects(effects);
    FromTagsExact(tags, 13, 16, 0);
    forall k: nat ensures Bit(bits, k) <==> k in tags {
      FromTagsExact(tags, 13, 16, k);
    }
    LowBits(bits, 13, 16);
    forall e ensures HasEffect(bits, e) <==> e in effects {
      MaskTest(bits, Tag(e), 16);
      if e in effects {
        var i :| 0 <= i < |effects| && effects[i] == e;
        assert tags[i] == Tag(e);
      }
      if Tag(e) in tags {
        var i :| 0 <= i < |tags| && tags[i] == Tag(e);
        assert ALL[Tag(effects[i])] == effects[i];
      }
    }
  }

  datatype FileAuthority = FileAuthority(repository: Str, effects: Effects, path: Pattern)
  datatype FileRequest = FileRequest(repository: Str, effect: Effect, path: Segments)

  predicate FileMatches(a: FileAuthority, r: FileRequest) {
    && a.repository == r.repository
    && HasEffect(a.effects, r.effect)
    && Matches(a.path, r.path)
  }

  predicate FileBelow(child: FileAuthority, parent: FileAuthority) {
    && child.repository == parent.repository
    && Subset(child.effects, parent.effects, 16)
    && Below(child.path, parent.path)
  }

  predicate ValidFileAuthority(a: FileAuthority) {
    ValidEffects(a.effects) && ValidPath(a.path.name)
  }

  function TightFile(a: FileAuthority): FileAuthority {
    a.(path := Tighten(a.path, HasDescendant(a.path.name)))
  }

  ghost predicate FileContained(child: FileAuthority, parent: FileAuthority) {
    forall r: FileRequest :: ValidPath(r.path) && FileMatches(child, r) ==> FileMatches(parent, r)
  }

  /**
   The contained children `file_body_below` refuses: one without effects that
   differs in repository or path, or one with a dead-end prefix.
   */
  predicate FileGap(child: FileAuthority, parent: FileAuthority) {
    if child.effects == 0 then child.repository != parent.repository || !Below(child.path, parent.path)
    else DeadEnd(child.path, parent.path, HasDescendant(child.path.name))
  }

  /** File delegation is containment of permitted requests, save for the gap. */
  lemma FileBelowExact(child: FileAuthority, parent: FileAuthority)
    requires ValidFileAuthority(child) && ValidFileAuthority(parent)
    ensures FileBelow(child, parent) <==> FileContained(child, parent) && !FileGap(child, parent)
    ensures FileContained(child, parent) <==> child.effects == 0 || FileBelow(TightFile(child), parent)
  {
    EffectsSubsetExact(child.effects, parent.effects);
    PathBelowExact(child.path, parent.path);
    if FileContained(child, parent) && child.effects != 0 {
      var e :| HasEffect(child.effects, e);
      forall n | HasEffect(child.effects, n)
        ensures HasEffect(parent.effects, n) && child.repository == parent.repository
      {
        var r := FileRequest(child.repository, n, child.path.name);
        assert FileMatches(child, r);
      }
      forall q | ValidPath(q) && Matches(child.path, q)
        ensures Matches(parent.path, q)
      {
        var r := FileRequest(child.repository, e, q);
        assert FileMatches(child, r);
      }
    }
  }

  /** An authority without effects permits nothing, yet is refused under another repository. */
  lemma EffectlessRefused(here: Str, there: Str)
    requires here != there
    ensures var child, parent := FileAuthority(here, 0, Prefix([])), FileAuthority(there, 0, Prefix([]));
            ValidFileAuthority(child) && ValidFileAuthority(parent) && FileContained(child, parent) && !FileBelow(child, parent)
  {
    FileBelowExact(FileAuthority(here, 0, Prefix([])), FileAuthority(there, 0, Prefix([])));
  }
}
