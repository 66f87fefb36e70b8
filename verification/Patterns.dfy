/**
 Exact and prefix selectors over segmented names. File paths, URL paths and
 branch names share this one selector; they differ in which names are valid.
 */
module Patterns {
  import opened Bytes

  type Segments = seq<Str>

  datatype Pattern = Exact(name: Segments) | Prefix(name: Segments)

  /** `name` equals or descends from `ancestor`, at a segment boundary. */
  predicate AtOrBelow(name: Segments, ancestor: Segments) {
    ancestor <= name
  }

  predicate Matches(pattern: Pattern, name: Segments) {
    match pattern
    case Exact(selected) => selected == name
    case Prefix(selected) => AtOrBelow(name, selected)
  }

  predicate Below(child: Pattern, parent: Pattern) {
    match (child, parent)
    case (Exact(c), Exact(p)) => c == p
    case (Exact(c), Prefix(p)) => AtOrBelow(c, p)
    case (Prefix(c), Prefix(p)) => AtOrBelow(c, p)
    case (Prefix(_), Exact(_)) => false
  }

  /** Every valid name that `child` selects is selected by `parent`. */
  ghost predicate Contained(valid: Segments -> bool, child: Pattern, parent: Pattern) {
    forall q :: valid(q) && Matches(child, q) ==> Matches(parent, q)
  }

  /** A prefix that no longer valid name extends selects only its own name. */
  function Tighten(pattern: Pattern, extensible: bool): Pattern {
    if pattern.Prefix? && !extensible then Exact(pattern.name) else pattern
  }

  /** The one refusal of a contained child: a prefix nothing valid extends, under the equal exact name. */
  predicate DeadEnd(child: Pattern, parent: Pattern, extensible: bool) {
    child.Prefix? && !extensible && parent == Exact(child.name)
  }

  /** The structural rule never lets a child select a name its parent does not. */
  lemma BelowSound(child: Pattern, parent: Pattern, name: Segments)
    requires Below(child, parent) && Matches(child, name)
    ensures Matches(parent, name)
  {
  }

  /** The structural rule is containment, save for the dead end; equally, once dead-end prefixes are read as exact. */
  lemma BelowExact(valid: Segments -> bool, child: Pattern, parent: Pattern, extensible: bool, longer: Segments)
    requires valid(child.name)
    requires extensible ==> valid(longer) && child.name < longer
    requires !extensible ==> forall q :: valid(q) && child.name <= q ==> q == child.name
    ensures Below(child, parent) <==> Contained(valid, child, parent) && !DeadEnd(child, parent, extensible)
    ensures Contained(valid, child, parent) <==> Below(Tighten(child, extensible), parent)
  {
    assert Matches(child, child.name);
    if child.Prefix? && extensible {
      assert Matches(child, longer);
    }
  }
}
