/**
 * Source spans (src/compiler/code_location.rs).  A `PathBuf` is modelled as a
 * string; the `u64` offsets as naturals (they are only copied, never computed).
 */
module CodeLocations {
  import opened Wrappers

  datatype Section = Section(locationBegin: nat, locationEnd: nat)

  datatype CodeLocation = CodeLocation(path: string, section: Option<Section>)

  /** `CodeLocation::new`: a location with no section. */
  function New(path: string): (r: CodeLocation)
    ensures r.path == path && r.section.None?
  {
    CodeLocation(path, None)
  }

  /** `CodeLocation::with_section`. */
  function WithSection(path: string, locationBegin: nat, locationEnd: nat): (r: CodeLocation)
    ensures r.path == path && r.section.Some?
    ensures r.section.value.locationBegin == locationBegin && r.section.value.locationEnd == locationEnd
  {
    CodeLocation(path, Some(Section(locationBegin, locationEnd)))
  }

  /**
   * When `section` does not panic: the two paths agree and either both or
   * neither of the locations carry a section.
   */
  predicate Mergeable(beginning: CodeLocation, end: CodeLocation)
  {
    beginning.path == end.path && beginning.section.Some? == end.section.Some?
  }

  /**
   * `CodeLocation::section`; `None` stands for the two panics (the path
   * assertion and the mixed-section panic).
   */
  function MergeSection(beginning: CodeLocation, end: CodeLocation): (r: Option<CodeLocation>)
    ensures r.Some? <==> Mergeable(beginning, end)
    ensures r.Some? ==> r.value.path == beginning.path
    ensures r.Some? ==> (r.value.section.None? <==> beginning.section.None?)
    ensures r.Some? && r.value.section.Some? ==>
      r.value.section.value.locationBegin == beginning.section.value.locationBegin &&
      r.value.section.value.locationEnd == end.section.value.locationEnd
  {
    if beginning.path != end.path then None
    else if beginning.section.Some? != end.section.Some? then None
    else Some(CodeLocation(
      beginning.path,
      if beginning.section.Some? then
        Some(Section(beginning.section.value.locationBegin, end.section.value.locationEnd))
      else None))
  }

  /**
   * `CodeLocation::to`: the span from the start of `self` to the end of
   * `end`, in the file of `self`; `None` where `section` panics.
   */
  function To(self: CodeLocation, end: CodeLocation): (r: Option<CodeLocation>)
    ensures r.Some? <==> self.path == end.path && self.section.Some? == end.section.Some?
    ensures r.Some? ==> r.value.path == self.path
    ensures r.Some? && self.section.None? ==> r.value.section.None?
    ensures r.Some? && self.section.Some? ==>
      r.value.section == Some(Section(self.section.value.locationBegin, end.section.value.locationEnd))
  {
    MergeSection(self, end)
  }

  /** Merging a location with itself gives it back. */
  lemma MergeSelf(l: CodeLocation)
    ensures MergeSection(l, l) == Some(l)
  {
  }

  /** Span merging is associative whenever the three locations are mergeable. */
  lemma MergeAssociative(a: CodeLocation, b: CodeLocation, c: CodeLocation)
    requires Mergeable(a, b) && Mergeable(b, c)
    ensures MergeSection(a, b).Some? && MergeSection(b, c).Some?
    ensures MergeSection(MergeSection(a, b).value, c) == MergeSection(a, MergeSection(b, c).value)
  {
  }

  /** `LocationValue<T>`: a value together with an optional location. */
  datatype LocationValue<T> = LocationValue(location: Option<CodeLocation>, value: T)

  /** The hand-written `PartialEq`: only the values are compared. */
  predicate LocationValueEq<T(==)>(a: LocationValue<T>, b: LocationValue<T>)
  {
    a.value == b.value
  }

  /**
   * The hand-written `Hash`: only the value is fed to the hasher, whose
   * step is `feed` and whose state before the call is `state`.
   */
  function LocationValueHash<T, H>(a: LocationValue<T>, feed: (H, T) -> H, state: H): H
  {
    feed(state, a.value)
  }

  /** `From<T>`: the location is left empty. */
  function FromValue<T>(value: T): (r: LocationValue<T>)
    ensures r.location.None? && r.value == value
  {
    LocationValue(None, value)
  }

  /**
   * `Hash` agrees with `PartialEq`, as `HashMap` keys need: two
   * `LocationValue`s equal under the hand-written equality leave every
   * hasher in the same state, whatever their locations.
   */
  lemma LocationValueHashConsistent<T, H>(a: LocationValue<T>, b: LocationValue<T>, feed: (H, T) -> H, state: H)
    requires LocationValueEq(a, b)
    ensures LocationValueHash(a, feed, state) == LocationValueHash(b, feed, state)
  {
  }

  /**
   * The hand-written equality is an equivalence (as the `Eq` marker
   * promises) that ignores locations.
   */
  lemma LocationValueEqIsEquivalence<T>(a: LocationValue<T>, b: LocationValue<T>, c: LocationValue<T>, l: Option<CodeLocation>)
    ensures LocationValueEq(a, a)
    ensures LocationValueEq(a, b) ==> LocationValueEq(b, a)
    ensures LocationValueEq(a, b) && LocationValueEq(b, c) ==> LocationValueEq(a, c)
    ensures LocationValueEq(a, LocationValue(l, a.value))
  {
  }
}
