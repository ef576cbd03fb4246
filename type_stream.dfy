/**
 * The one-element-lookahead stream (src/type_stream.rs): an element buffered
 * in `next` in front of what the underlying vector iterator has not yet
 * produced.  Once the iterator is exhausted it stays exhausted, so an empty
 * buffer means an empty stream (`Valid`).
 */
module TypeStreams {
  import opened Wrappers
  import opened CodeLocations
  import Diagnostics

  class TypeStream<T> {
    /** What the vector iterator still holds. */
    var tokens: seq<T>
    var next: Option<T>
    /** The location reported when the stream is unexpectedly empty. */
    const end: Option<CodeLocation>

    ghost predicate Valid()
      reads this
    {
      next.None? ==> tokens == []
    }

    /** `Into<Vec<T>>`: the buffered element followed by the rest, in order. */
    function ToVec(): (r: seq<T>)
      reads this
      ensures next.Some? ==> |r| == |tokens| + 1 && r[0] == next.value && r[1..] == tokens
      ensures next.None? ==> r == tokens
    {
      if next.Some? then [next.value] + tokens else tokens
    }

    /** `from_iter`: buffers the first element of `iter`. */
    constructor FromIter(iter: seq<T>, end: Option<CodeLocation>)
      ensures Valid() && ToVec() == iter && this.end == end
    {
      if iter == [] {
        tokens := [];
        next := None;
      } else {
        tokens := iter[1..];
        next := Some(iter[0]);
      }
      this.end := end;
    }

    /** `new`: a stream without an end location. */
    constructor New(tokens: seq<T>)
      ensures Valid() && ToVec() == tokens && end == None
    {
      if tokens == [] {
        this.tokens := [];
        next := None;
      } else {
        this.tokens := tokens[1..];
        next := Some(tokens[0]);
      }
      end := None;
    }

    function IsEmpty(): (r: bool)
      reads this
      ensures Valid() ==> (r <==> ToVec() == [])
    {
      next.None?
    }

    /** `next`: takes the buffered element and buffers the following one; panics when empty. */
    method Next() returns (t: T)
      requires Valid() && !IsEmpty()
      modifies this
      ensures Valid() && t == old(ToVec())[0] && ToVec() == old(ToVec())[1..]
    {
      t := next.value;
      if tokens == [] {
        next := None;
      } else {
        next := Some(tokens[0]);
        tokens := tokens[1..];
      }
    }

    /** `Iterator::next`: `None` on an empty stream instead of a panic. */
    method IterNext() returns (r: Option<T>)
      requires Valid()
      modifies this
      ensures Valid()
      ensures old(ToVec()) == [] ==> r.None? && ToVec() == []
      ensures old(ToVec()) != [] ==> r == Some(old(ToVec())[0]) && ToVec() == old(ToVec())[1..]
    {
      if next.Some? {
        var t := Next();
        r := Some(t);
      } else {
        r := None;
      }
    }

    /** `peek`: the buffered element, not consumed. */
    function Peek(): (r: Option<T>)
      reads this
      ensures Valid() ==> (r.None? <==> ToVec() == [])
      ensures r.Some? ==> r.value == ToVec()[0]
    {
      next
    }

    /** `extract`: `extractor` applied to the upcoming element; panics when empty. */
    function Extract<U>(extractor: T -> U): (r: U)
      reads this
      requires !IsEmpty()
      ensures r == extractor(ToVec()[0])
    {
      extractor(next.value)
    }

    /** `skip`: drops the upcoming element; panics when empty. */
    method Skip()
      requires Valid() && !IsEmpty()
      modifies this
      ensures Valid() && ToVec() == old(ToVec())[1..]
    {
      var _ := Next();
    }

    /** `error_if_empty`: one error at the end location exactly when nothing is left. */
    method ErrorIfEmpty(compilation: Diagnostics.Compilation, expected: string) returns (r: Option<()>)
      requires Valid()
      modifies compilation
      ensures r.None? <==> ToVec() == []
      ensures ToVec() == [] ==> compilation.diagnostics == old(compilation.diagnostics) + [Diagnostics.ErrorAt("Expected " + expected, end)]
      ensures ToVec() != [] ==> compilation.diagnostics == old(compilation.diagnostics)
    {
      if IsEmpty() {
        compilation.AddError("Expected " + expected, end);
        r := None;
      } else {
        r := Some(());
      }
    }
  }
}
