/**
 * The diagnostic sink (`Compilation`): every diagnostic is appended, never
 * removed.  Its pipeline-location tag and its error-freeness query depend on
 * code outside this model and are not represented.
 */
module Diagnostics {
  import opened Wrappers
  import opened CodeLocations

  datatype DiagnosticKind = Error | Warning | Info

  datatype Diagnostic = Diagnostic(kind: DiagnosticKind, message: string, location: Option<CodeLocation>)

  function ErrorAt(message: string, location: Option<CodeLocation>): (d: Diagnostic)
    ensures d.kind == Error && d.message == message && d.location == location
  {
    Diagnostic(Error, message, location)
  }

  /** Number of error diagnostics in a sequence. */
  function CountErrors(ds: seq<Diagnostic>): (n: nat)
    ensures n <= |ds|
  {
    if ds == [] then 0 else (if ds[0].kind == Error then 1 else 0) + CountErrors(ds[1..])
  }

  lemma {:induction false} CountErrorsAppend(a: seq<Diagnostic>, b: seq<Diagnostic>)
    ensures CountErrors(a + b) == CountErrors(a) + CountErrors(b)
  {
    if a == [] {
      assert a + b == b;
    } else {
      assert (a + b)[1..] == a[1..] + b;
      CountErrorsAppend(a[1..], b);
    }
  }

  /** A result together with the diagnostics the call appends. */
  datatype Reported<T> = Reported(value: Option<T>, errors: seq<Diagnostic>)

  /** Success appends nothing; failure appends exactly one error. */
  predicate OneErrorOnFailure<T>(r: Reported<T>)
  {
    (r.value.Some? ==> r.errors == []) &&
    (r.value.None? ==> |r.errors| == 1 && r.errors[0].kind == Error)
  }

  class Compilation {
    var diagnostics: seq<Diagnostic>

    constructor ()
      ensures diagnostics == []
    {
      diagnostics := [];
    }

    method AddError(message: string, location: Option<CodeLocation>)
      modifies this
      ensures diagnostics == old(diagnostics) + [Diagnostic(Error, message, location)]
    {
      diagnostics := diagnostics + [Diagnostic(Error, message, location)];
    }

    method AddWarning(message: string, location: Option<CodeLocation>)
      modifies this
      ensures diagnostics == old(diagnostics) + [Diagnostic(Warning, message, location)]
    {
      diagnostics := diagnostics + [Diagnostic(Warning, message, location)];
    }

    method AddInfo(message: string, location: Option<CodeLocation>)
      modifies this
      ensures diagnostics == old(diagnostics) + [Diagnostic(Info, message, location)]
    {
      diagnostics := diagnostics + [Diagnostic(Info, message, location)];
    }

    /** Appends diagnostics that a pure helper reported. */
    method AddAll(ds: seq<Diagnostic>)
      modifies this
      ensures diagnostics == old(diagnostics) + ds
    {
      diagnostics := diagnostics + ds;
    }
  }
}
