/** Small failure-carrying datatypes shared by every extractor. */
module Wrappers {

  /** A value that may be absent: a document lookup that found nothing,
      or a Python `None`. */
  datatype Option<+T> = None | Some(value: T)

  /** The outcome of one extraction call.
      - `Ok` carries the extracted record;
      - `Error` is an early return with a message, before any document is read;
      - `Fault` names a mandatory fragment that the document lacks (the
        original program raises an exception there);
      - `NotFound` says that the requested post is not on the page. */
  datatype Outcome<+T> =
    | Ok(value: T)
    | Error(message: string)
    | Fault(fragment: string)
    | NotFound

  /** The first fault that `fault` reports over `xs`, scanning in order: an
      extraction aborts at the first element lacking a mandatory fragment. */
  function FirstFault<T>(xs: seq<T>, fault: T -> Option<string>): (r: Option<string>)
    ensures r.None? <==> forall i :: 0 <= i < |xs| ==> fault(xs[i]).None?
    ensures r.Some? ==>
      exists i :: 0 <= i < |xs| && fault(xs[i]) == r && forall j :: 0 <= j < i ==> fault(xs[j]).None?
  {
    if |xs| == 0 then None
    else if fault(xs[0]).Some? then fault(xs[0])
    else
      var rest := FirstFault(xs[1..], fault);
      assert forall i :: 1 <= i < |xs| ==> xs[i] == xs[1..][i - 1];
      rest
  }
}
