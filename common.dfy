/** Value wrappers shared by the whole model: optional values and the
    outcome of an operation that the Swift runtime may abort. */
module Common {

  datatype Option<T> = None | Some(value: T)

  /** The runtime traps the audit script can hit. */
  datatype Trap =
    | IndexOutOfRange               // a String index moved past the start of the string
    | UnknownLocaleCode(code: string) // force-unwrap of a failed locale-table lookup

  /** Either a value, or the trap that aborts the process. */
  datatype Result<T> = Ok(value: T) | Crash(trap: Trap)

  /** `f` applied to every element of `s`, in order; built from the last
      element so that a loop over a prefix of `s` can track it. */
  function MapSeq<A, B>(s: seq<A>, f: A -> B): (r: seq<B>)
    ensures |r| == |s|
    ensures forall i :: 0 <= i < |s| ==> r[i] == f(s[i])
  {
    if |s| == 0 then []
    else
      var init := s[..|s| - 1];
      assert forall i :: 0 <= i < |init| ==> init[i] == s[i];
      MapSeq(init, f) + [f(s[|s| - 1])]
  }
}
