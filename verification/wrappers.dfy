/** The optional value used for the result of a single `querySelector` lookup:
    `None` stands for JavaScript's `null` (nothing matched). */
module Wrappers {

  datatype Option<+T> = None | Some(value: T)

  /** The first present entry of a list of lookups, in order: the meaning of a
      logical-or chain over lookups that return a node or `null`. */
  function FirstFound<T>(os: seq<Option<T>>): (r: Option<T>)
    ensures r.None? <==> forall i :: 0 <= i < |os| ==> os[i].None?
    ensures r.Some? ==> exists i :: 0 <= i < |os| && os[i] == r && forall j :: 0 <= j < i ==> os[j].None?
  {
    if |os| == 0 then None
    else if os[0].Some? then os[0]
    else
      var rest := FirstFound(os[1..]);
      assert forall i :: 1 <= i < |os| ==> os[i] == os[1..][i - 1];
      rest
  }
}
