/** The per-page author list: each extracted name is appended only when the
    list does not hold it yet, so every author appears once. */
module Authors {

  predicate NoDuplicates(names: seq<string>) {
    forall i, j :: 0 <= i < j < |names| ==> names[i] != names[j]
  }

  /** Appends `name` unless it is already listed. */
  function AddUnique(names: seq<string>, name: string): (r: seq<string>)
    ensures NoDuplicates(names) ==> NoDuplicates(r)
    ensures forall u :: u in r <==> u in names || u == name
    ensures |names| <= |r| && r[..|names|] == names
  {
    if name in names then names else names + [name]
  }

  /** The author list built by appending each name in turn. */
  function Dedup(names: seq<string>): (r: seq<string>)
    ensures NoDuplicates(r)
    ensures forall u :: u in r <==> u in names
    ensures |r| <= |names|
  {
    if |names| == 0 then []
    else
      var init := names[..|names| - 1];
      assert forall u :: u in names <==> u in init || u == names[|names| - 1];
      AddUnique(Dedup(init), names[|names| - 1])
  }
}
