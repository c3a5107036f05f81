/** What the other modules share. */
module Basics {
  datatype Option<+T> = None | Some(value: T)

  function Max(a: nat, b: nat): nat { if a < b then b else a }

  /** The first place of a name in a list. */
  function IndexOf(names: seq<string>, name: string): (r: Option<nat>)
    ensures r.Some? ==> r.value < |names| && names[r.value] == name && name !in names[..r.value]
    ensures r.None? ==> name !in names
  {
    if names == [] then None
    else if names[0] == name then Some(0)
    else match IndexOf(names[1..], name)
         case None => None
         case Some(i) =>
           assert names[..i + 1] == [names[0]] + names[1..][..i];
           Some(i + 1)
  }
}
