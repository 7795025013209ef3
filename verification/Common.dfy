/** Small datatypes and functions several modules share. */
module Common {
  datatype Option<T> = None | Some(value: T)

  function Flatten<T>(parts: seq<seq<T>>): seq<T> {
    if parts == [] then [] else parts[0] + Flatten(parts[1..])
  }

  function Lesser(a: nat, b: nat): nat { if a < b then a else b }
}
