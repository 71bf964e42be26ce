/** Shared by the models that need them. */
module Common {

  datatype Option<T> = None | Some(value: T)

  type Byte = x: nat | x < 256

  lemma Cat<T>(a: seq<T>, b: seq<T>, c: seq<T>)
    ensures (a + b) + c == a + (b + c)
  {
  }

  function Min(a: nat, b: nat): nat { if a < b then a else b }
}
