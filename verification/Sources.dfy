/** An io.Reader that delivers a fixed input in chunks of its own choosing. */
module Sources {

  import opened Common

  const MAX_EMPTY_READS := 100

  /** The input still to come, and the error after it.  Data and error may come together
      or apart, and reads may be empty, at most `patience` times in a row. */
  class Source {
    var rest: seq<Byte>
    const last: int
    const patience: nat
    var idle: nat

    constructor (input: seq<Byte>, last: int, patience: nat)
      ensures rest == input && this.last == last && this.patience == patience && idle == 0
    {
      rest, this.last, this.patience, idle := input, last, patience, 0;
    }

    method Read(max: nat) returns (chunk: seq<Byte>, err: Option<int>)
      requires max > 0 && idle <= patience
      modifies this
      ensures chunk + rest == old(rest) && |chunk| <= max
      ensures err.Some? ==> rest == [] && err.value == last
      ensures idle == (if chunk == [] && err.None? then old(idle) + 1 else 0) <= patience
    {
      var k: nat :| k <= max && k <= |rest| && (k == 0 && rest != [] ==> idle < patience);
      var withError: bool :| withError ==> k == |rest|;
      if k == 0 && rest == [] && idle == patience { withError := true; }
      chunk := rest[..k];
      rest := rest[k..];
      err := if withError then Some(last) else None;
      idle := if k == 0 && !withError then idle + 1 else 0;
    }
  }
}
