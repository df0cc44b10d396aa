/**
 Shared vocabulary of the directory service: nullable values, the exceptions
 the services throw, identifiers and dates.
 */
module Common {

  /** A nullable reference or nullable value type (`T?`): `None` is `null`. */
  datatype Option<+T> = None | Some(value: T)

  /** The exceptions the services throw. `ArgumentNullException` is a subclass
      of `ArgumentException`; `InvalidOperation` is what `First` throws when
      nothing matches. */
  datatype Failure = ArgumentNullException | ArgumentException | InvalidOperationException {
    /** True when a `catch (ArgumentException)` handler catches this failure. */
    predicate IsArgumentException() {
      ArgumentNullException? || ArgumentException?
    }
  }

  /** The outcome of a call that either returns a value or throws. */
  datatype Result<+T> = Ok(value: T) | Err(error: Failure)

  /** A `Guid`; `Empty` (all zero bits) is the default value. */
  datatype Guid = Guid(bits: nat)

  const Empty: Guid := Guid(0)

  /** A `DateTime` at day resolution: the number of days since a fixed epoch. */
  type Date = int

  /** `string.IsNullOrEmpty`. */
  predicate IsNullOrEmpty(s: Option<string>) {
    s.None? || s.value == []
  }

  /** The largest `bits` in `ids`, or 0 for none. */
  function MaxBits(ids: seq<Guid>): (m: nat)
    ensures forall i :: 0 <= i < |ids| ==> ids[i].bits <= m
  {
    if ids == [] then 0
    else
      var rest := MaxBits(ids[1..]);
      if ids[0].bits > rest then ids[0].bits else rest
  }

  /** An identifier that is neither `Empty` nor one of `ids`: it witnesses that
      the choice standing for `Guid.NewGuid()` can always be made. */
  function FreshGuid(ids: seq<Guid>): (g: Guid)
    ensures g != Empty && g !in ids
  {
    Guid(MaxBits(ids) + 1)
  }
}
