/** Java value shapes the model needs: nullable references, calls that may throw,
    and the fixed-width integer types of the JVM. */
module Outcomes {

  /** A reference that may be null: `None` stands for Java's null. */
  datatype Option<+T> = None | Some(value: T)

  /** What a call into a collaborator (the Redis client, the JSON library) produced:
      a value, or a `java.lang.Exception` carrying its message. A `java.lang.Error`
      escapes every catch in the service and has no counterpart here. */
  datatype Outcome<+T> = Ok(value: T) | Thrown(message: string)

  /** Java `int`. */
  type Int32 = x: int | -0x8000_0000 <= x < 0x8000_0000

  /** Java `long`. */
  type Int64 = x: int | -0x8000_0000_0000_0000 <= x < 0x8000_0000_0000_0000

  /** The try/catch shape most service methods share: a local initialised to a
      neutral value is overwritten by the call's value, and an exception leaves it
      at the neutral value. */
  function Recover<T>(o: Outcome<T>, neutral: T): (r: T)
    ensures o.Ok? ==> r == o.value
    ensures o.Thrown? ==> r == neutral
  {
    match o
    case Ok(v) => v
    case Thrown(_) => neutral
  }
}
