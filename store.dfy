/**
 * What the façade exchanges with the key-value store and hands back to its
 * callers. The store itself is not modelled: every operation receives the
 * store's reply (or a script of replies) as an input.
 */
module Store {

  datatype Option<+T> = None | Some(value: T)

  /** Go's `int64` (and `int` on the 64-bit targets the façade runs on). */
  newtype int64 = x: int | -0x8000_0000_0000_0000 <= x < 0x8000_0000_0000_0000

  /** Go's `uint64`. */
  newtype uint64 = x: int | 0 <= x < 0x1_0000_0000_0000_0000

  /**
   * The Go `error` values that reach the façade's callers. `Nil` is the
   * store client's `redis.Nil` (no such key, field or member; a blocking pop
   * that timed out); `Failure` is anything else the store or its client
   * reports (transport, protocol, a reply of the wrong type). The last two
   * are the wrappers the enumeration adds around a cause.
   */
  datatype Error =
    | Nil
    | Failure(detail: string)
    | KeysError(pattern: string, cause: Error)
    | ValueError(key: string, cause: Error)

  /** One reply of the store to one command, already decoded to type T. */
  datatype Reply<+T> = Ok(value: T) | Err(error: Error)

  /** A Go result pair `(T, error)`; `err == None` is a nil error. */
  datatype Answer<+T> = Answer(value: T, err: Option<Error>)

  /**
   * How the store client's typed accessors (`.String()`, `.Int()`, ...)
   * present a reply that needs no conversion: on an error reply the value is
   * the type's zero value.
   */
  function Unpack<T>(reply: Reply<T>, zero: T): (r: Answer<T>)
    ensures reply.Ok? ==> r == Answer(reply.value, None)
    ensures reply.Err? ==> r == Answer(zero, Some(reply.error))
  {
    match reply
    case Ok(v) => Answer(v, None)
    case Err(e) => Answer(zero, Some(e))
  }

  /**
   * The result of converting the text of a reply to a number, as Go's
   * strconv parsers give it: a value, together with the reason when the
   * text is not a number in range. On a range failure the value is the
   * bound that was exceeded, so it need not be zero.
   */
  datatype Conversion<+T> = Conversion(value: T, failure: Option<string>)

  /**
   * How `.Int()`, `.Int64()` and `.Uint64()` present the reply to GET, which
   * is text: an error reply gives the zero value and that error; a text reply
   * gives whatever the conversion gives, its failure reported as an error.
   */
  function Convert<T>(reply: Reply<string>, zero: T, convert: string -> Conversion<T>): (r: Answer<T>)
    ensures reply.Err? ==> r == Answer(zero, Some(reply.error))
    ensures reply.Ok? ==> r.value == convert(reply.value).value
    ensures reply.Ok? ==> (r.err.Some? <==> convert(reply.value).failure.Some?)
    ensures r.err.Some? && reply.Ok? ==> r.err.value.Failure?
  {
    match reply
    case Err(e) => Answer(zero, Some(e))
    case Ok(text) =>
      var c := convert(text);
      match c.failure
      case None => Answer(c.value, None)
      case Some(reason) => Answer(c.value, Some(Failure(reason)))
  }
}
