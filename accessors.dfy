/**
 * The read accessors of the façade and the rule each one applies when it
 * turns the store's reply into its Go result pair. Each function takes the
 * reply the store gave to the accessor's single command (GET key, HGET key
 * field, ZRANK key member, PTTL key, TTL key, BLPOP keys... timeout).
 */
module Accessors {
  import opened Store

  // ---------------------------------------------------------------------
  // The accessors, one per function of utils/redis_api.go
  // ---------------------------------------------------------------------

  /** RedisGet: every error, Nil and real failures alike, reads as "". */
  function RedisGet(reply: Reply<string>): (r: Answer<string>)
    ensures r.err == None
    ensures reply.Ok? ==> r.value == reply.value
    ensures reply.Err? ==> r.value == ""
  {
    var Answer(value, err) := Unpack(reply, "");
    if err != None then Answer("", None) else Answer(value, None)
  }

  /**
   * RedisGetResult: only Nil is cleared; the untyped value is nil (None)
   * whenever the store did not reply with a value.
   */
  function RedisGetResult<T>(reply: Reply<T>): (r: Answer<Option<T>>)
    ensures reply.Ok? <==> r.value.Some?
    ensures reply.Ok? ==> r.value.value == reply.value
    ensures r.err.Some? <==> reply.Err? && reply.error != Nil
    ensures r.err.Some? ==> r.err.value == reply.error
  {
    var v := if reply.Ok? then Some(reply.value) else None;
    var err := if reply.Err? then Some(reply.error) else None;
    if err == Some(Nil) then Answer(v, None) else Answer(v, err)
  }

  /**
   * RedisGetInt: the reply to GET is text, converted by `convert` (Go's
   * strconv.Atoi). Nil reads as 0 with no error; any other error reply gives
   * 0 and that error; a text gives the conversion's value, with its failure
   * as the error.
   */
  function RedisGetInt(reply: Reply<string>, convert: string -> Conversion<int64>): (r: Answer<int64>)
    ensures reply.Ok? ==> r.value == convert(reply.value).value
    ensures reply.Ok? ==> r.err == if convert(reply.value).failure.Some?
                                   then Some(Failure(convert(reply.value).failure.value)) else None
    ensures reply == Err(Nil) ==> r == Answer(0, None)
    ensures reply.Err? && reply.error != Nil ==> r == Answer(0, Some(reply.error))
  {
    var Answer(v, err) := Convert(reply, 0, convert);
    if err == Some(Nil) then Answer(0, None) else Answer(v, err)
  }

  /** RedisGetInt64: the same rule as RedisGetInt, with strconv.ParseInt. */
  function RedisGetInt64(reply: Reply<string>, convert: string -> Conversion<int64>): (r: Answer<int64>)
    ensures reply.Ok? ==> r.value == convert(reply.value).value
    ensures reply.Ok? ==> r.err == if convert(reply.value).failure.Some?
                                   then Some(Failure(convert(reply.value).failure.value)) else None
    ensures reply == Err(Nil) ==> r == Answer(0, None)
    ensures reply.Err? && reply.error != Nil ==> r == Answer(0, Some(reply.error))
  {
    var Answer(v, err) := Convert(reply, 0 as int64, convert);
    if err == Some(Nil) then Answer(0, None) else Answer(v, err)
  }

  /** RedisGetUint64: the same rule, on unsigned values, with strconv.ParseUint. */
  function RedisGetUint64(reply: Reply<string>, convert: string -> Conversion<uint64>): (r: Answer<uint64>)
    ensures reply.Ok? ==> r.value == convert(reply.value).value
    ensures reply.Ok? ==> r.err == if convert(reply.value).failure.Some?
                                   then Some(Failure(convert(reply.value).failure.value)) else None
    ensures reply == Err(Nil) ==> r == Answer(0, None)
    ensures reply.Err? && reply.error != Nil ==> r == Answer(0, Some(reply.error))
  {
    var Answer(v, err) := Convert(reply, 0 as uint64, convert);
    if err == Some(Nil) then Answer(0, None) else Answer(v, err)
  }

  /** RedisPTTL: any error, Nil included, gives -1 and is returned. */
  function RedisPTTL(reply: Reply<int64>): (r: Answer<int64>)
    ensures reply.Ok? ==> r == Answer(reply.value, None)
    ensures reply.Err? ==> r == Answer(-1, Some(reply.error))
  {
    var Answer(ttl, err) := Unpack(reply, 0);
    if err != None then Answer(-1, err) else Answer(ttl, None)
  }

  /** RedisTTL: the same rule as RedisPTTL, in seconds. */
  function RedisTTL(reply: Reply<int64>): (r: Answer<int64>)
    ensures reply.Ok? ==> r == Answer(reply.value, None)
    ensures reply.Err? ==> r == Answer(-1, Some(reply.error))
  {
    var Answer(ttl, err) := Unpack(reply, 0 as int64);
    if err != None then Answer(-1 as int64, err) else Answer(ttl, None)
  }

  /**
   * RedisGetJson: like RedisGet, but the bytes are nil (None) after any
   * error, and a non-nil slice (possibly empty) otherwise.
   */
  function RedisGetJson(reply: Reply<string>): (r: Answer<Option<string>>)
    ensures r.err == None
    ensures r.value.Some? <==> reply.Ok?
    ensures reply.Ok? ==> r.value.value == reply.value
  {
    var Answer(value, err) := Unpack(reply, "");
    if err != None then Answer(None, None) else Answer(Some(value), None)
  }

  /** RedisHGet: the same rule as RedisGet, for one field of a hash. */
  function RedisHGet(reply: Reply<string>): (r: Answer<string>)
    ensures r.err == None
    ensures reply.Ok? ==> r.value == reply.value
    ensures reply.Err? ==> r.value == ""
  {
    var Answer(value, err) := Unpack(reply, "");
    if err != None then Answer("", None) else Answer(value, None)
  }

  /** RedisZRank: a missing member and every failure give -1 with no error. */
  function RedisZRank(reply: Reply<int64>): (r: Answer<int64>)
    ensures r.err == None
    ensures reply.Ok? ==> r.value == reply.value
    ensures reply.Err? ==> r.value == -1
  {
    var Answer(rank, err) := Unpack(reply, 0);
    if err == Some(Nil) then Answer(-1, None)
    else if err != None then Answer(-1, None)
    else Answer(rank, err)
  }

  /**
   * RedisBLPOP: a Nil reply (the timeout passed with nothing to pop) is a
   * success with a nil (empty) slice; every other error is returned.
   */
  function RedisBLPOP(reply: Reply<seq<string>>): (r: Answer<seq<string>>)
    ensures reply.Ok? ==> r == Answer(reply.value, None)
    ensures reply == Err(Nil) ==> r == Answer([], None)
    ensures reply.Err? && reply.error != Nil ==> r == Answer([], Some(reply.error))
  {
    var Answer(value, err) := Unpack(reply, []);
    if err == Some(Nil) then Answer(value, None) else Answer(value, err)
  }

  // ---------------------------------------------------------------------
  // The policy table: an independent description of the same rules
  // ---------------------------------------------------------------------

  /** What an accessor does with one class of error reply. */
  datatype Treatment<+U> = Treatment(value: U, keepsError: bool)

  /** An accessor's rule: one treatment for Nil, one for every other error. */
  datatype Policy<+U> = Policy(onNil: Treatment<U>, onFailure: Treatment<U>)

  /**
   * The result an accessor with the given policy gives for a reply: a value
   * is passed on through `found` (which may itself report a conversion
   * error); an error is replaced by the treatment's value and is reported
   * only if the treatment keeps it.
   */
  function Normalise<T, U>(policy: Policy<U>, found: T -> Answer<U>, reply: Reply<T>): (r: Answer<U>)
    ensures reply.Ok? ==> r == found(reply.value)
    ensures reply.Err? ==>
              var t := if reply.error == Nil then policy.onNil else policy.onFailure;
              r.value == t.value && (r.err.Some? <==> t.keepsError)
    ensures reply.Err? && r.err.Some? ==> r.err.value == reply.error
  {
    match reply
    case Ok(v) => found(v)
    case Err(e) =>
      var t := if e == Nil then policy.onNil else policy.onFailure;
      Answer(t.value, if t.keepsError then Some(e) else None)
  }

  /** A value passed on as it is. */
  function Same<T>(x: T): Answer<T> { Answer(x, None) }

  /** A value passed on as a non-nil untyped value or slice. */
  function Wrap<T>(x: T): Answer<Option<T>> { Answer(Some(x), None) }

  /** A converted text, its failure reported as an error. */
  function Reported<T>(c: Conversion<T>): Answer<T> {
    Answer(c.value, if c.failure.Some? then Some(Failure(c.failure.value)) else None)
  }

  /**
   * Every accessor follows the rule given for it in the table below, on
   * every reply. Swallow = replace and drop the error; keep = replace and
   * report the error. A value reply is passed on, converted for the numeric
   * getters of GET.
   *
   *   accessor            on Nil            on any other error
   *   RedisGet, HGet      "", swallow       "", swallow
   *   RedisGetJson        nil, swallow      nil, swallow
   *   RedisGetResult      nil, swallow      nil, keep
   *   RedisGetInt/64/U64  0, swallow        0, keep
   *   RedisZRank          -1, swallow       -1, swallow
   *   RedisBLPOP          nil, swallow      nil, keep
   *   RedisPTTL, TTL      -1, keep          -1, keep
   */
  lemma PolicyTable<T>(s: Reply<string>, t: Reply<T>, i: Reply<int64>, l: Reply<seq<string>>,
                       ci: string -> Conversion<int64>, cu: string -> Conversion<uint64>)
    ensures RedisGet(s) == Normalise(Policy(Treatment("", false), Treatment("", false)), Same, s)
    ensures RedisHGet(s) == Normalise(Policy(Treatment("", false), Treatment("", false)), Same, s)
    ensures RedisGetJson(s) == Normalise(Policy(Treatment(None, false), Treatment(None, false)), Wrap, s)
    ensures RedisGetResult(t) == Normalise(Policy(Treatment(None, false), Treatment(None, true)), Wrap, t)
    ensures RedisGetInt(s, ci)
            == Normalise(Policy(Treatment(0, false), Treatment(0, true)), x => Reported(ci(x)), s)
    ensures RedisGetInt64(s, ci)
            == Normalise(Policy(Treatment(0, false), Treatment(0, true)), x => Reported(ci(x)), s)
    ensures RedisGetUint64(s, cu)
            == Normalise(Policy(Treatment(0, false), Treatment(0, true)), x => Reported(cu(x)), s)
    ensures RedisZRank(i) == Normalise(Policy(Treatment(-1, false), Treatment(-1, false)), Same, i)
    ensures RedisBLPOP(l) == Normalise(Policy(Treatment([], false), Treatment([], true)), Same, l)
    ensures RedisPTTL(i) == Normalise(Policy(Treatment(-1, true), Treatment(-1, true)), Same, i)
    ensures RedisTTL(i) == Normalise(Policy(Treatment(-1, true), Treatment(-1, true)), Same, i)
  {
  }

  // ---------------------------------------------------------------------
  // What a caller can and cannot learn from each result
  // ---------------------------------------------------------------------

  /**
   * RedisGet and RedisHGet give a caller no way to tell an empty value, a
   * missing key and a failed store apart.
   */
  lemma GetConflatesMissingAndFailure(e: Error)
    ensures RedisGet(Err(e)) == RedisGet(Err(Nil)) == RedisGet(Ok(""))
    ensures RedisHGet(Err(e)) == RedisHGet(Err(Nil)) == RedisHGet(Ok(""))
  {
  }

  /**
   * RedisZRank gives a caller no way to tell a missing member from a failed
   * store; a rank the store did give is never confused with either, because
   * the store's ranks are never negative.
   */
  lemma ZRankConflatesMissingAndFailure(e: Error, rank: int64)
    requires rank >= 0
    ensures RedisZRank(Err(e)) == RedisZRank(Err(Nil)) == Answer(-1, None)
    ensures RedisZRank(Ok(rank)) != RedisZRank(Err(e))
  {
  }

  /**
   * The numeric getters keep the distinction the string getters lose: an
   * error is reported exactly when the store failed for a reason other than
   * a missing key, or the text did not convert; a zero with no error means
   * "zero or missing".
   */
  lemma NumericGettersReportRealFailures(reply: Reply<string>, convert: string -> Conversion<int64>)
    ensures RedisGetInt64(reply, convert).err.Some? <==>
              (reply.Err? && reply.error != Nil) || (reply.Ok? && convert(reply.value).failure.Some?)
    ensures RedisGetInt64(reply, convert) == Answer(0, None) <==>
              reply == Err(Nil) || (reply.Ok? && convert(reply.value) == Conversion(0, None))
  {
  }

  /**
   * A text out of range is not reported as 0: the caller receives the
   * conversion's own value (strconv's clamped bound) together with the error.
   */
  lemma ConversionFailureKeepsItsValue(text: string, convert: string -> Conversion<int64>)
    requires convert(text).failure.Some?
    ensures RedisGetInt64(Ok(text), convert)
            == Answer(convert(text).value, Some(Failure(convert(text).failure.value)))
  {
  }

  /**
   * A TTL of -1 is ambiguous only together with its error: with no error it
   * is the store's own -1 (a key without an expiry), with one it is the
   * sentinel for a failed query.
   */
  lemma TtlSentinelComesWithItsError(reply: Reply<int64>)
    ensures RedisPTTL(reply).err.None? <==> reply.Ok?
    ensures RedisPTTL(reply).value == -1 && RedisPTTL(reply).err.None? ==> reply == Ok(-1)
  {
  }
}
