/**
 * The write path that decides its own command shape: RedisSet and
 * RedisSetJson send `SET key value` and add `PX expire` only for a positive
 * expiry.
 */
module Commands {
  import opened Store

  /** One argument of a store command. */
  datatype Arg = Text(text: string) | Number(n: int)

  /** The command a write sent and the error it returns to its caller. */
  datatype Sent = Sent(command: seq<Arg>, err: Option<Error>)

  /**
   * RedisSet: the command depends only on whether `expire` is positive, and
   * the error the store reports for it is returned as it is.
   */
  function RedisSet(key: string, value: Arg, expire: int, store: seq<Arg> -> Option<Error>): (r: Sent)
    ensures |r.command| == (if expire > 0 then 5 else 3)
    ensures r.command[..3] == [Text("SET"), Text(key), value]
    ensures expire > 0 ==> r.command[3..] == [Text("PX"), Number(expire)]
    ensures r.err == store(r.command)
  {
    if expire > 0 then
      var command := [Text("SET"), Text(key), value, Text("PX"), Number(expire)];
      var err := store(command);
      if err != None then Sent(command, err) else Sent(command, None)
    else
      var command := [Text("SET"), Text(key), value];
      var err := store(command);
      if err != None then Sent(command, err) else Sent(command, None)
  }

  /**
   * RedisSetJson: the value is first encoded by `marshal` (the JSON encoder,
   * whose error the façade ignores) and sent as its bytes.
   */
  function RedisSetJson<V>(key: string, value: V, expire: int, marshal: V -> string,
                           store: seq<Arg> -> Option<Error>): (r: Sent)
    ensures |r.command| == (if expire > 0 then 5 else 3)
    ensures r.command[..3] == [Text("SET"), Text(key), Text(marshal(value))]
    ensures expire > 0 ==> r.command[3..] == [Text("PX"), Number(expire)]
    ensures r.err == store(r.command)
  {
    var jsonData := Text(marshal(value));
    if expire > 0 then
      var command := [Text("SET"), Text(key), jsonData, Text("PX"), Number(expire)];
      var err := store(command);
      if err != None then Sent(command, err) else Sent(command, None)
    else
      var command := [Text("SET"), Text(key), jsonData];
      var err := store(command);
      if err != None then Sent(command, err) else Sent(command, None)
  }

  /** A SET request as the store reads it: key, value and optional expiry in ms. */
  datatype SetRequest = SetRequest(key: string, value: Arg, expiry: Option<int>)

  /** How the store reads `SET key value [PX ms]`. */
  function ParseSet(command: seq<Arg>): (r: Option<SetRequest>)
    ensures r.Some? ==> |command| in {3, 5} && command[0] == Text("SET")
  {
    if |command| == 3 && command[0] == Text("SET") && command[1].Text? then
      Some(SetRequest(command[1].text, command[2], None))
    else if |command| == 5 && command[0] == Text("SET") && command[1].Text?
            && command[3] == Text("PX") && command[4].Number? then
      Some(SetRequest(command[1].text, command[2], Some(command[4].n)))
    else None
  }

  /**
   * The store reads back from RedisSet's command exactly the key and value
   * given, with an expiry exactly when `expire` is positive.
   */
  lemma SetRoundTrip(key: string, value: Arg, expire: int, store: seq<Arg> -> Option<Error>)
    ensures ParseSet(RedisSet(key, value, expire, store).command)
            == Some(SetRequest(key, value, if expire > 0 then Some(expire) else None))
  {
  }

  /** RedisSetJson is RedisSet applied to the encoded bytes. */
  lemma SetJsonIsSetOfEncoding<V>(key: string, value: V, expire: int, marshal: V -> string,
                                  store: seq<Arg> -> Option<Error>)
    ensures RedisSetJson(key, value, expire, marshal, store)
            == RedisSet(key, Text(marshal(value)), expire, store)
  {
  }
}
