/**
 * Prefix enumeration: RedisListAllValuesWithPrefix and its two helpers.
 * getKeys pages through the keyspace with SCAN, getKeyAndValuesMap fetches
 * one value per key and files it under the key's segment after the prefix.
 *
 * The store is an oracle. The SCAN replies come from a script, consumed one
 * per call in order (the replies may depend on the calls only through the
 * script); the GET replies come from a function of the key.
 */
module Enumeration {
  import opened Store
  import opened GoStrings

  /** The page-size hint every SCAN carries. */
  const PageHint: int := 10

  /** The store's reply to one SCAN: a page of keys and the next cursor, or an error. */
  datatype ScanReply = Page(keys: seq<string>, cursor: nat) | ScanFailed(error: Error)

  /** One SCAN the façade issued: `SCAN cursor MATCH pattern COUNT count`. */
  datatype ScanCall = ScanCall(cursor: nat, pattern: string, count: int)

  /** What getKeyAndValuesMap and RedisListAllValuesWithPrefix end with. */
  datatype MapOutcome =
    | Returned(values: Option<map<string, string>>, err: Option<Error>)
    | IndexPanic(key: string)   // strings.Split(key, prefix)[1] out of range

  // ---------------------------------------------------------------------
  // getKeys
  // ---------------------------------------------------------------------

  /** A reply after which getKeys issues no further SCAN. */
  predicate Final(reply: ScanReply) {
    reply.ScanFailed? || reply.cursor == 0
  }

  /** The script ends the scan: the store eventually fails or returns cursor 0. */
  predicate Ends(script: seq<ScanReply>)
    decreases |script|
  {
    script != [] && (Final(script[0]) || Ends(script[1..]))
  }

  /** A script with a final reply at position n ends. */
  lemma {:induction false} EndsAt(script: seq<ScanReply>, n: nat)
    requires n < |script| && Final(script[n])
    ensures Ends(script)
  {
    if n > 0 {
      assert script[1..][n - 1] == script[n];
      EndsAt(script[1..], n - 1);
    }
  }

  /** The position of the reply that ends the scan. */
  function FirstFinal(script: seq<ScanReply>): (n: nat)
    requires Ends(script)
    ensures n < |script| && Final(script[n])
    ensures forall i :: 0 <= i < n ==> !Final(script[i])
  {
    if Final(script[0]) then 0
    else
      var n := FirstFinal(script[1..]);
      assert forall i :: 1 <= i < n + 1 ==> script[i] == script[1..][i - 1];
      1 + n
  }

  /** The keys of the pages among the replies, in order, duplicates kept. */
  function Flatten(replies: seq<ScanReply>): (keys: seq<string>)
  {
    if replies == [] then []
    else
      var last := replies[|replies| - 1];
      Flatten(replies[..|replies| - 1]) + (if last.Page? then last.keys else [])
  }

  /**
   * What getKeys returns for a script: every page's keys up to the page
   * with cursor 0, or no keys and the first SCAN error, wrapped with the
   * pattern.
   */
  function ScanSpec(pattern: string, script: seq<ScanReply>): (r: Answer<seq<string>>)
    requires Ends(script)
  {
    var n := FirstFinal(script);
    if script[n].ScanFailed? then Answer([], Some(KeysError(pattern, script[n].error)))
    else Answer(Flatten(script[..n + 1]), None)
  }

  /**
   * getKeys. `calls` is the sequence of SCANs issued: the first from cursor
   * 0, each later one from the cursor of the reply before it, all with the
   * pattern unchanged and the page hint 10, and none after the reply that
   * ends the scan.
   */
  method GetKeys(pattern: string, script: seq<ScanReply>) returns (r: Answer<seq<string>>, calls: seq<ScanCall>)
    requires Ends(script)
    ensures r == ScanSpec(pattern, script)
    ensures |calls| == FirstFinal(script) + 1
    ensures calls[0] == ScanCall(0, pattern, PageHint)
    ensures forall j :: 0 < j < |calls| ==> calls[j] == ScanCall(script[j - 1].cursor, pattern, PageHint)
  {
    ghost var n := FirstFinal(script);
    var allKeys: seq<string> := [];
    var cursor: nat := 0;
    var i := 0;
    calls := [];
    while true
      invariant 0 <= i <= n
      invariant allKeys == Flatten(script[..i])
      invariant cursor == if i == 0 then 0 else script[i - 1].cursor
      invariant |calls| == i
      invariant i > 0 ==> calls[0] == ScanCall(0, pattern, PageHint)
      invariant forall j :: 0 < j < i ==> calls[j] == ScanCall(script[j - 1].cursor, pattern, PageHint)
      decreases n - i
    {
      calls := calls + [ScanCall(cursor, pattern, PageHint)];
      var reply := script[i];
      if reply.ScanFailed? {
        r := Answer([], Some(KeysError(pattern, reply.error)));
        return;
      }
      assert script[..i + 1][..i] == script[..i];
      allKeys := allKeys + reply.keys;
      cursor := reply.cursor;
      if cursor == 0 {
        r := Answer(allKeys, None);
        return;
      }
      i := i + 1;
    }
  }

  /** The keys of a concatenation of replies are the concatenation of their keys. */
  lemma {:induction false} FlattenAppend(a: seq<ScanReply>, b: seq<ScanReply>)
    ensures Flatten(a + b) == Flatten(a) + Flatten(b)
    decreases |b|
  {
    if b == [] {
      assert a + b == a;
    } else {
      var b' := b[..|b| - 1];
      assert (a + b)[..|a + b| - 1] == a + b';
      var last := b[|b| - 1];
      var tail := if last.Page? then last.keys else [];
      assert (a + b)[|a + b| - 1] == last;
      FlattenAppend(a, b');
      calc {
        Flatten(a + b);
        Flatten(a + b') + tail;
        Flatten(a) + Flatten(b') + tail;
        Flatten(a) + (Flatten(b') + tail);
        Flatten(a) + Flatten(b);
      }
    }
  }

  /** The number of keys in all the pages together. */
  function PageTotal(replies: seq<ScanReply>): nat {
    if replies == [] then 0
    else PageTotal(replies[..|replies| - 1])
         + (if replies[|replies| - 1].Page? then |replies[|replies| - 1].keys| else 0)
  }

  /** Nothing is dropped or merged: one returned key per key in the pages. */
  lemma {:induction false} FlattenLength(replies: seq<ScanReply>)
    ensures |Flatten(replies)| == PageTotal(replies)
  {
    if replies != [] {
      FlattenLength(replies[..|replies| - 1]);
    }
  }

  /** Page i's keys stand, in their own order, right after those of the pages before it. */
  lemma PageInPlace(replies: seq<ScanReply>, i: nat)
    requires i < |replies| && replies[i].Page?
    ensures Flatten(replies) == Flatten(replies[..i]) + replies[i].keys + Flatten(replies[i + 1..])
  {
    var page := [replies[i]];
    assert page[..0] == [];
    assert Flatten(page) == replies[i].keys;
    assert replies == replies[..i] + page + replies[i + 1..];
    FlattenAppend(replies[..i] + page, replies[i + 1..]);
    FlattenAppend(replies[..i], page);
  }

  /** A key returned on two pages is returned twice. */
  lemma ScanKeepsDuplicates(k: string)
    ensures ScanSpec("p*", [Page([k], 7), Page([k], 0)]) == Answer([k, k], None)
  {
    var script := [Page([k], 7), Page([k], 0)];
    FirstFinalIsFirst(script, 1);
    assert script[..2] == script;
    assert script[..1] == [Page([k], 7)];
    assert script[..1][..0] == [];
    assert Flatten(script[..1]) == [k];
    assert script[..2][..1] == script[..1];
    assert Flatten(script[..2]) == [k] + [k];
    assert FirstFinal(script) == 1;
    assert ScanSpec("p*", script) == Answer(Flatten(script[..2]), None);
    assert [k] + [k] == [k, k];
    assert ScanSpec("p*", script) == Answer([k, k], None);
  }

  /** The replies after the one that ends the scan are never looked at. */
  lemma {:induction false} ScanIgnoresRestOfScript(pattern: string, script: seq<ScanReply>, more: seq<ScanReply>)
    requires Ends(script)
    ensures Ends(script + more)
    ensures ScanSpec(pattern, script + more) == ScanSpec(pattern, script)
  {
    var n := FirstFinal(script);
    var s := script + more;
    assert s[n] == script[n];
    FirstFinalIsFirst(s, n);
    assert s[..n + 1] == script[..n + 1];
  }

  /** FirstFinal is determined by its contract. */
  lemma FirstFinalIsFirst(script: seq<ScanReply>, n: nat)
    requires n < |script| && Final(script[n])
    requires forall i :: 0 <= i < n ==> !Final(script[i])
    ensures Ends(script) && FirstFinal(script) == n
  {
    EndsAt(script, n);
  }

  /** A SCAN error discards the keys of every earlier page. */
  lemma ScanFailureReturnsNoKeys(pattern: string, script: seq<ScanReply>)
    requires Ends(script) && script[FirstFinal(script)].ScanFailed?
    ensures ScanSpec(pattern, script).value == []
    ensures ScanSpec(pattern, script).err == Some(KeysError(pattern, script[FirstFinal(script)].error))
  {
  }

  // ---------------------------------------------------------------------
  // getKeyAndValuesMap
  // ---------------------------------------------------------------------

  /** A key the loop gets past: its GET succeeds and Split(key, prefix)[1] exists. */
  predicate Good(key: string, prefix: string, get: string -> Reply<string>) {
    get(key).Ok? && Segment(key, prefix).Some?
  }

  predicate AllGood(keys: seq<string>, prefix: string, get: string -> Reply<string>) {
    forall i :: 0 <= i < |keys| ==> Good(keys[i], prefix, get)
  }

  /** The position of the first key whose GET fails or whose split panics, or |keys|. */
  function FirstBad(keys: seq<string>, prefix: string, get: string -> Reply<string>): (m: nat)
    ensures m <= |keys|
    ensures forall i :: 0 <= i < m ==> Good(keys[i], prefix, get)
    ensures m < |keys| ==> !Good(keys[m], prefix, get)
  {
    if keys == [] || !Good(keys[0], prefix, get) then 0
    else
      var m := FirstBad(keys[1..], prefix, get);
      assert forall i :: 1 <= i < m + 1 ==> keys[i] == keys[1..][i - 1];
      1 + m
  }

  /** The map key a good key is filed under. */
  function Stripped(key: string, prefix: string, get: string -> Reply<string>): string
    requires Good(key, prefix, get)
  {
    Segment(key, prefix).value
  }

  /** The map built from good keys, inserting them in order. */
  function BuildMap(keys: seq<string>, prefix: string, get: string -> Reply<string>): map<string, string>
    requires AllGood(keys, prefix, get)
  {
    if keys == [] then map[]
    else
      var key := keys[|keys| - 1];
      BuildMap(keys[..|keys| - 1], prefix, get)[Stripped(key, prefix, get) := get(key).value]
  }

  /** What getKeyAndValuesMap returns. */
  function FetchSpec(keys: seq<string>, prefix: string, get: string -> Reply<string>): (r: MapOutcome)
  {
    var m := FirstBad(keys, prefix, get);
    if m == |keys| then Returned(Some(BuildMap(keys, prefix, get)), None)
    else if get(keys[m]).Err? then Returned(None, Some(ValueError(keys[m], get(keys[m]).error)))
    else IndexPanic(keys[m])
  }

  /**
   * getKeyAndValuesMap. `fetched` is the sequence of keys it issued a GET
   * for: all of them, or those up to and including the first bad one.
   */
  method GetKeyAndValuesMap(keys: seq<string>, prefix: string, get: string -> Reply<string>)
    returns (r: MapOutcome, fetched: seq<string>)
    ensures r == FetchSpec(keys, prefix, get)
    ensures var m := FirstBad(keys, prefix, get);
            fetched == if m == |keys| then keys else keys[..m + 1]
  {
    var values: map<string, string> := map[];
    fetched := [];
    for i := 0 to |keys|
      invariant forall j :: 0 <= j < i ==> Good(keys[j], prefix, get)
      invariant values == BuildMap(keys[..i], prefix, get)
      invariant fetched == keys[..i]
    {
      var key := keys[i];
      fetched := keys[..i + 1];
      var reply := get(key);
      if reply.Err? {
        FirstBadIsFirst(keys, prefix, get, i);
        r := Returned(None, Some(ValueError(key, reply.error)));
        return;
      }
      var strippedKey := Split(key, prefix);
      if |strippedKey| < 2 {
        FirstBadIsFirst(keys, prefix, get, i);
        r := IndexPanic(key);
        return;
      }
      BuildMapStep(keys, prefix, get, i);
      values := values[strippedKey[1] := reply.value];
    }
    FirstBadIsFirst(keys, prefix, get, |keys|);
    assert keys[..|keys|] == keys;
    r := Returned(Some(values), None);
  }

  /** FirstBad is determined by its contract. */
  lemma FirstBadIsFirst(keys: seq<string>, prefix: string, get: string -> Reply<string>, m: nat)
    requires m <= |keys|
    requires forall i :: 0 <= i < m ==> Good(keys[i], prefix, get)
    requires m < |keys| ==> !Good(keys[m], prefix, get)
    ensures FirstBad(keys, prefix, get) == m
  {
  }

  /** One more good key: the map gains its entry. */
  lemma BuildMapStep(keys: seq<string>, prefix: string, get: string -> Reply<string>, i: nat)
    requires i < |keys| && forall j :: 0 <= j <= i ==> Good(keys[j], prefix, get)
    ensures AllGood(keys[..i], prefix, get) && AllGood(keys[..i + 1], prefix, get)
    ensures BuildMap(keys[..i + 1], prefix, get)
            == BuildMap(keys[..i], prefix, get)[Segment(keys[i], prefix).value := get(keys[i]).value]
  {
    assert keys[..i + 1][..i] == keys[..i];
    assert forall j :: 0 <= j < i + 1 ==> keys[..i + 1][j] == keys[j];
  }

  /** Key i is the last of the keys filed under its map key. */
  predicate IsLast(keys: seq<string>, prefix: string, get: string -> Reply<string>, i: nat)
    requires AllGood(keys, prefix, get) && i < |keys|
  {
    forall j :: i < j < |keys| ==> Stripped(keys[j], prefix, get) != Stripped(keys[i], prefix, get)
  }

  /** The map keys the good keys are filed under. */
  function StrippedKeys(keys: seq<string>, prefix: string, get: string -> Reply<string>): set<string>
    requires AllGood(keys, prefix, get)
  {
    set i | 0 <= i < |keys| :: Stripped(keys[i], prefix, get)
  }

  /**
   * The reference description of the result map: its keys are the stripped
   * keys, and each holds the value of the LAST key stripped to it.
   */
  predicate LastWins(keys: seq<string>, prefix: string, get: string -> Reply<string>, values: map<string, string>)
    requires AllGood(keys, prefix, get)
  {
    && values.Keys == StrippedKeys(keys, prefix, get)
    && forall i :: 0 <= i < |keys| && IsLast(keys, prefix, get, i) ==>
         values[Stripped(keys[i], prefix, get)] == get(keys[i]).value
  }

  lemma AllGoodPrefix(keys: seq<string>, prefix: string, get: string -> Reply<string>, n: nat)
    requires AllGood(keys, prefix, get) && n <= |keys|
    ensures AllGood(keys[..n], prefix, get)
  {
    forall i | 0 <= i < n ensures Good(keys[..n][i], prefix, get) {
      assert keys[..n][i] == keys[i];
    }
  }

  /** Adding one key adds its stripped key. */
  lemma StrippedKeysSnoc(keys: seq<string>, prefix: string, get: string -> Reply<string>)
    requires AllGood(keys, prefix, get) && keys != []
    ensures AllGood(keys[..|keys| - 1], prefix, get)
    ensures StrippedKeys(keys, prefix, get)
            == StrippedKeys(keys[..|keys| - 1], prefix, get) + {Stripped(keys[|keys| - 1], prefix, get)}
  {
    var n := |keys| - 1;
    var init := keys[..n];
    AllGoodPrefix(keys, prefix, get, n);
    forall x | x in StrippedKeys(keys, prefix, get)
      ensures x in StrippedKeys(init, prefix, get) + {Stripped(keys[n], prefix, get)}
    {
      var i :| 0 <= i < |keys| && Stripped(keys[i], prefix, get) == x;
      if i < n {
        assert init[i] == keys[i];
      }
    }
    forall x | x in StrippedKeys(init, prefix, get)
      ensures x in StrippedKeys(keys, prefix, get)
    {
      var i :| 0 <= i < |init| && Stripped(init[i], prefix, get) == x;
      assert init[i] == keys[i];
    }
  }

  /** The keys of the built map are the stripped keys. */
  lemma {:induction false} BuildMapKeys(keys: seq<string>, prefix: string, get: string -> Reply<string>)
    requires AllGood(keys, prefix, get)
    ensures BuildMap(keys, prefix, get).Keys == StrippedKeys(keys, prefix, get)
  {
    if keys != [] {
      StrippedKeysSnoc(keys, prefix, get);
      BuildMapKeys(keys[..|keys| - 1], prefix, get);
    }
  }

  /** The last key filed under a map key sets its value. */
  lemma {:induction false} BuildMapValues(keys: seq<string>, prefix: string, get: string -> Reply<string>, i: nat)
    requires AllGood(keys, prefix, get) && i < |keys| && IsLast(keys, prefix, get, i)
    ensures Stripped(keys[i], prefix, get) in BuildMap(keys, prefix, get)
    ensures BuildMap(keys, prefix, get)[Stripped(keys[i], prefix, get)] == get(keys[i]).value
  {
    var n := |keys| - 1;
    if i < n {
      var init := keys[..n];
      AllGoodPrefix(keys, prefix, get, n);
      assert init[i] == keys[i];
      assert Stripped(keys[n], prefix, get) != Stripped(keys[i], prefix, get);
      assert IsLast(init, prefix, get, i) by {
        forall j | i < j < |init|
          ensures Stripped(init[j], prefix, get) != Stripped(init[i], prefix, get)
        {
          assert init[j] == keys[j];
        }
      }
      BuildMapValues(init, prefix, get, i);
    }
  }

  /** Inserting the keys in order yields the map that LastWins describes. */
  lemma BuildMapLastWins(keys: seq<string>, prefix: string, get: string -> Reply<string>)
    requires AllGood(keys, prefix, get)
    ensures LastWins(keys, prefix, get, BuildMap(keys, prefix, get))
  {
    BuildMapKeys(keys, prefix, get);
    forall i | 0 <= i < |keys| && IsLast(keys, prefix, get, i)
      ensures BuildMap(keys, prefix, get)[Stripped(keys[i], prefix, get)] == get(keys[i]).value
    {
      BuildMapValues(keys, prefix, get, i);
    }
  }

  /** Every key has a last key filed under the same map key. */
  lemma {:induction false} HasLast(keys: seq<string>, prefix: string, get: string -> Reply<string>, i: nat)
    returns (k: nat)
    requires AllGood(keys, prefix, get) && i < |keys|
    ensures i <= k < |keys| && IsLast(keys, prefix, get, k)
    ensures Stripped(keys[k], prefix, get) == Stripped(keys[i], prefix, get)
    decreases |keys| - i
  {
    if IsLast(keys, prefix, get, i) {
      k := i;
    } else {
      var j :| i < j < |keys| && Stripped(keys[j], prefix, get) == Stripped(keys[i], prefix, get);
      k := HasLast(keys, prefix, get, j);
    }
  }

  /** LastWins describes exactly one map. */
  lemma LastWinsIsUnique(keys: seq<string>, prefix: string, get: string -> Reply<string>,
                         a: map<string, string>, b: map<string, string>)
    requires AllGood(keys, prefix, get)
    requires LastWins(keys, prefix, get, a) && LastWins(keys, prefix, get, b)
    ensures a == b
  {
    forall x | x in a ensures a[x] == b[x] {
      var i :| 0 <= i < |keys| && Stripped(keys[i], prefix, get) == x;
      var k := HasLast(keys, prefix, get, i);
    }
  }

  /** With no keys, the result is an empty, non-nil map and no error. */
  lemma FetchOfNoKeys(prefix: string, get: string -> Reply<string>)
    ensures FetchSpec([], prefix, get) == Returned(Some(map[]), None)
  {
  }

  /**
   * getKeyAndValuesMap fails as a unit: it returns a map exactly when it
   * returns no error, and then the map is the one LastWins describes.
   */
  lemma FetchIsAllOrNothing(keys: seq<string>, prefix: string, get: string -> Reply<string>)
    ensures var r := FetchSpec(keys, prefix, get);
            r.Returned? ==> (r.values.Some? <==> r.err.None?)
    ensures var r := FetchSpec(keys, prefix, get);
            r.Returned? && r.values.Some? ==>
              AllGood(keys, prefix, get) && LastWins(keys, prefix, get, r.values.value)
  {
    if FirstBad(keys, prefix, get) == |keys| {
      BuildMapLastWins(keys, prefix, get);
    }
  }

  // ---------------------------------------------------------------------
  // RedisListAllValuesWithPrefix
  // ---------------------------------------------------------------------

  /** What RedisListAllValuesWithPrefix returns, as written: a failed GET is reported as success. */
  function ListSpec(prefix: string, script: seq<ScanReply>, get: string -> Reply<string>): (r: MapOutcome)
    requires Ends(script)
  {
    var keys := ScanSpec(prefix + "*", script);
    if keys.err.Some? then Returned(None, keys.err)
    else match FetchSpec(keys.value, prefix, get)
      case Returned(values, _) => Returned(values, None)
      case IndexPanic(key) => IndexPanic(key)
  }

  /** RedisListAllValuesWithPrefix, as written. */
  method RedisListAllValuesWithPrefix(prefix: string, script: seq<ScanReply>, get: string -> Reply<string>)
    returns (r: MapOutcome, calls: seq<ScanCall>)
    requires Ends(script)
    ensures r == ListSpec(prefix, script, get)
    ensures |calls| == FirstFinal(script) + 1
    ensures calls[0] == ScanCall(0, prefix + "*", PageHint)
    ensures forall j :: 0 < j < |calls| ==> calls[j].pattern == prefix + "*"
  {
    var keys;
    keys, calls := GetKeys(prefix + "*", script);
    if keys.err != None {
      return Returned(None, keys.err), calls;
    }
    var values, _ := GetKeyAndValuesMap(keys.value, prefix, get);
    // the error of getKeyAndValuesMap is not looked at
    match values
    case Returned(v, _) => r := Returned(v, None);
    case IndexPanic(key) => r := IndexPanic(key);
  }

  /**
   * The error of a failed GET is lost: the caller receives a nil map with a
   * nil error, which it cannot tell from nothing at all.
   */
  lemma ListDropsValueError(prefix: string, script: seq<ScanReply>, get: string -> Reply<string>)
    requires Ends(script)
    requires ScanSpec(prefix + "*", script).err.None?
    requires FetchSpec(ScanSpec(prefix + "*", script).value, prefix, get).Returned?
    requires FetchSpec(ScanSpec(prefix + "*", script).value, prefix, get).err.Some?
    ensures ListSpec(prefix, script, get) == Returned(None, None)
  {
  }

  /** A store that is down for GET: one key found, its value not readable. */
  function DownForGet(key: string): Reply<string> { Err(Failure("connection refused")) }

  /** A concrete run where the GET fails and the caller is told nothing. */
  lemma ListDropsValueErrorExample()
    ensures ListSpec("user:", [Page(["user:1"], 0)], DownForGet) == Returned(None, None)
    ensures FetchSpec(["user:1"], "user:", DownForGet)
            == Returned(None, Some(ValueError("user:1", Failure("connection refused"))))
  {
    var script := [Page(["user:1"], 0)];
    assert FirstFinal(script) == 0;
    assert script[..1] == script;
    assert Flatten(script) == Flatten(script[..0]) + ["user:1"];
    assert FirstBad(["user:1"], "user:", DownForGet) == 0;
  }

  /** RedisListAllValuesWithPrefix with the GET error returned, as evidently intended. */
  function ListSpecChecked(prefix: string, script: seq<ScanReply>, get: string -> Reply<string>): (r: MapOutcome)
    requires Ends(script)
  {
    var keys := ScanSpec(prefix + "*", script);
    if keys.err.Some? then Returned(None, keys.err)
    else FetchSpec(keys.value, prefix, get)
  }

  /** RedisListAllValuesWithPrefix, corrected to return the error of getKeyAndValuesMap. */
  method RedisListAllValuesWithPrefixChecked(prefix: string, script: seq<ScanReply>, get: string -> Reply<string>)
    returns (r: MapOutcome, calls: seq<ScanCall>)
    requires Ends(script)
    ensures r == ListSpecChecked(prefix, script, get)
    ensures |calls| == FirstFinal(script) + 1
    ensures calls[0] == ScanCall(0, prefix + "*", PageHint)
    ensures forall j :: 0 < j < |calls| ==> calls[j].pattern == prefix + "*"
  {
    var keys;
    keys, calls := GetKeys(prefix + "*", script);
    if keys.err != None {
      return Returned(None, keys.err), calls;
    }
    var values, _ := GetKeyAndValuesMap(keys.value, prefix, get);
    r := values;
  }

  /**
   * The corrected operation reports an error exactly when it returns no
   * map, and the error names the failing pattern or key.
   */
  lemma {:induction false} CheckedListReportsEveryFailure(prefix: string, script: seq<ScanReply>, get: string -> Reply<string>)
    requires Ends(script)
    ensures var r := ListSpecChecked(prefix, script, get);
            r.Returned? ==> (r.values.None? <==> r.err.Some?)
    ensures var r := ListSpecChecked(prefix, script, get);
            r.Returned? && r.err.Some? ==> r.err.value.KeysError? || r.err.value.ValueError?
  {
    var keys := ScanSpec(prefix + "*", script);
    if keys.err.None? {
      FetchIsAllOrNothing(keys.value, prefix, get);
    }
  }

  /** The two agree on every run that does not fail, and on every SCAN failure. */
  lemma CheckedAgreesOnSuccess(prefix: string, script: seq<ScanReply>, get: string -> Reply<string>)
    requires Ends(script)
    ensures var r := ListSpecChecked(prefix, script, get);
            (r.IndexPanic? || r.values.Some? || ScanSpec(prefix + "*", script).err.Some?)
              ==> ListSpec(prefix, script, get) == r
  {
    var keys := ScanSpec(prefix + "*", script);
    if keys.err.None? {
      FetchIsAllOrNothing(keys.value, prefix, get);
    }
  }

  /** The store of the example: "user:1" holds "a" and "user:2" holds "b". */
  function UserStore(key: string): Reply<string> {
    if key == "user:1" then Ok("a") else if key == "user:2" then Ok("b") else Err(Nil)
  }

  /** Two pages of user keys give a map from user id to value. */
  lemma ListExample()
    ensures ListSpec("user:", [Page(["user:1"], 3), Page(["user:2"], 0)], UserStore)
            == Returned(Some(map["1" := "a", "2" := "b"]), None)
  {
    ExampleScan();
    ExampleFetch();
  }

  lemma ExampleScan()
    ensures Ends([Page(["user:1"], 3), Page(["user:2"], 0)])
    ensures ScanSpec("user:*", [Page(["user:1"], 3), Page(["user:2"], 0)]) == Answer(["user:1", "user:2"], None)
  {
    var script := [Page(["user:1"], 3), Page(["user:2"], 0)];
    FirstFinalIsFirst(script, 1);
    assert script[..2] == script;
    assert script[..1] == [Page(["user:1"], 3)];
    assert Flatten(script[..1]) == ["user:1"];
    assert Flatten(script) == ["user:1", "user:2"];
  }

  lemma ExampleFetch()
    ensures FetchSpec(["user:1", "user:2"], "user:", UserStore)
            == Returned(Some(map["1" := "a", "2" := "b"]), None)
  {
    var keys := ["user:1", "user:2"];
    ExampleSegments();
    assert AllGood(keys, "user:", UserStore);
    FirstBadIsFirst(keys, "user:", UserStore, 2);
    assert keys[..1] == ["user:1"];
    assert BuildMap(keys[..1], "user:", UserStore) == map["1" := "a"];
  }

  lemma ExampleSegments()
    ensures Segment("user:1", "user:") == Some("1")
    ensures Segment("user:2", "user:") == Some("2")
  {
    assert !Contains("1", "user:") && !Contains("2", "user:");
    SegmentOfPrefixedKey("user:", "1");
    SegmentOfPrefixedKey("user:", "2");
    assert "user:" + "1" == "user:1" && "user:" + "2" == "user:2";
  }
}
