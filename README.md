# Redis façade: a Dafny model

`utils/redis_api.go` is a thin façade over a Redis client. Most of its functions send one
command and pass the reply on. A few of them decide something themselves, and this project
models those parts and proves properties about them:

- **Prefix enumeration.** `RedisListAllValuesWithPrefix` pages through the keyspace with
  `SCAN` (`getKeys`). It then fetches every key's value with `GET` and files it under the
  key's text after the prefix (`getKeyAndValuesMap`).
- **Reply normalisation.** Each read accessor (`RedisGet`, `RedisGetResult`, the integer
  getters, `RedisHGet`, `RedisGetJson`, `RedisZRank`, `RedisBLPOP`, `RedisPTTL`, `RedisTTL`)
  turns the store's reply into its Go `(value, error)` pair. Each one treats a missing key
  (`redis.Nil`) and a real failure in its own way.
- **Write shape.** `RedisSet` and `RedisSetJson` add `PX expire` only for a positive expiry,
  and return the store's error unchanged.

The store is not modelled. An operation receives the store's replies as an input:

- a scalar accessor gets its one reply;
- a write gets a function from the command to its error;
- `getKeys` gets a script of `SCAN` replies, consumed one per call;
- `getKeyAndValuesMap` gets `GET` as a function of the key.

The files:

- `store.dfy` (`Store`) holds the shared vocabulary:
  - `Error`, where `Nil` stands for `redis.Nil` and `KeysError`/`ValueError` for the two wrappers the enumeration adds;
  - `Reply<T>`, one decoded reply;
  - `Answer<T>`, a Go result pair;
  - the integer types `int64` and `uint64`;
  - `Conversion<T>`, the value and optional failure that Go's strconv parsers give for the text of a reply. On a range failure the value is the bound that was exceeded, not 0.
- `accessors.dfy` (`Accessors`) holds one function per read accessor. It also holds a policy
  table that describes every accessor a second time, independently, as (value, keep or drop
  the error) for `redis.Nil` and for other errors. A lemma proves the two descriptions agree.
- `commands.dfy` (`Commands`) holds `RedisSet` and `RedisSetJson`. It also holds the store's
  reading of a `SET` command, so that the command can be checked by a round trip.
- `go_strings.dfy` (`GoStrings`) holds Go's `strings.Index` and `strings.Split`, and
  `Segment`, which is the value of `strings.Split(key, prefix)[1]` or a panic.
- `enumeration.dfy` (`Enumeration`) holds `getKeys`, `getKeyAndValuesMap` and
  `RedisListAllValuesWithPrefix`:
  - each is a method proved against a specification function (`ScanSpec`, `FetchSpec`, `ListSpec`); the first two have the source's loops, and the third calls them in sequence;
  - they carry the trace of the commands they issue as an extra result;
  - a declarative description of the result map (`LastWins`: the last key filed under a map key sets its value) comes with proofs that `FetchSpec` meets it and that it determines the map.

The comment at utils/redis_api.go:350 says the prefix is stripped off the key. The code at
line 352 takes element 1 of `strings.Split(key, prefix)` instead. That element is the text
between the first and the second occurrence of the prefix, and the code panics when the
prefix does not occur at all. The model follows the code. `GoStrings.SegmentIsTextBetweenOccurrences` and
`GoStrings.SegmentStopsAtSecondOccurrence` state the difference.

## Model

| member | source | states |
|---|---|---|
| Accessors.RedisGet | utils/redis_api.go:60-67 | No error is ever returned. A value reply is returned as it is; `redis.Nil` and every failure read as `""`. |
| Accessors.RedisGetResult | utils/redis_api.go:69-75 | The untyped value is present exactly when the store replied with a value; the error is returned exactly when it is not `redis.Nil`, and unchanged. |
| Accessors.RedisGetInt | utils/redis_api.go:77-83 | A text reply gives the conversion's own value, with its failure, if any, as the error. `redis.Nil` gives 0 with no error. Any other error reply gives 0 with that error. |
| Accessors.RedisGetInt64 | utils/redis_api.go:85-91 | The same three cases as `RedisGetInt`, on `int64`. |
| Accessors.RedisGetUint64 | utils/redis_api.go:93-99 | The same three cases, on `uint64`. |
| Accessors.RedisPTTL | utils/redis_api.go:119-126 | A value is passed on with no error. Every error, `redis.Nil` included, gives -1 and is returned. |
| Accessors.RedisTTL | utils/redis_api.go:128-135 | The same rule as `RedisPTTL`. |
| Accessors.RedisGetJson | utils/redis_api.go:156-163 | No error is ever returned. The bytes are non-nil exactly when the store replied with a value, and are that value. |
| Accessors.RedisHGet | utils/redis_api.go:173-180 | The same rule as `RedisGet`, for one hash field. |
| Accessors.RedisZRank | utils/redis_api.go:206-218 | No error is ever returned. A rank is passed on; `redis.Nil` and every failure give -1. |
| Accessors.RedisBLPOP | utils/redis_api.go:258-270 | A value is passed on. `redis.Nil` (timeout) gives a nil slice and no error. Any other error gives a nil slice with that error. |
| Accessors.PolicyTable | utils/redis_api.go:60-270 | Every accessor equals the generic normalisation driven by its row of the policy table, on every reply. |
| Accessors.GetConflatesMissingAndFailure | utils/redis_api.go:60-67 | `RedisGet` and `RedisHGet` give a failure, a missing key and an empty value the same result. |
| Accessors.ZRankConflatesMissingAndFailure | utils/redis_api.go:206-218 | A missing member and a failure both give (-1, nil). A real, non-negative rank is never confused with them. |
| Accessors.NumericGettersReportRealFailures | utils/redis_api.go:85-91 | An error is returned if and only if the store failed for a reason other than `redis.Nil`, or the text did not convert. (0, nil) means exactly: a text that converts to 0, or missing. |
| Accessors.ConversionFailureKeepsItsValue | utils/redis_api.go:86-90 | A text that fails to convert is returned with the conversion's value (for a range failure, strconv's clamped bound), not with 0. |
| Accessors.TtlSentinelComesWithItsError | utils/redis_api.go:119-126 | No error if and only if the store replied. -1 with no error can only be the store's own -1. |
| Commands.RedisSet | utils/redis_api.go:38-54 | The command is `SET key value`, plus `PX expire` exactly when `expire > 0`. The error returned is the store's error for that command. |
| Commands.RedisSetJson | utils/redis_api.go:137-154 | The same shape, with the JSON encoding of the value as the value. |
| Commands.SetRoundTrip | utils/redis_api.go:38-54 | The store reads back the given key and value from the command, and an expiry exactly when `expire > 0`. |
| Commands.SetJsonIsSetOfEncoding | utils/redis_api.go:137-154 | `RedisSetJson` is `RedisSet` applied to the encoded value. |
| GoStrings.Split | utils/redis_api.go:351 | `strings.Split` with an empty separator gives one piece per rune. With a non-empty separator it always gives at least one piece. |
| GoStrings.SegmentAfterFirst | utils/redis_api.go:351-352 | Element 1 of the split (the map key) is the first piece of the text after the first occurrence of the prefix. |
| GoStrings.SplitJoin | utils/redis_api.go:351 | Joining the pieces of `strings.Split(s, sep)` with `sep` gives back `s`, for every `sep`, the empty one included. |
| GoStrings.SplitPiecesAreFree | utils/redis_api.go:351 | With a non-empty separator, no piece contains the separator. |
| GoStrings.SegmentExists | utils/redis_api.go:351-352 | Element 1 exists, and the index does not panic, exactly when a non-empty prefix occurs in the key, or the key has at least two runes when the prefix is empty. |
| GoStrings.SegmentIsTextBetweenOccurrences | utils/redis_api.go:351-352 | The map key starts right after the first occurrence of the prefix. It contains no prefix, and no occurrence of the prefix starts inside it. It ends at the next occurrence or at the end of the key. |
| GoStrings.SegmentOfRepeatedPrefix | utils/redis_api.go:351-352 | `"aaaaa"` with the overlapping prefix `"aa"` is filed under the empty string. |
| GoStrings.SegmentOfPrefixedKey | utils/redis_api.go:350-352 | A key made of the prefix and a text that does not contain it is filed under exactly that text. |
| GoStrings.SegmentStopsAtSecondOccurrence | utils/redis_api.go:351-352 | `"u:1u:2"` with prefix `"u:"` is filed under `"1"`, not under `"1u:2"`. |
| GoStrings.SegmentOfEmptyPrefix | utils/redis_api.go:351-352 | With an empty prefix, the map key is the key's second rune, and the code panics for keys shorter than two runes. |
| Enumeration.GetKeys | utils/redis_api.go:317-339 | The result is `ScanSpec`: the pages' keys in order, up to the reply with cursor 0, or no keys and the SCAN error wrapped with the pattern. The first SCAN starts at cursor 0, each later one at the previous reply's cursor, always with the same pattern and count 10, and none comes after the final reply. |
| Enumeration.FlattenLength | utils/redis_api.go:330 | Appending the pages drops and merges nothing: the result has one key per key on the pages. |
| Enumeration.PageInPlace | utils/redis_api.go:330 | Each page's keys appear in their own order, right after the keys of the earlier pages. |
| Enumeration.ScanKeepsDuplicates | utils/redis_api.go:322-336 | A key returned on two pages appears twice: there is no deduplication. |
| Enumeration.ScanIgnoresRestOfScript | utils/redis_api.go:332-334 | Replies after the one with cursor 0 (or the first error) do not affect the result. |
| Enumeration.ScanFailureReturnsNoKeys | utils/redis_api.go:326-328 | A SCAN error discards the keys of every earlier page and returns the error wrapped with the pattern. |
| Enumeration.GetKeyAndValuesMap | utils/redis_api.go:342-356 | The result is `FetchSpec`. It is the error of the first failing GET, wrapped with its key, or a panic at the first key without a segment, or else the map built by inserting the keys in order. GETs are issued in order and none comes after the first bad key. |
| Enumeration.BuildMapKeys | utils/redis_api.go:344-353 | The map's keys are exactly the segments of the keys. |
| Enumeration.BuildMapValues | utils/redis_api.go:344-353 | A segment holds the value of the last key filed under it. |
| Enumeration.BuildMapLastWins | utils/redis_api.go:344-353 | The map built in order satisfies the declarative description `LastWins`. |
| Enumeration.LastWinsIsUnique | utils/redis_api.go:344-353 | `LastWins` describes exactly one map. |
| Enumeration.FetchOfNoKeys | utils/redis_api.go:342-356 | No keys give an empty, non-nil map and no error. |
| Enumeration.FetchIsAllOrNothing | utils/redis_api.go:345-348 | A map is returned if and only if no error is, and then it is the `LastWins` map. A failure never yields a partial map. |
| Enumeration.RedisListAllValuesWithPrefix | utils/redis_api.go:303-314 | The result is `ListSpec`: the keys of `prefix*` are enumerated, a SCAN error is returned, and a GET error is dropped. Every SCAN uses the pattern `prefix` followed by `*`. |
| Enumeration.ListDropsValueError | utils/redis_api.go:311-313 | When a GET fails, the caller receives a nil map with a nil error. |
| Enumeration.ListDropsValueErrorExample | utils/redis_api.go:311-313 | One found key whose GET fails: `getKeyAndValuesMap` reports the error, and `RedisListAllValuesWithPrefix` returns (nil, nil). |
| Enumeration.RedisListAllValuesWithPrefixChecked | utils/redis_api.go:303-314 | The same enumeration, with the error of `getKeyAndValuesMap` returned. |
| Enumeration.CheckedListReportsEveryFailure | utils/redis_api.go:303-314 | The corrected operation returns an error if and only if it returns no map, and the error is a wrapped SCAN error or a wrapped GET error. |
| Enumeration.CheckedAgreesOnSuccess | utils/redis_api.go:303-314 | The corrected and the as-written operation agree except on a GET failure. |
| Enumeration.ListExample | utils/redis_api.go:303-356 | Two pages `user:1` and `user:2`, holding `a` and `b`, give the map `{"1": "a", "2": "b"}`. |

## Left out

- Connection setup, the client's options and the start-up ping (`NewClient`, `init`) are left out: they configure I/O.
- Logging is left out: it does not affect results.
- The pass-through operations are left out, because each returns the store's reply unchanged: `RedisKeyExists`, `RedisExpire`, `RedisDel`, `RedisHSet`, `RedisHDel`, `RedisZAdd`, `RedisZRange`, `RedisZRangeWithScores`, `RedisZRem`, `RedisRPUSH`, `RedisLLEN`, `RedisLRange`, `RedisKeys`, `RedisBatchDel`, `RedisMset`.
- `RedisGetFloat64` is left out: it involves floating point. It follows the same rule as `RedisGetInt64`.
- The store's own behaviour is not modelled: which keys match a pattern, how cursors advance, and whether SCAN complete-iteration guarantees hold.
  - SCAN replies are an arbitrary script; GET replies are an arbitrary function of the key.
  - Keys changing between the SCAN and the GET are not modelled.
- Enumeration.GetKeys: requires a script that eventually fails or returns cursor 0, because the source loops forever otherwise. A store that never ends the scan is not modelled.
- Enumeration.GetKeys: the cursor is a natural number, not a 64-bit unsigned integer. The source only compares it with 0 and sends it back.
- Commands.RedisSetJson: the JSON encoder is a parameter, from values to strings. A failing encoding, whose error the source discards, is whatever string that function returns.
- Commands.RedisSet: the value is a text or an integer argument. The client's formatting of other Go values is not modelled.
- Accessors.RedisGetInt: Go's `int` is modelled as `int64`, its width on 64-bit targets.
- Accessors.RedisGetInt: which texts Go's strconv accepts, and the value it gives with a failure, are not modelled. The conversion is a parameter, and the getters promise only what it yields (the same holds for `RedisGetInt64` and `RedisGetUint64`).
- Accessors.RedisBLPOP: the timeout and the keys only shape the command, so the model starts from the reply.
- The texts of the error messages are not modelled; the wrappers record the pattern or key and the cause.
- Strings are sequences of runes. For a non-empty separator, `strings.Split` on runes gives the same pieces as Go's byte-wise split of valid UTF-8. Invalid UTF-8 is not modelled.

## Findings

| source | as written | input that shows it | evidently intended | confidence | as-written member | corrected member |
|---|---|---|---|---|---|---|
| utils/redis_api.go:311-313 | The error of `getKeyAndValuesMap` is assigned and never returned. When a GET fails, the caller gets a nil map and a nil error. | Pattern `user:*` finds `user:1`, and its GET fails with a connection error: the result is (nil, nil). | Return that error, wrapped with the failing key, as the SCAN error is returned at lines 306-308. | high (not executed) | Enumeration.ListDropsValueErrorExample | Enumeration.CheckedListReportsEveryFailure |
