# golang-course-utils in Dafny

A model of the two core parts of the `golang-course-utils` Go library, with
proofs about both:

- **`redisutil`**: the namespaced cache façade. A `Redis` handle holds an
  immutable key prefix and a client of a shared key-value store. It rewrites
  every caller key to `prefix + key` before the key reaches the store, and it
  adds emptiness checks, integer and JSON reads, existence tests, a bulk
  delete and a scan-then-delete pattern delete on top of that. The remote
  keyspace is the class `RedisUtil.Store`, whose `data: map<string, string>`
  the SET, INCRBY and DEL commands update in place. `RedisUtil.Redis` has
  `const prefix` and `const client: Store`. Its methods change `client.data`,
  and each one's `ensures` gives the new map in terms of the old one.
- **`methods`**: the integer, slice, bit-mask and string helpers. The loop-based
  helpers are methods with loop invariants. Each one is either proved equal to
  a reference function or given a postcondition that states the result
  outright. Lemmas state what the source promises about the reference
  functions: round trips, order, no duplicates and bounds.

Files and modules:

| file | module | models |
|---|---|---|
| `wrappers.dfy` | `Wrappers` | `Option` and `Result` |
| `gostrconv.dfy` | `GoStrconv` | Go's `strconv.Itoa`/`Atoi` on 64-bit integers, with `Atoi(Itoa(x)) == x` |
| `gostrings.dfy` | `GoStrings` | `strings.Split`, `Join`, `Fields`, `HasSuffix`, `ToUpper`, `IndexByte` over ASCII |
| `slices.dfy` | `Slices` | `InArray`, `Contains`, `MaxOf`, `AbsInt64`, `Difference`, `RemoveValueFromSlice`, `Unique` |
| `intlists.dfy` | `IntLists` | `ConvertToIntSlice`, `ConvertToUintSlice`, `ConvertIntSliceToString`, `StringToIntArray` |
| `bitmask.dfy` | `BitMask` | `UintPowOfTwo`, `BitsToMask`, `MaskToBits` |
| `strutil.dfy` | `StrUtil` | `TrimSuffix`, `Chunks`, `Abbreviate` |
| `redisutil.dfy` | `RedisUtil` | the `Redis` façade over a `Store` |

Modelling choices:

- **Integers.** Where its width matters, Go's `int`/`int64` is the subset
  type `Int64` and `uint` is `Uint64`. Two's-complement wrap-around is
  written out wherever the code reaches it: `AbsInt64` of the smallest int64,
  `uint(x)` of a negative value, the doubling in `UintPowOfTwo` and the sum in
  `BitsToMask`. Some helpers do no arithmetic that could wrap: `InArray`,
  `Difference` and `Unique` take `seq<int>`, and `UintPowOfTwo`, `BitsToMask`,
  `MaskToBits` and `Chunks` take exponents, sizes and positions as `int`.
  For these, unbounded `int` only widens the input domain.
- **Atoi.** `strconv.Atoi` is modelled as `ParseInt(s, 10, 0)`. It accepts an
  optional sign and decimal digits. An out-of-range value is clamped to the
  int64 bound and reported as `ErrRange`; malformed text gives 0 and
  `ErrSyntax`.
- **Store failures.** A connection or server failure of one store command is
  an input of that command. A failed read (GET, EXISTS) is an
  `Option<string>` and changes nothing. A failed write (SET, INCRBY, DEL) is
  an `Option<Fault>`, where `Fault(reason, applied)` says whether the server
  had already applied the command when its reply was lost. The caller sees the
  same error either way. The store is left as it was, or as if the command had
  succeeded, depending on `applied`.
- **DelPattern's cursor.** The SCAN cursor of `DelPattern` is described by
  three inputs:
  - `scan`: the keys it yields, in order and possibly with repeats;
  - `scanFault`: the error that ends it, if any;
  - `delFaults`: the scan positions whose single-key DEL fails, each with its
    `Fault`. Faults are keyed by position, so a repeated key can fail on one DEL
    and succeed on another.

  The client sends MATCH only for a non-empty pattern, so a SCAN started with
  an empty prefixed pattern yields every key. `ScanMatches` is that filter.
  `FaithfulScan` states the cursor's guarantee: every yielded key passes the
  filter, and a cursor that ends without error has yielded every key that
  passes it.
- **Store semantics.** The store follows the usual Redis semantics:
  - GET of a missing key is `Nil`;
  - DEL with no key is an arity error;
  - INCRBY counts a missing key as 0, requires the canonical decimal text of
    an int64, and fails on overflow. The canonical texts are exactly the
    texts `Itoa` prints (`GoStrconv.CanonicalIffPrinted`).
- **JSON.** The JSON encoding used by `Set`, `SetStruct` and `GetStruct` is a
  parameter: `Codec<V>` with `marshal`, `unmarshal` and the zero-value test
  `isZero`.
- **Emptiness check.** The emptiness check tests the prefixed key, because
  `getKey` runs first (redisutil/redis.go:76-77). With a non-empty prefix,
  `Get("")` therefore passes the check and reaches the store, which may still
  answer `Nil` (`RedisUtil.Redis.GetKey`).
  `HasKey`, `IncBy`, `INCR`, `Del`, `DelPattern` and `SetStruct` have no such
  check.

## Model

| member | source | states |
|---|---|---|
| RedisUtil.Redis.constructor | redisutil/redis.go:35-38 | the handle keeps the given client and prefix |
| RedisUtil.Redis.GetKey | redisutil/redis.go:164-166 | the store key is the prefix followed by the caller key; it is empty only when both are |
| RedisUtil.Redis.Set | redisutil/redis.go:42-54 | empty store key or zero value: `EmptyKeyValue`, store unchanged; encoding error: that error, store unchanged; store failure: that failure, with the store unchanged or only the store key set, as the fault's `applied` says; otherwise exactly the store key is set to the encoding |
| RedisUtil.Redis.SetString | redisutil/redis.go:56-63 | empty store key or empty value: `EmptyKeyValue`, store unchanged; otherwise the store key and nothing else is set to the value; a store failure reports that failure and leaves the store unchanged or so updated, as `applied` says |
| RedisUtil.Redis.SetStruct | redisutil/redis.go:65-73 | no emptiness check; on success exactly the store key is set to the encoding; an encoding error changes nothing; a store failure leaves the store unchanged or so updated, as `applied` says |
| RedisUtil.Redis.Get | redisutil/redis.go:75-82 | `EmptyKeyValue` only when the prefixed key is empty; the stored text when the key is present, `Nil` when missing, the failure otherwise |
| RedisUtil.Redis.GetInt | redisutil/redis.go:84-96 | 0 with the read error when the read fails; otherwise `Atoi` of the stored text, with its value and its error |
| RedisUtil.Redis.GetStruct | redisutil/redis.go:97-113 | the decoding of the stored text, or the first of emptiness, read and decoding errors |
| RedisUtil.Redis.HasKey | redisutil/redis.go:115-123 | true exactly when the store answers and the prefixed key is present; failures read as false |
| RedisUtil.Redis.Exists | redisutil/redis.go:124-126 | the same answer as `HasKey` |
| RedisUtil.Redis.IncBy | redisutil/redis.go:128-131 | INCRBY of the prefixed key by the delta: the new decimal text on success; the store's not-an-integer or overflow error leaves it unchanged; a lost reply leaves it unchanged or incremented, as `applied` says |
| RedisUtil.Redis.INCR | redisutil/redis.go:132-135 | INCRBY of the prefixed key by one, with the same outcomes |
| RedisUtil.IncrOutcome | redisutil/redis.go:128-135 | a missing key counts as 0; a successful increment of a present key started from the decimal text of `result - delta`; failures happen only on a present key, as not-an-integer or overflow |
| GoStrconv.CanonicalIffPrinted | redisutil/redis.go:128-131 | the values INCRBY accepts as integers are exactly the texts `Itoa` prints for some int64 |
| RedisUtil.IncrOfPrinted | redisutil/redis.go:128-131 | incrementing the text of `x` by `delta` gives `x + delta`, or an overflow error outside the int64 range |
| RedisUtil.Redis.Del | redisutil/redis.go:137-144 | one DEL removes exactly the prefixed keys of all arguments and nothing else; no arguments is the store's arity error; a store failure removes all of them or none, as `applied` says |
| RedisUtil.StopIndex | redisutil/redis.go:150-155 | the scan position of the first failing DEL, or the scan length when none fails: every earlier position succeeds, the one at the index fails |
| RedisUtil.Redis.DelPattern | redisutil/redis.go:146-162 | the keys scanned before the first failing DEL are deleted, the failing DEL's key only if its fault was applied, and nothing else changes; the error is that DEL's, else the cursor's; with a faithful scan, keys that do not pass the scan filter (the prefixed pattern, or no filter when it is empty) are untouched and, on success, no key that passes it remains |
| RedisUtil.NamespacesDisjoint | redisutil/redis.go:164-166 | prefixes of equal length and different text never produce the same store key |
| RedisUtil.PrefixCollision | redisutil/redis.go:164-166 | prefixes of different lengths can produce the same store key ("user" and "users") |
| RedisUtil.GlobLiteralPrefix | redisutil/redis.go:146-148 | a pattern that starts with a star-free prefix matches only keys that start with that prefix |
| RedisUtil.GlobLiteralMismatch | redisutil/redis.go:146-148 | such a pattern rejects every key that does not start with the prefix |
| RedisUtil.StarPrefixEscapes | redisutil/redis.go:146-148 | a `*` inside the prefix lets `DelPattern` reach keys outside the namespace |
| RedisUtil.ReadAfterWrite | redisutil/redis.go:56-82 | after a successful `SetString`, `Get` returns the value, and only that store key changed |
| RedisUtil.StructReadAfterWrite | redisutil/redis.go:65-113 | with a codec that reads back what it writes, a successful `SetStruct` followed by `GetStruct` returns the written value, and only that store key changed; an empty store key gives `EmptyKeyValue` |
| RedisUtil.ValueReadAfterWrite | redisutil/redis.go:42-113 | the same round trip through `Set` for a non-zero value; an empty store key gives `EmptyKeyValue` and changes nothing |
| RedisUtil.IsolatedWrite | redisutil/redis.go:56-82 | a `SetString` through one handle, failed or not, never changes what a handle with a different prefix of the same length reads |
| RedisUtil.IsolatedDelPattern | redisutil/redis.go:146-166 | with a faithful scan, `DelPattern` through a handle whose prefix has no glob metacharacter (`*`, `?`, `[` or `\`) never removes a key of another handle whose prefix has the same length and different text |
| RedisUtil.EmptyPatternEmptiesStore | redisutil/redis.go:146-162 | through a handle with an empty prefix, `DelPattern("")` scans without MATCH, and a complete fault-free run empties the whole store |
| RedisUtil.DelPatternExample | redisutil/redis.go:146-162 | after setting user:1, user:2 and order:1, deleting "user:*" leaves only order:1 |
| RedisUtil.IncByExample | redisutil/redis.go:128-131 | incrementing a fresh key by 10 and then by 5 leaves "15" |
| Slices.InArray | methods/methods.go:29-42 | true exactly when the needle occurs in the slice |
| Slices.Contains | methods/methods.go:114-121 | true exactly when the item occurs in the slice |
| Slices.MaxOf | methods/methods.go:83-93 | the result is one of the arguments and at least every argument |
| Slices.AbsInt64 | methods/methods.go:95-100 | a non-negative value equal to `x` or `-x`, except that the smallest int64 stays itself |
| Slices.Difference | methods/methods.go:177-194 | the elements of `a` that are not in `b`, in order, duplicates kept |
| Slices.DifferenceMembers | methods/methods.go:177-194 | `x` is in the difference exactly when it is in `a` and not in `b` |
| Slices.WithoutCounts | methods/methods.go:177-194 | the filter keeps every copy of each kept value and no copy of a dropped one |
| Slices.WithoutIsSubsequence | methods/methods.go:177-194 | the filter result is a subsequence of its input, so order is preserved |
| Slices.RemoveValueFromSlice | methods/methods.go:348-357 | the slice without any occurrence of the value, in order |
| Slices.Unique | methods/methods.go:196-208 | the distinct values, each at its first occurrence |
| Slices.DedupElements | methods/methods.go:196-208 | `Unique` has the same elements as its input |
| Slices.DedupNoDuplicates | methods/methods.go:196-208 | `Unique` holds each value once |
| Slices.DedupFirstOccurrenceOrder | methods/methods.go:196-208 | `Unique` lists values in the order of their first occurrences |
| Slices.DedupOfDistinct | methods/methods.go:196-208 | a slice without duplicates is left as it is |
| Slices.DedupIdempotent | methods/methods.go:196-208 | `Unique` is idempotent |
| IntLists.ConvertToIntSlice | methods/methods.go:137-149 | nothing for "", else the `Atoi` value of each comma-separated field |
| IntLists.ParseIntListFields | methods/methods.go:137-149 | one entry per field; a malformed field becomes 0 |
| IntLists.ConvertToUintSlice | methods/methods.go:123-135 | the int list converted with `uint(...)` |
| IntLists.UintListMatchesIntList | methods/methods.go:123-149 | same length as the int list; non-negative values kept, negative ones wrapped by 2^64 |
| IntLists.ConvertIntSliceToString | methods/methods.go:151-159 | the decimal texts joined with commas |
| IntLists.IntListRoundTrip | methods/methods.go:137-159 | reading back the printed list gives the original list |
| IntLists.StringToIntArray | methods/methods.go:61-71 | the values of the strings `Atoi` accepts, in order; rejected strings are dropped |
| IntLists.KeepParsedShorter | methods/methods.go:61-71 | never more values than strings |
| IntLists.KeepParsedPrinted | methods/methods.go:61-71 | the decimal texts of a list of ints are all read back |
| BitMask.UintPowOfTwo | methods/methods.go:240-255 | 1 for 0, 2 for every negative exponent, else 2^p modulo 2^64 |
| BitMask.DoubleWraps | methods/methods.go:249-251 | `res *= uint64(2)` on the wrapped value agrees with doubling the exact value and then wrapping |
| BitMask.PowOfTwoExact | methods/methods.go:240-255 | below 64 the power does not wrap |
| BitMask.BitsToMask | methods/methods.go:216-226 | the sum of 2^i over the distinct positions `i < bitSize` in `bits`, modulo 2^64 |
| BitMask.MaskOfBound | methods/methods.go:216-226 | the sum stays below 2^min(n, 64), so the uint64 addition never wraps |
| BitMask.MaskStep | methods/methods.go:216-226 | one loop step: adding the wrapped power of position `i`, when `i` is in `bits`, gives the mask of the positions below `i + 1` |
| BitMask.MaskOfBit | methods/methods.go:216-226 | bit `i` of the mask is set exactly when `i < n` and `i` is in `bits` |
| BitMask.MaskToBits | methods/methods.go:228-238 | the positions below `bitSize` whose bit is set, ascending |
| BitMask.MaskRoundTrip | methods/methods.go:216-238 | reading back the mask gives the distinct positions of `bits` below `n` and below 64, ascending |
| BitMask.SelectedSpec | methods/methods.go:216-238 | that result is strictly ascending and holds exactly those positions |
| StrUtil.TrimSuffix | methods/methods.go:169-175 | with the suffix present, result + suffix is `s`; otherwise `s` itself |
| StrUtil.ChunksCut | methods/methods.go:321-325 | cutting the next piece off keeps the pieces a prefix of the string |
| StrUtil.ChunksLastPiece | methods/methods.go:310-330 | appending the rest of the string to whole chunks completes the cut: the pieces concatenate to `s`, there are `(len-1)/size+1` of them, and the last one has 1 to size characters |
| StrUtil.Chunks | methods/methods.go:310-330 | "" gives no chunks; a positive size gives chunks that concatenate to `s`, all of the size except a last one of 1 to size characters, `(len-1)/size+1` of them; size 0 panics; a negative size gives `[s]` or panics on a negative capacity |
| StrUtil.AppendPartInitials | methods/methods.go:262-268 | the inner loop appends the initials of all parts, or reports the panic on an empty part |
| StrUtil.WordPanics | methods/methods.go:262-268 | one word panics exactly when it is hyphenated and has an empty part |
| StrUtil.Abbreviate | methods/methods.go:257-274 | the loops compute the as-written initials, and report the panic |
| StrUtil.AbbreviatePanics | methods/methods.go:257-274 | the code panics exactly on a hyphenated word with an empty part |
| StrUtil.AbbreviateTrailingHyphenPanics | methods/methods.go:262-268 | `Abbreviate("x-")` panics |
| StrUtil.AbbreviateFixAgrees | methods/methods.go:257-274 | the corrected version agrees with the code wherever the code does not panic |
| StrUtil.AbbreviateInitials | methods/methods.go:257-274 | the corrected version never panics, yields no lower-case letters and gives every word at least one initial |
| StrUtil.AbbreviateInitialsTrailingHyphen | methods/methods.go:262-268 | the corrected version abbreviates "x-" to "X" |

## Left out

- `Connect` (redisutil/redis.go:23-40): dialing, the PING probe, logging and the panic on failure. The model starts from the handle that `Connect` returns (`RedisUtil.Redis.constructor`).
- Expiry: the `ttl` arguments of `Set`, `SetString` and `SetStruct` are accepted and ignored. Time-based expiry is the store's business.
- JSON encoding and Go's reflective zero-value test are parameters (`Codec<V>`), not models of `encoding/json` and `reflect`.
- RedisUtil.Redis.GetStruct: returns the decoded value instead of writing it into the caller's `outputStruct`. A decoding error that leaves the target partly written is not modelled.
- RedisUtil.IsolatedDelPattern: proved under the `*`-only glob. It requires the deleting prefix to be free of all four Redis glob metacharacters (`*`, `?`, `[`, `\`), because any of them could reach another namespace under the server's full glob.
- SCAN MATCH supports only `*`. That the client omits MATCH for an empty pattern is taken from the go-redis client library, which is not part of this model. The `?`, `[...]` and `\` escapes of Redis globs are not modelled, and SCAN's batching and cursor values are folded into the list of yielded keys.
- The store is one sequential map. Concurrent writers, atomicity and `DelPattern` racing with other clients are not modelled.
- RedisUtil.Redis.IncBy: the counter returned by INCRBY is dropped, as the code drops it. Whether the server accepts a value is modelled through canonical int64 text, a simplification of Redis's own integer parser.
- Slices.MaxOf: requires a non-empty argument list. With no arguments the code indexes `vars[0]` and panics.
- Text is ASCII, one character per byte. Unicode case mapping, Unicode spaces in `strings.Fields`, and `Chunks` counting runes are therefore not distinguished from the byte view.
- `InArray` is modelled on int slices only. Its reflection-based handling of other slice types and of non-slice arguments is not modelled.
- A nil slice and an empty slice are both the empty sequence.
- `EncryptAES`, `DecryptAES`, `CalculateVincentyDistance`, `AbsFloat64`, `Round`, `GenerateRandomStringOfLength`, `SleepForXMintue`, `RecoverPanic`, `PrettyPrint`, `MapToStruct`, `StructToStruct` and `IsEmpty` (methods/methods.go): cryptography, floating point, randomness, time, stdout and reflection. `IsEmpty` appears only as "the string is empty" on keys and values, and as the codec's zero test.
- logger/, monitor/monitor.go and main.go are not part of this model: logging, metrics middleware and a demo entry point.

## Findings

| source | as written | input that shows it | evidently intended | confidence | as-written member | corrected member |
|---|---|---|---|---|---|---|
| methods/methods.go:262-268 | a hyphenated word is split on `-` and the first byte of every part is taken, including empty parts | `Abbreviate("x-")` (also `"a--b"`): the part after the hyphen is empty and `split[j][0]` panics with index out of range | empty parts contribute no initial, so `"x-"` gives `"X"` | high, derived by proof, not executed | StrUtil.AbbreviateTrailingHyphenPanics | StrUtil.AbbreviateInitials |
