/**
 * The namespaced cache façade of `redisutil`: a `Redis` handle holds an
 * immutable key prefix and a client of a shared key-value store, and
 * rewrites every caller key to `prefix + key` before it reaches the store.
 *
 * The remote keyspace is the class `Store`, whose map is updated in place by
 * the commands the façade issues (SET, GET, EXISTS, INCRBY, DEL). A failure
 * of the connection or of the server for one command is an input of that
 * command (`fault`). A failed read changes nothing; a failed write says
 * whether the server applied the command before its reply was lost. The
 * SCAN cursor of `DelPattern` is likewise an input: the keys it yields,
 * whether it ends in an error, and which of its single-key DELs fail.
 */
module RedisUtil {
  import opened Wrappers
  import opened GoStrconv

  /** The errors a façade call can return. */
  datatype Error =
    | EmptyKeyValue              // errutil.ErrEmptyRedisKeyValue
    | Nil                        // redis.Nil: GET of a missing key
    | StoreFailure(reason: string) // connection or server failure of one command
    | NotAnInteger               // INCRBY on a value that is not a canonical int64
    | IncrOverflow               // INCRBY whose sum leaves the int64 range
    | WrongArity                 // DEL sent without any key
    | Parse(numErr: NumError)    // strconv.Atoi rejected the stored text
    | CodecFailure(reason: string) // json.Marshal or json.Unmarshal failed

  /**
   * The failure of one write command: the error the client reports, and
   * whether the server had applied the command all the same (a reply lost on
   * the way back).
   */
  datatype Fault = Fault(reason: string, applied: bool)

  /**
   * The JSON encoding the façade applies to values of type `V`, and Go's
   * zero-value test (`IsEmpty`) on them.
   */
  datatype Codec<!V> = Codec(
    marshal: V -> Result<string, string>,
    unmarshal: string -> Result<V, string>,
    isZero: V -> bool)

  // ---------------------------------------------------------------------------
  // The store

  /**
   * What INCRBY makes of `key` in `data`: a missing key counts as 0, a
   * present one must hold the decimal text of an int64, and the sum must stay
   * in the int64 range.
   */
  function IncrOutcome(data: map<string, string>, key: string, delta: Int64): (r: Result<Int64, Error>)
    ensures key !in data ==> r == Success(delta)
    ensures r.Success? && key in data ==> data[key] == Itoa(r.value - delta)
    ensures r.Failure? ==> key in data && (r.error == NotAnInteger || r.error == IncrOverflow)
  {
    if key !in data then Success(delta)
    else if !IsCanonicalInt64(data[key]) then Failure(NotAnInteger)
    else
      var sum := Atoi(data[key]).value + delta;
      if sum < MIN_INT64 || sum > MAX_INT64 then Failure(IncrOverflow) else Success(sum)
  }

  /** The keyspace after INCRBY: the new decimal text on success, unchanged on failure. */
  function IncrApplied(data: map<string, string>, key: string, delta: Int64): map<string, string>
  {
    match IncrOutcome(data, key, delta)
    case Success(n) => data[key := Itoa(n)]
    case Failure(_) => data
  }

  /** INCRBY on a key holding the decimal text of `x` stores `x + delta` when that sum is an int64. */
  lemma IncrOfPrinted(data: map<string, string>, key: string, x: Int64, delta: Int64)
    requires key in data && data[key] == Itoa(x)
    ensures MIN_INT64 <= x + delta <= MAX_INT64 ==> IncrOutcome(data, key, delta) == Success(x + delta)
    ensures !(MIN_INT64 <= x + delta <= MAX_INT64) ==> IncrOutcome(data, key, delta) == Failure(IncrOverflow)
  {
    AtoiItoa(x);
  }

  /** The keyspace of one logical database of the remote store. */
  class Store {
    var data: map<string, string>

    constructor ()
      ensures data == map[]
    {
      data := map[];
    }

    /** SET key value (the expiry is not modelled). */
    method Set(key: string, value: string, fault: Option<Fault>) returns (err: Option<Error>)
      modifies this
      ensures fault.Some? ==>
        err == Some(StoreFailure(fault.value.reason))
        && data == if fault.value.applied then old(data)[key := value] else old(data)
      ensures fault.None? ==> err.None? && data == old(data)[key := value]
    {
      if fault.None? || fault.value.applied {
        data := data[key := value];
      }
      if fault.Some? {
        return Some(StoreFailure(fault.value.reason));
      }
      return None;
    }

    /** GET key: the stored text, `Nil` when the key is missing, "" with any error. */
    method Get(key: string, fault: Option<string>) returns (value: string, err: Option<Error>)
      ensures fault.Some? ==> value == "" && err == Some(StoreFailure(fault.value))
      ensures fault.None? && key !in data ==> value == "" && err == Some(Nil)
      ensures fault.None? && key in data ==> value == data[key] && err.None?
    {
      if fault.Some? {
        return "", Some(StoreFailure(fault.value));
      }
      if key !in data {
        return "", Some(Nil);
      }
      return data[key], None;
    }

    /** EXISTS key: 1 or 0, and 0 with any error. */
    method Exists(key: string, fault: Option<string>) returns (n: int, err: Option<Error>)
      ensures fault.Some? ==> n == 0 && err == Some(StoreFailure(fault.value))
      ensures fault.None? ==> err.None? && (n == 1 <==> key in data) && (n == 0 <==> key !in data)
    {
      if fault.Some? {
        return 0, Some(StoreFailure(fault.value));
      }
      n := if key in data then 1 else 0;
      err := None;
    }

    /** INCRBY key delta: the new value, stored as its decimal text; 0 with any error. */
    method IncrBy(key: string, delta: Int64, fault: Option<Fault>) returns (n: Int64, err: Option<Error>)
      modifies this
      ensures fault.Some? ==>
        n == 0 && err == Some(StoreFailure(fault.value.reason))
        && data == if fault.value.applied then IncrApplied(old(data), key, delta) else old(data)
      ensures fault.None? && IncrOutcome(old(data), key, delta).Failure? ==>
        n == 0 && err == Some(IncrOutcome(old(data), key, delta).error) && data == old(data)
      ensures fault.None? && IncrOutcome(old(data), key, delta).Success? ==>
        n == IncrOutcome(old(data), key, delta).value && err.None? && data == old(data)[key := Itoa(n)]
    {
      var outcome := IncrOutcome(data, key, delta);
      if fault.Some? {
        if fault.value.applied {
          data := IncrApplied(data, key, delta);
        }
        return 0, Some(StoreFailure(fault.value.reason));
      }
      if outcome.Failure? {
        return 0, Some(outcome.error);
      }
      n := outcome.value;
      data := data[key := Itoa(n)];
      err := None;
    }

    /** DEL key...: removes every listed key; without any key the server rejects the command. */
    method Del(keys: seq<string>, fault: Option<Fault>) returns (err: Option<Error>)
      modifies this
      ensures fault.Some? ==>
        err == Some(StoreFailure(fault.value.reason))
        && data == if fault.value.applied then old(data) - (set k | k in keys) else old(data)
      ensures fault.None? && keys == [] ==> err == Some(WrongArity) && data == old(data)
      ensures fault.None? && keys != [] ==> err.None? && data == old(data) - (set k | k in keys)
    {
      if fault.Some? {
        if fault.value.applied {
          data := data - (set k | k in keys);
        }
        return Some(StoreFailure(fault.value.reason));
      }
      if keys == [] {
        return Some(WrongArity);
      }
      data := data - (set k | k in keys);
      return None;
    }
  }

  // ---------------------------------------------------------------------------
  // Key patterns and the SCAN cursor

  /** SCAN's MATCH glob restricted to `*`, which matches any run of characters; every other character matches itself. */
  predicate Glob(pattern: string, key: string)
    decreases |pattern| + |key|
  {
    if pattern == [] then key == []
    else if pattern[0] == '*' then Glob(pattern[1..], key) || (key != [] && Glob(pattern, key[1..]))
    else key != [] && key[0] == pattern[0] && Glob(pattern[1..], key[1..])
  }

  /**
   * The filter a SCAN iteration started with `pattern` applies: the client
   * sends MATCH only for a non-empty pattern, so an empty one yields every key.
   */
  predicate ScanMatches(pattern: string, key: string)
  {
    pattern == "" || Glob(pattern, key)
  }

  /**
   * The guarantee of a SCAN iteration over `data`: every yielded key passes
   * the filter; and an iteration that ends without error has yielded every
   * key that passed it throughout (here: every such key of `data`).
   */
  predicate FaithfulScan(data: map<string, string>, pattern: string, scan: seq<string>, scanFault: Option<string>)
  {
    (forall i | 0 <= i < |scan| :: ScanMatches(pattern, scan[i]))
    && (scanFault.None? ==> forall k | k in data && ScanMatches(pattern, k) :: k in scan)
  }

  /**
   * The position of the first failing DEL among the `count` DELs `DelPattern`
   * issues, where `delFaults` holds the failing positions; `count` when none fails.
   */
  function StopIndex(count: nat, delFaults: map<nat, Fault>): (n: nat)
    ensures n <= count
    ensures forall i | 0 <= i < n :: i !in delFaults
    ensures n < count ==> n in delFaults
  {
    if count == 0 then 0
    else
      var m := StopIndex(count - 1, delFaults);
      if m < count - 1 || count - 1 in delFaults then m else count
  }

  // ---------------------------------------------------------------------------
  // The façade

  class Redis {
    const prefix: string
    const client: Store

    /** The handle `Connect` returns once the store answered its liveness probe. */
    constructor (client: Store, prefix: string)
      ensures this.client == client && this.prefix == prefix
    {
      this.client := client;
      this.prefix := prefix;
    }

    /** `getKey`: the store key of a caller key; it is empty only when both prefix and key are. */
    function GetKey(key: string): (k: string)
      ensures |k| == |prefix| + |key|
      ensures k[..|prefix|] == prefix && k[|prefix|..] == key
      ensures k == "" <==> prefix == "" && key == ""
    {
      prefix + key
    }

    /**
     * `Set`: refuses an empty store key or a zero value, else stores the
     * JSON encoding of `value` under the store key.
     */
    method Set<V>(key: string, value: V, ttl: int, codec: Codec<V>, fault: Option<Fault>) returns (err: Option<Error>)
      modifies client
      ensures GetKey(key) == "" || codec.isZero(value) ==>
        err == Some(EmptyKeyValue) && client.data == old(client.data)
      ensures GetKey(key) != "" && !codec.isZero(value) && codec.marshal(value).Failure? ==>
        err == Some(CodecFailure(codec.marshal(value).error)) && client.data == old(client.data)
      ensures GetKey(key) != "" && !codec.isZero(value) && codec.marshal(value).Success? && fault.Some? ==>
        err == Some(StoreFailure(fault.value.reason))
        && client.data == if fault.value.applied then old(client.data)[GetKey(key) := codec.marshal(value).value]
                          else old(client.data)
      ensures GetKey(key) != "" && !codec.isZero(value) && codec.marshal(value).Success? && fault.None? ==>
        err.None? && client.data == old(client.data)[GetKey(key) := codec.marshal(value).value]
    {
      var k := GetKey(key);
      if k == "" || codec.isZero(value) {
        return Some(EmptyKeyValue);
      }
      var serialized := codec.marshal(value);
      if serialized.Failure? {
        return Some(CodecFailure(serialized.error));
      }
      err := client.Set(k, serialized.value, fault);
    }

    /** `SetString`: refuses an empty store key or an empty value, else stores `value` under the store key. */
    method SetString(key: string, value: string, ttl: int, fault: Option<Fault>) returns (err: Option<Error>)
      modifies client
      ensures GetKey(key) == "" || value == "" ==> err == Some(EmptyKeyValue) && client.data == old(client.data)
      ensures GetKey(key) != "" && value != "" && fault.Some? ==>
        err == Some(StoreFailure(fault.value.reason))
        && client.data == if fault.value.applied then old(client.data)[GetKey(key) := value] else old(client.data)
      ensures GetKey(key) != "" && value != "" && fault.None? ==>
        err.None? && client.data == old(client.data)[GetKey(key) := value]
    {
      var k := GetKey(key);
      if k == "" || value == "" {
        return Some(EmptyKeyValue);
      }
      err := client.Set(k, value, fault);
    }

    /** `SetStruct`: stores the JSON encoding of `value` under the store key, with no emptiness check. */
    method SetStruct<V>(key: string, value: V, ttl: int, codec: Codec<V>, fault: Option<Fault>) returns (err: Option<Error>)
      modifies client
      ensures codec.marshal(value).Failure? ==>
        err == Some(CodecFailure(codec.marshal(value).error)) && client.data == old(client.data)
      ensures codec.marshal(value).Success? && fault.Some? ==>
        err == Some(StoreFailure(fault.value.reason))
        && client.data == if fault.value.applied then old(client.data)[GetKey(key) := codec.marshal(value).value]
                          else old(client.data)
      ensures codec.marshal(value).Success? && fault.None? ==>
        err.None? && client.data == old(client.data)[GetKey(key) := codec.marshal(value).value]
    {
      var k := GetKey(key);
      var serialized := codec.marshal(value);
      if serialized.Failure? {
        return Some(CodecFailure(serialized.error));
      }
      err := client.Set(k, serialized.value, fault);
    }

    /** `Get`: the text stored under the store key; `Nil` when it is missing. */
    method Get(key: string, fault: Option<string>) returns (value: string, err: Option<Error>)
      ensures GetKey(key) == "" ==> value == "" && err == Some(EmptyKeyValue)
      ensures GetKey(key) != "" && fault.Some? ==> value == "" && err == Some(StoreFailure(fault.value))
      ensures GetKey(key) != "" && fault.None? && GetKey(key) !in client.data ==> value == "" && err == Some(Nil)
      ensures GetKey(key) != "" && fault.None? && GetKey(key) in client.data ==>
        value == client.data[GetKey(key)] && err.None?
    {
      var k := GetKey(key);
      if k == "" {
        return "", Some(EmptyKeyValue);
      }
      value, err := client.Get(k, fault);
    }

    /**
     * `GetInt`: the `Atoi` reading of the stored text. A failed read gives 0
     * and its error; a parse error gives what `Atoi` gives (0 for malformed
     * text, the clamped bound for out-of-range text).
     */
    method GetInt(key: string, fault: Option<string>) returns (n: Int64, err: Option<Error>)
      ensures GetKey(key) == "" ==> n == 0 && err == Some(EmptyKeyValue)
      ensures GetKey(key) != "" && fault.Some? ==> n == 0 && err == Some(StoreFailure(fault.value))
      ensures GetKey(key) != "" && fault.None? && GetKey(key) !in client.data ==> n == 0 && err == Some(Nil)
      ensures GetKey(key) != "" && fault.None? && GetKey(key) in client.data ==>
        var parsed := Atoi(client.data[GetKey(key)]);
        n == parsed.value && (err.None? <==> parsed.err.None?)
        && (parsed.err.Some? ==> err == Some(Parse(parsed.err.value)))
    {
      var k := GetKey(key);
      if k == "" {
        return 0, Some(EmptyKeyValue);
      }
      var str, e := client.Get(k, fault);
      if e.Some? {
        return 0, e;
      }
      var parsed := Atoi(str);
      n := parsed.value;
      err := if parsed.err.Some? then Some(Parse(parsed.err.value)) else None;
    }

    /** `GetStruct`: the JSON decoding of the text stored under the store key. */
    method GetStruct<V>(key: string, codec: Codec<V>, fault: Option<string>) returns (out: Option<V>, err: Option<Error>)
      ensures GetKey(key) == "" ==> out.None? && err == Some(EmptyKeyValue)
      ensures GetKey(key) != "" && fault.Some? ==> out.None? && err == Some(StoreFailure(fault.value))
      ensures GetKey(key) != "" && fault.None? && GetKey(key) !in client.data ==> out.None? && err == Some(Nil)
      ensures GetKey(key) != "" && fault.None? && GetKey(key) in client.data ==>
        var decoded := codec.unmarshal(client.data[GetKey(key)]);
        (decoded.Success? ==> out == Some(decoded.value) && err.None?)
        && (decoded.Failure? ==> out.None? && err == Some(CodecFailure(decoded.error)))
    {
      var k := GetKey(key);
      if k == "" {
        return None, Some(EmptyKeyValue);
      }
      var serialized, e := client.Get(k, fault);
      if e.Some? {
        return None, e;
      }
      var decoded := codec.unmarshal(serialized);
      if decoded.Failure? {
        return None, Some(CodecFailure(decoded.error));
      }
      return Some(decoded.value), None;
    }

    /** `HasKey`: whether the store key is present; any failure reads as absent. */
    method HasKey(key: string, fault: Option<string>) returns (present: bool)
      ensures present <==> fault.None? && GetKey(key) in client.data
    {
      var n, err := client.Exists(GetKey(key), fault);
      if err.Some? {
        return false;
      }
      return n == 1;
    }

    /** `Exists`: the same answer as `HasKey`. */
    method Exists(key: string, fault: Option<string>) returns (present: bool)
      ensures present <==> fault.None? && GetKey(key) in client.data
    {
      present := HasKey(key, fault);
    }

    /** `IncBy`: INCRBY of the store key by `value`; the new value itself is dropped. */
    method IncBy(key: string, value: Int64, fault: Option<Fault>) returns (err: Option<Error>)
      modifies client
      ensures fault.Some? ==>
        err == Some(StoreFailure(fault.value.reason))
        && client.data == if fault.value.applied then IncrApplied(old(client.data), GetKey(key), value)
                          else old(client.data)
      ensures fault.None? ==> match IncrOutcome(old(client.data), GetKey(key), value)
        case Failure(e) => err == Some(e) && client.data == old(client.data)
        case Success(n) => err.None? && client.data == old(client.data)[GetKey(key) := Itoa(n)]
    {
      var _, e := client.IncrBy(GetKey(key), value, fault);
      err := e;
    }

    /** `INCR`: INCRBY of the store key by one. */
    method INCR(key: string, fault: Option<Fault>) returns (err: Option<Error>)
      modifies client
      ensures fault.Some? ==>
        err == Some(StoreFailure(fault.value.reason))
        && client.data == if fault.value.applied then IncrApplied(old(client.data), GetKey(key), 1)
                          else old(client.data)
      ensures fault.None? ==> match IncrOutcome(old(client.data), GetKey(key), 1)
        case Failure(e) => err == Some(e) && client.data == old(client.data)
        case Success(n) => err.None? && client.data == old(client.data)[GetKey(key) := Itoa(n)]
    {
      var _, e := client.IncrBy(GetKey(key), 1, fault);
      err := e;
    }

    /** `Del`: one DEL of the store keys of all `keys`; with no keys the store rejects it. */
    method Del(keys: seq<string>, fault: Option<Fault>) returns (err: Option<Error>)
      modifies client
      ensures fault.Some? ==>
        err == Some(StoreFailure(fault.value.reason))
        && client.data == if fault.value.applied then old(client.data) - (set k | k in keys :: GetKey(k))
                          else old(client.data)
      ensures fault.None? && keys == [] ==> err == Some(WrongArity) && client.data == old(client.data)
      ensures fault.None? && keys != [] ==>
        err.None? && client.data == old(client.data) - (set k | k in keys :: GetKey(k))
    {
      var newKey: seq<string> := [];
      for i := 0 to |keys|
        invariant |newKey| == i
        invariant forall j | 0 <= j < i :: newKey[j] == GetKey(keys[j])
      {
        newKey := newKey + [GetKey(keys[i])];
      }
      assert (set k | k in newKey) == (set k | k in keys :: GetKey(k)) by {
        forall k | k in keys ensures GetKey(k) in newKey {
          var j :| 0 <= j < |keys| && keys[j] == k;
          assert newKey[j] == GetKey(k);
        }
      }
      err := client.Del(newKey, fault);
    }

    /**
     * `DelPattern`: walks the SCAN cursor over the store keys matching
     * `GetKey(pattern)` (all keys when that is empty), deleting each yielded key with its own DEL, and
     * returns the first DEL error, else the cursor's error. The cursor is
     * given as the keys it yields (`scan`) and its final error (`scanFault`);
     * `delFaults` maps the positions in `scan` whose DEL fails to the failure.
     */
    method DelPattern(pattern: string, scan: seq<string>, scanFault: Option<string>, delFaults: map<nat, Fault>)
      returns (err: Option<Error>)
      modifies client
      ensures var n := StopIndex(|scan|, delFaults);
        var deleted := set i | 0 <= i < n :: scan[i];
        (n == |scan| ==>
          client.data == old(client.data) - deleted
          && err == if scanFault.Some? then Some(StoreFailure(scanFault.value)) else None)
        && (n < |scan| ==>
          client.data == old(client.data) - deleted - (if delFaults[n].applied then {scan[n]} else {})
          && err == Some(StoreFailure(delFaults[n].reason)))
      ensures FaithfulScan(old(client.data), GetKey(pattern), scan, scanFault) ==>
        forall k | k in old(client.data) && !ScanMatches(GetKey(pattern), k) ::
          k in client.data && client.data[k] == old(client.data)[k]
      ensures FaithfulScan(old(client.data), GetKey(pattern), scan, scanFault) && err.None? ==>
        forall k | k in client.data :: !ScanMatches(GetKey(pattern), k)
    {
      ghost var n := StopIndex(|scan|, delFaults);
      var i := 0;
      while i < |scan|
        invariant 0 <= i <= n
        invariant client.data == old(client.data) - (set j | 0 <= j < i :: scan[j])
      {
        var fault := if i in delFaults then Some(delFaults[i]) else None;
        assert (set k | k in [scan[i]]) == {scan[i]};
        var e := client.Del([scan[i]], fault);
        if e.Some? {
          return e;
        }
        assert (set j | 0 <= j < i + 1 :: scan[j]) == (set j | 0 <= j < i :: scan[j]) + {scan[i]};
        i := i + 1;
      }
      if scanFault.Some? {
        return Some(StoreFailure(scanFault.value));
      }
      return None;
    }
  }

  // ---------------------------------------------------------------------------
  // Namespacing

  /** Store keys built from prefixes of equal length but different text never coincide. */
  lemma NamespacesDisjoint(p1: string, p2: string, k1: string, k2: string)
    requires |p1| == |p2| && p1 != p2
    ensures p1 + k1 != p2 + k2
  {
    assert (p1 + k1)[..|p1|] == p1;
    assert (p2 + k2)[..|p2|] == p2;
  }

  /** Without a delimiter, prefixes of different lengths can share store keys: "user" + "s:1" is "users" + ":1". */
  lemma PrefixCollision()
    ensures exists k1, k2 :: "user" + k1 == "users" + k2
  {
    assert "user" + "s:1" == "users" + ":1";
  }

  /** A glob that starts with a literal (star-free) prefix only matches keys that start with it. */
  lemma {:induction false} GlobLiteralPrefix(prefix: string, pattern: string, key: string)
    requires '*' !in prefix
    requires Glob(prefix + pattern, key)
    ensures |key| >= |prefix| && key[..|prefix|] == prefix
  {
    if prefix != [] {
      assert (prefix + pattern)[0] == prefix[0];
      assert (prefix + pattern)[1..] == prefix[1..] + pattern;
      GlobLiteralPrefix(prefix[1..], pattern, key[1..]);
      assert key == [key[0]] + key[1..];
    }
  }

  /** A glob that starts with a star-free literal rejects every key that does not start with it. */
  lemma GlobLiteralMismatch(prefix: string, pattern: string, key: string)
    requires '*' !in prefix
    requires !(|key| >= |prefix| && key[..|prefix|] == prefix)
    ensures !Glob(prefix + pattern, key)
  {
    if Glob(prefix + pattern, key) {
      GlobLiteralPrefix(prefix, pattern, key);
    }
  }

  /** A `*` in the prefix lets a pattern of one namespace match a key outside it. */
  lemma StarPrefixEscapes()
    ensures Glob("a*" + "x", "abx") && "abx"[..2] != "a*"
  {
    assert Glob("", "");
    assert Glob("x", "x");
    assert Glob("*x", "x");
    assert Glob("*x", "bx");
    assert "abx"[1..] == "bx";
  }

  // ---------------------------------------------------------------------------
  // Scenarios over one shared store

  /** A successful `SetString` is read back by `Get`, and it changes no other entry. */
  method ReadAfterWrite(r: Redis, key: string, value: string) returns (got: string, err: Option<Error>)
    requires r.GetKey(key) != "" && value != ""
    modifies r.client
    ensures got == value && err.None?
    ensures r.client.data == old(r.client.data)[r.GetKey(key) := value]
  {
    var _ := r.SetString(key, value, 0, None);
    got, err := r.Get(key, None);
  }

  /**
   * With a codec that decodes its own encodings, `SetStruct` then `GetStruct`
   * gives the value back; only when the store key is empty does the read
   * refuse the key the write accepted.
   */
  method StructReadAfterWrite<V>(r: Redis, key: string, value: V, codec: Codec<V>) returns (got: Option<V>, err: Option<Error>)
    requires codec.marshal(value).Success? && codec.unmarshal(codec.marshal(value).value) == Success(value)
    modifies r.client
    ensures r.GetKey(key) != "" ==> got == Some(value) && err.None?
    ensures r.GetKey(key) == "" ==> got.None? && err == Some(EmptyKeyValue)
    ensures r.client.data == old(r.client.data)[r.GetKey(key) := codec.marshal(value).value]
  {
    var _ := r.SetStruct(key, value, 0, codec, None);
    got, err := r.GetStruct(key, codec, None);
  }

  /**
   * With a codec that decodes its own encodings, `Set` of a non-zero value
   * then `GetStruct` gives the value back and changes only the store key; an
   * empty store key is refused by both and changes nothing.
   */
  method ValueReadAfterWrite<V>(r: Redis, key: string, value: V, codec: Codec<V>) returns (got: Option<V>, err: Option<Error>)
    requires !codec.isZero(value)
    requires codec.marshal(value).Success? && codec.unmarshal(codec.marshal(value).value) == Success(value)
    modifies r.client
    ensures r.GetKey(key) != "" ==>
      got == Some(value) && err.None?
      && r.client.data == old(r.client.data)[r.GetKey(key) := codec.marshal(value).value]
    ensures r.GetKey(key) == "" ==> got.None? && err == Some(EmptyKeyValue) && r.client.data == old(r.client.data)
  {
    var _ := r.Set(key, value, 0, codec, None);
    got, err := r.GetStruct(key, codec, None);
  }

  /** A write through one handle is invisible to a handle with a different prefix of the same length. */
  method IsolatedWrite(a: Redis, b: Redis, key: string, value: string, fault: Option<Fault>, other: string)
    returns (before: string, after: string)
    requires a.client == b.client
    requires |a.prefix| == |b.prefix| && a.prefix != b.prefix
    modifies a.client
    ensures before == after
  {
    var e;
    before, e := b.Get(other, None);
    NamespacesDisjoint(a.prefix, b.prefix, key, other);
    e := a.SetString(key, value, 0, fault);
    after, e := b.Get(other, None);
  }

  /**
   * With a faithful scan, `DelPattern` through a handle whose prefix has no
   * glob metacharacter (`*`, `?`, `[` or `\`) never removes a key of a handle
   * whose prefix has the same length but different text.
   */
  method IsolatedDelPattern(a: Redis, b: Redis, pattern: string, scan: seq<string>, scanFault: Option<string>,
                            delFaults: map<nat, Fault>, other: string)
    returns (before: bool, after: bool)
    requires a.client == b.client
    requires |a.prefix| == |b.prefix| && a.prefix != b.prefix
    requires '*' !in a.prefix && '?' !in a.prefix && '[' !in a.prefix && '\\' !in a.prefix
    requires FaithfulScan(a.client.data, a.GetKey(pattern), scan, scanFault)
    modifies a.client
    ensures before == after
  {
    before := b.HasKey(other, None);
    assert b.GetKey(other)[..|a.prefix|] == b.prefix;
    assert a.GetKey(pattern) != "" by {
      assert a.prefix != "";
    }
    GlobLiteralMismatch(a.prefix, pattern, b.GetKey(other));
    var _ := a.DelPattern(pattern, scan, scanFault, delFaults);
    after := b.HasKey(other, None);
  }

  /** A trailing `*` matches anything. */
  lemma {:induction false} GlobStarAny(rest: string)
    ensures Glob("*", rest)
  {
    if rest != [] {
      GlobStarAny(rest[1..]);
    }
  }

  /** A star-free literal followed by `*` matches every key that starts with the literal. */
  lemma {:induction false} GlobLiteralThenStar(literal: string, rest: string)
    requires '*' !in literal
    ensures Glob(literal + "*", literal + rest)
  {
    if literal == [] {
      assert literal + "*" == "*" && literal + rest == rest;
      GlobStarAny(rest);
    } else {
      GlobLiteralThenStar(literal[1..], rest);
      assert (literal + "*")[1..] == literal[1..] + "*";
      assert (literal + rest)[1..] == literal[1..] + rest;
    }
  }

  /** "app:user:*" matches both user keys. */
  lemma UserKeysMatch()
    ensures Glob("app:user:*", "app:user:1") && Glob("app:user:*", "app:user:2")
  {
    var literal := "app:user:";
    assert literal + "*" == "app:user:*";
    assert literal + "1" == "app:user:1";
    assert literal + "2" == "app:user:2";
    GlobLiteralThenStar(literal, "1");
    GlobLiteralThenStar(literal, "2");
  }

  /** "app:user:*" does not match the order key. */
  lemma OrderKeyDoesNotMatch()
    ensures !Glob("app:user:*", "app:order:1")
  {
    var literal, rest, key := "app:u", "ser:*", "app:order:1";
    assert literal + rest == "app:user:*";
    assert key[4] != literal[4];
    GlobLiteralMismatch(literal, rest, key);
  }

  /**
   * Setting "user:1", "user:2" and "order:1" and then deleting "user:*" leaves
   * only "order:1", whatever order a complete scan yields the two user keys in.
   */
  method DelPatternExample(scan: seq<string>) returns (user1: bool, user2: bool, order1: bool)
    requires FaithfulScan(map["app:user:1" := "a", "app:user:2" := "b", "app:order:1" := "c"],
                          "app:user:*", scan, None)
    ensures !user1 && !user2 && order1
  {
    var store := new Store();
    var r := new Redis(store, "app:");
    assert r.GetKey("user:1") == "app:user:1" && r.GetKey("user:2") == "app:user:2";
    assert r.GetKey("order:1") == "app:order:1" && r.GetKey("user:*") == "app:user:*";
    var e1 := r.SetString("user:1", "a", 0, None);
    var e2 := r.SetString("user:2", "b", 0, None);
    var e3 := r.SetString("order:1", "c", 0, None);
    ghost var before := store.data;
    assert before == map["app:user:1" := "a", "app:user:2" := "b", "app:order:1" := "c"];
    UserKeysMatch();
    OrderKeyDoesNotMatch();
    ghost var filter := r.GetKey("user:*");
    assert filter != "";
    assert ScanMatches(filter, "app:user:1") && ScanMatches(filter, "app:user:2");
    assert !ScanMatches(filter, "app:order:1");
    var err := r.DelPattern("user:*", scan, None, map[]);
    user1 := r.HasKey("user:1", None);
    user2 := r.HasKey("user:2", None);
    order1 := r.HasKey("order:1", None);
  }

  /**
   * Through a handle without prefix, `DelPattern("")` scans without MATCH and
   * so, when the scan completes and no DEL fails, empties the whole store.
   */
  method EmptyPatternEmptiesStore(store: Store, scan: seq<string>) returns (err: Option<Error>)
    requires FaithfulScan(store.data, "", scan, None)
    modifies store
    ensures err.None? && store.data == map[]
  {
    var r := new Redis(store, "");
    assert r.GetKey("") == "";
    err := r.DelPattern("", scan, None, map[]);
    assert forall k | k in store.data :: ScanMatches("", k);
    assert store.data.Keys == {};
  }

  /** Two increments of a fresh counter, by 10 and then by 5, leave "15". */
  method IncByExample() returns (value: string, err: Option<Error>)
    ensures value == "15" && err.None?
  {
    var store := new Store();
    var r := new Redis(store, "app:");
    assert r.GetKey("hits") == "app:hits";
    assert IncrOutcome(store.data, "app:hits", 10) == Success(10);
    var e1 := r.IncBy("hits", 10, None);
    assert store.data == map["app:hits" := Itoa(10)];
    assert Itoa(10) == "10";
    IncrOfPrinted(store.data, "app:hits", 10, 5);
    var e2 := r.IncBy("hits", 5, None);
    value, err := r.Get("hits", None);
  }
}
