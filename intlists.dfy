/**
 * The comma-separated decimal list helpers of the `methods` package:
 * `ConvertToIntSlice`, `ConvertToUintSlice`, `ConvertIntSliceToString` and
 * `StringToIntArray`.
 */
module IntLists {
  import opened Wrappers
  import opened GoStrconv
  import opened GoStrings

  // ---------------------------------------------------------------------------
  // Reference definitions

  /** The value `Atoi` gives each field, whether or not it also reports an error. */
  function AtoiValues(fields: seq<string>): seq<Int64>
  {
    seq(|fields|, i requires 0 <= i < |fields| => Atoi(fields[i]).value)
  }

  /** The list `ConvertToIntSlice` reads from `value`. */
  function ParseIntList(value: string): seq<Int64>
  {
    if value == "" then [] else AtoiValues(Split(value, ','))
  }

  /** Go's conversion `uint(x)` from int: two's-complement reinterpretation. */
  function ToUint(x: Int64): (u: Uint64)
  {
    x % TWO_64
  }

  /** The list `ConvertToUintSlice` reads from `value`. */
  function ParseUintList(value: string): seq<Uint64>
  {
    var ints := ParseIntList(value);
    seq(|ints|, i requires 0 <= i < |ints| => ToUint(ints[i]))
  }

  function ItoaAll(ids: seq<Int64>): seq<string>
  {
    seq(|ids|, i requires 0 <= i < |ids| => Itoa(ids[i]))
  }

  /** The text `ConvertIntSliceToString` prints for `ids`. */
  function FormatIntList(ids: seq<Int64>): string
  {
    Join(ItoaAll(ids), ',')
  }

  /** The values of the strings `Atoi` accepts without error, in order. */
  function KeepParsed(strs: seq<string>): seq<Int64>
  {
    if strs == [] then []
    else
      var r := Atoi(strs[0]);
      (if r.err.None? then [r.value] else []) + KeepParsed(strs[1..])
  }

  // ---------------------------------------------------------------------------
  // Operations

  /** `ConvertToIntSlice`: nothing for "", else `Atoi` of every comma-separated field, errors ignored. */
  method ConvertToIntSlice(value: string) returns (ids: seq<Int64>)
    ensures ids == ParseIntList(value)
  {
    ids := [];
    if value == "" {
      return;
    }
    var splitted := Split(value, ',');
    for i := 0 to |splitted|
      invariant |ids| == i
      invariant forall k | 0 <= k < i :: ids[k] == Atoi(splitted[k]).value
    {
      var id := Atoi(splitted[i]).value;
      ids := ids + [id];
    }
  }

  /** `ConvertToUintSlice`: as `ConvertToIntSlice`, each value converted with `uint(...)`. */
  method ConvertToUintSlice(value: string) returns (ids: seq<Uint64>)
    ensures ids == ParseUintList(value)
  {
    ids := [];
    if value == "" {
      return;
    }
    var splitted := Split(value, ',');
    for i := 0 to |splitted|
      invariant |ids| == i
      invariant forall k | 0 <= k < i :: ids[k] == ToUint(Atoi(splitted[k]).value)
    {
      var id := Atoi(splitted[i]).value;
      ids := ids + [ToUint(id)];
    }
  }

  /** `ConvertIntSliceToString`: `Itoa` of every element, joined with commas. */
  method ConvertIntSliceToString(ids: seq<Int64>) returns (idStr: string)
    ensures idStr == FormatIntList(ids)
  {
    var idList: seq<string> := [];
    for i := 0 to |ids|
      invariant |idList| == i
      invariant forall k | 0 <= k < i :: idList[k] == Itoa(ids[k])
    {
      idList := idList + [Itoa(ids[i])];
    }
    assert idList == ItoaAll(ids);
    idStr := Join(idList, ',');
  }

  /** `StringToIntArray`: keeps the value of every string `Atoi` accepts, drops the others. */
  method StringToIntArray(stringArray: seq<string>) returns (res: seq<Int64>)
    ensures res == KeepParsed(stringArray)
  {
    res := [];
    for i := 0 to |stringArray|
      invariant res + KeepParsed(stringArray[i..]) == KeepParsed(stringArray)
    {
      assert stringArray[i..][1..] == stringArray[i + 1..];
      var r := Atoi(stringArray[i]);
      if r.err.None? {
        res := res + [r.value];
      }
    }
    assert stringArray[|stringArray|..] == [];
  }

  // ---------------------------------------------------------------------------
  // Properties

  /** Every field becomes one entry; a field `Atoi` rejects as malformed becomes 0. */
  lemma ParseIntListFields(value: string)
    requires value != ""
    ensures |ParseIntList(value)| == |Split(value, ',')|
    ensures forall i | 0 <= i < |ParseIntList(value)| ::
      Atoi(Split(value, ',')[i]).err == Some(ErrSyntax) ==> ParseIntList(value)[i] == 0
  {
  }

  /** Reading back what `ConvertIntSliceToString` prints gives the original list. */
  lemma IntListRoundTrip(ids: seq<Int64>)
    ensures ParseIntList(FormatIntList(ids)) == ids
  {
    var parts := ItoaAll(ids);
    if ids != [] {
      forall i | 0 <= i < |parts| ensures ',' !in parts[i] {
        var s := parts[i];
        assert forall k | 0 <= k < |s| :: s[k] != ',';
      }
      SplitJoin(parts, ',');
      JoinCoversFirst(parts, ',');
      forall i | 0 <= i < |ids| ensures AtoiValues(parts)[i] == ids[i] {
        AtoiItoa(ids[i]);
      }
    }
  }

  /** `ConvertToUintSlice` is `ConvertToIntSlice` followed by `uint(...)`, which keeps non-negative values. */
  lemma UintListMatchesIntList(value: string)
    ensures |ParseUintList(value)| == |ParseIntList(value)|
    ensures forall i | 0 <= i < |ParseIntList(value)| ::
      ParseIntList(value)[i] >= 0 ==> ParseUintList(value)[i] == ParseIntList(value)[i]
    ensures forall i | 0 <= i < |ParseIntList(value)| ::
      ParseIntList(value)[i] < 0 ==> ParseUintList(value)[i] == ParseIntList(value)[i] + TWO_64
  {
  }

  /** `StringToIntArray` never produces more values than it was given strings. */
  lemma {:induction false} KeepParsedShorter(strs: seq<string>)
    ensures |KeepParsed(strs)| <= |strs|
  {
    if strs != [] {
      KeepParsedShorter(strs[1..]);
    }
  }

  /** `StringToIntArray` reads back every printed int64. */
  lemma {:induction false} KeepParsedPrinted(ids: seq<Int64>)
    ensures KeepParsed(ItoaAll(ids)) == ids
  {
    if ids != [] {
      AtoiItoa(ids[0]);
      KeepParsedPrinted(ids[1..]);
      assert ItoaAll(ids)[1..] == ItoaAll(ids[1..]);
      assert ids == [ids[0]] + ids[1..];
    }
  }
}
