/**
 * The part of Go's `strconv` package the helpers rely on: `Itoa` and `Atoi`
 * on 64-bit integers. `Atoi` is modelled as `ParseInt(s, 10, 0)`; its short-input
 * fast path returns the same results and is not modelled separately.
 */
module GoStrconv {
  import opened Wrappers

  const TWO_63: int := 0x8000_0000_0000_0000
  const TWO_64: int := 0x1_0000_0000_0000_0000
  const MIN_INT64: int := -TWO_63
  const MAX_INT64: int := TWO_63 - 1
  const MAX_UINT64: int := TWO_64 - 1

  /** Go's `int` and `int64` on a 64-bit platform. */
  type Int64 = x: int | -0x8000_0000_0000_0000 <= x < 0x8000_0000_0000_0000

  /** Go's `uint` and `uint64` on a 64-bit platform. */
  type Uint64 = x: int | 0 <= x < 0x1_0000_0000_0000_0000

  /** The two causes `strconv` gives for a failed parse. */
  datatype NumError = ErrSyntax | ErrRange

  /** The pair `(int, error)` that `strconv.Atoi` returns. */
  datatype AtoiResult = AtoiResult(value: Int64, err: Option<NumError>)

  predicate IsDigit(c: char) {
    '0' <= c <= '9'
  }

  function DigitValue(c: char): (d: nat)
    requires IsDigit(c)
    ensures d < 10
  {
    (c as int) - ('0' as int)
  }

  function DigitChar(d: nat): (c: char)
    requires d < 10
    ensures IsDigit(c) && DigitValue(c) == d
  {
    (('0' as int) + d) as char
  }

  /** The decimal digits of `n`, most significant first, without leading zeros. */
  function Digits(n: nat): (s: string)
    ensures |s| > 0
    ensures forall i | 0 <= i < |s| :: IsDigit(s[i])
  {
    if n < 10 then [DigitChar(n)] else Digits(n / 10) + [DigitChar(n % 10)]
  }

  /** `strconv.Itoa`: a minus sign for negative values, then the digits. */
  function Itoa(i: int): (s: string)
    ensures |s| > 0
    ensures forall k | 0 <= k < |s| :: s[k] == '-' || IsDigit(s[k])
    ensures (s[0] == '-') == (i < 0)
  {
    if i < 0 then "-" + Digits(-i) else Digits(i)
  }

  /**
   * The digit loop of `strconv.ParseUint(s, 10, 64)` after `acc` has been
   * read: a non-digit is a syntax error with value 0; a digit that would take
   * the value past the largest uint64 is a range error with that largest value,
   * reported before the rest of the input is looked at.
   */
  function ParseUintFrom(s: string, acc: nat): (nat, Option<NumError>)
  {
    if s == [] then (acc, None)
    else if !IsDigit(s[0]) then (0, Some(ErrSyntax))
    else if acc * 10 + DigitValue(s[0]) > MAX_UINT64 then (MAX_UINT64, Some(ErrRange))
    else ParseUintFrom(s[1..], acc * 10 + DigitValue(s[0]))
  }

  /** `strconv.ParseUint(s, 10, 64)`: the empty string is a syntax error. */
  function ParseUint(s: string): (nat, Option<NumError>)
  {
    if s == [] then (0, Some(ErrSyntax)) else ParseUintFrom(s, 0)
  }

  /**
   * `strconv.Atoi`: an optional sign, then `ParseUint`; a syntax error yields
   * 0, a magnitude beyond the int64 range yields the int64 bound of that sign
   * together with `ErrRange`.
   */
  function Atoi(s: string): (r: AtoiResult)
    ensures r.err == Some(ErrSyntax) ==> r.value == 0
    ensures r.err.None? ==> s != [] && (r.value < 0 ==> s[0] == '-')
  {
    if s == [] then AtoiResult(0, Some(ErrSyntax))
    else
      var neg := s[0] == '-';
      var magnitude := if s[0] == '+' || s[0] == '-' then s[1..] else s;
      var (un, err) := ParseUint(magnitude);
      if err == Some(ErrSyntax) then AtoiResult(0, Some(ErrSyntax))
      else if !neg && un >= TWO_63 then AtoiResult(MAX_INT64, Some(ErrRange))
      else if neg && un > TWO_63 then AtoiResult(MIN_INT64, Some(ErrRange))
      else AtoiResult(if neg then 0 - un else un, None)
  }

  /**
   * The form in which a Redis server accepts an integer value: exactly what
   * `Itoa` prints for some int64 (no sign `+`, no leading zeros, no `-0`).
   */
  predicate IsCanonicalInt64(s: string) {
    Atoi(s).err.None? && Itoa(Atoi(s).value) == s
  }

  /** Reading one more digit extends a successful parse, as long as no overflow occurs. */
  lemma {:induction false} ParseUintSnoc(s: string, acc: nat, c: char)
    requires ParseUintFrom(s, acc).1.None?
    requires IsDigit(c)
    requires ParseUintFrom(s, acc).0 * 10 + DigitValue(c) <= MAX_UINT64
    ensures ParseUintFrom(s + [c], acc) == (ParseUintFrom(s, acc).0 * 10 + DigitValue(c), None)
  {
    if s == [] {
      assert [c][1..] == [];
    } else {
      var next := acc * 10 + DigitValue(s[0]);
      assert (s + [c])[1..] == s[1..] + [c];
      ParseUintSnoc(s[1..], next, c);
    }
  }

  /** Parsing the digits of `n` gives back `n`. */
  lemma {:induction false} ParseUintDigits(n: nat)
    requires n <= MAX_UINT64
    ensures ParseUintFrom(Digits(n), 0) == (n, None)
  {
    if n < 10 {
      assert Digits(n)[1..] == [];
    } else {
      ParseUintDigits(n / 10);
      ParseUintSnoc(Digits(n / 10), 0, DigitChar(n % 10));
    }
  }

  /** `Atoi` inverts `Itoa` on every int64. */
  lemma AtoiItoa(x: Int64)
    ensures Atoi(Itoa(x)) == AtoiResult(x, None)
  {
    var s := Itoa(x);
    if x < 0 {
      var m: nat := -(x as int);
      assert s == "-" + Digits(m);
      assert s[1..] == Digits(m);
      ParseUintDigits(m);
      assert ParseUint(s[1..]) == (m, None);
      assert m <= TWO_63;
    } else {
      var m: nat := x;
      assert s == Digits(m);
      assert IsDigit(s[0]);
      ParseUintDigits(m);
      assert ParseUint(s) == (m, None);
      assert m < TWO_63;
    }
  }

  /** Every int64 printed by `Itoa` is in canonical form, and only those are. */
  lemma CanonicalIffPrinted(s: string)
    ensures IsCanonicalInt64(s) <==> exists x: Int64 :: Itoa(x) == s
  {
    if s_printed: Int64 :| Itoa(s_printed) == s {
      AtoiItoa(s_printed);
    }
  }
}
