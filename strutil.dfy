/**
 * The string helpers of the `methods` package: `TrimSuffix`, `Chunks` and
 * `Abbreviate`. Text is ASCII, one `char` per byte.
 */
module StrUtil {
  import opened Wrappers
  import opened GoStrings

  /** The concatenation of a list of strings. */
  function Concat(parts: seq<string>): string
  {
    if parts == [] then "" else Concat(parts[..|parts| - 1]) + parts[|parts| - 1]
  }

  // ---------------------------------------------------------------------------
  // TrimSuffix

  /** `TrimSuffix`: drops `suffix` from the end of `s` when `s` ends with it. */
  function TrimSuffix(s: string, suffix: string): (r: string)
    ensures HasSuffix(s, suffix) ==> r + suffix == s
    ensures !HasSuffix(s, suffix) ==> r == s
  {
    if HasSuffix(s, suffix) then s[..|s| - |suffix|] else s
  }

  // ---------------------------------------------------------------------------
  // Chunks

  /** Go's integer division of a non-negative dividend, which truncates toward zero. */
  function TruncDiv(a: nat, b: int): int
    requires b != 0
  {
    if b > 0 then a / b else -(a / -b)
  }

  lemma DivOfDecomposition(x: nat, c: nat, q: nat, r: nat)
    requires c > 0 && x == c * q + r && r < c
    ensures x / c == q
  {
    var q', r' := x / c, x % c;
    assert x == c * q' + r';
    if q' > q {
      MulMonotone(c, q + 1, q');
    } else if q' < q {
      MulMonotone(c, q' + 1, q);
    }
  }

  lemma MulMonotone(c: nat, a: nat, b: nat)
    requires a <= b
    ensures c * a <= c * b
  {
  }

  /**
   * `Chunks`: cuts `s` into consecutive pieces of `chunkSize` characters, the
   * last one shorter when needed. `None` stands for the two Go panics on the
   * way there: the capacity `(len(s)-1)/chunkSize+1` divides by zero when
   * `chunkSize` is 0, and is a negative `make` capacity for some negative
   * sizes. Any other non-positive size gives the whole string as one piece.
   */
  method Chunks(s: string, chunkSize: int) returns (r: Option<seq<string>>)
    ensures |s| == 0 ==> r == Some([])
    ensures |s| > 0 && chunkSize <= 0 ==>
      r == if chunkSize == 0 || TruncDiv(|s| - 1, chunkSize) + 1 < 0 then None else Some([s])
    ensures |s| > 0 && chunkSize > 0 ==> r.Some? && Concat(r.value) == s
    ensures |s| > 0 && chunkSize > 0 ==> r.Some? && |r.value| == (|s| - 1) / chunkSize + 1
    ensures |s| > 0 && chunkSize > 0 ==> r.Some? && forall k | 0 <= k < |r.value| - 1 :: |r.value[k]| == chunkSize
    ensures |s| > 0 && chunkSize > 0 ==> r.Some? && 1 <= |r.value[|r.value| - 1]| <= chunkSize
  {
    if |s| == 0 {
      return Some([]);
    }
    if chunkSize >= |s| {
      assert Concat([s]) == Concat([]) + s;
      DivOfDecomposition(|s| - 1, chunkSize, 0, |s| - 1);
      return Some([s]);
    }
    if chunkSize == 0 || TruncDiv(|s| - 1, chunkSize) + 1 < 0 {
      return None;
    }
    var chunks: seq<string> := [];
    var currentLen := 0;
    var currentStart := 0;
    for i := 0 to |s|
      invariant 0 <= currentStart <= i
      invariant currentLen == i - currentStart
      invariant i > 0 ==> currentLen >= 1
      invariant chunkSize > 0 ==> currentLen <= chunkSize && currentStart == chunkSize * |chunks|
      invariant chunkSize < 0 ==> chunks == [] && currentStart == 0
      invariant Concat(chunks) == s[..currentStart]
      invariant forall k | 0 <= k < |chunks| :: |chunks[k]| == chunkSize
    {
      if currentLen == chunkSize {
        ChunksCut(s, chunks, currentStart, i);
        chunks := chunks + [s[currentStart..i]];
        currentLen := 0;
        currentStart := i;
      }
      currentLen := currentLen + 1;
    }
    if chunkSize > 0 {
      ChunksLastPiece(s, chunkSize, chunks, currentStart);
    } else {
      assert s[currentStart..] == s;
    }
    chunks := chunks + [s[currentStart..]];
    return Some(chunks);
  }

  /** Cutting the next piece `s[start..i]` off keeps the pieces a prefix of `s`. */
  lemma ChunksCut(s: string, chunks: seq<string>, start: nat, i: nat)
    requires start <= i <= |s| && Concat(chunks) == s[..start]
    ensures Concat(chunks + [s[start..i]]) == s[..i]
  {
    assert (chunks + [s[start..i]])[..|chunks|] == chunks;
    assert s[..i] == s[..start] + s[start..i];
  }

  /** Appending the rest of `s` to whole pieces of `chunkSize` characters completes the cut. */
  lemma ChunksLastPiece(s: string, chunkSize: int, chunks: seq<string>, currentStart: nat)
    requires chunkSize > 0 && currentStart < |s| && |s| - currentStart <= chunkSize
    requires currentStart == chunkSize * |chunks|
    requires Concat(chunks) == s[..currentStart]
    requires forall k | 0 <= k < |chunks| :: |chunks[k]| == chunkSize
    ensures Concat(chunks + [s[currentStart..]]) == s
    ensures |chunks + [s[currentStart..]]| == (|s| - 1) / chunkSize + 1
    ensures forall k | 0 <= k < |chunks| :: |(chunks + [s[currentStart..]])[k]| == chunkSize
    ensures 1 <= |s[currentStart..]| <= chunkSize
  {
    var all := chunks + [s[currentStart..]];
    assert all[..|all| - 1] == chunks;
    assert s == s[..currentStart] + s[currentStart..];
    DivOfDecomposition(|s| - 1, chunkSize, |chunks|, |s| - currentStart - 1);
  }

  // ---------------------------------------------------------------------------
  // Abbreviate

  /** Concatenates the strings of a list in which any entry may be missing; missing if any is. */
  function ConcatAll(xs: seq<Option<string>>): Option<string>
  {
    if xs == [] then Some("")
    else match ConcatAll(xs[..|xs| - 1])
      case None => None
      case Some(r) =>
        match xs[|xs| - 1]
        case None => None
        case Some(t) => Some(r + t)
  }

  /** Extending a complete prefix of `xs` by its next entry. */
  lemma ConcatAllStep(xs: seq<Option<string>>, i: nat, acc: string)
    requires i < |xs| && ConcatAll(xs[..i]) == Some(acc)
    ensures ConcatAll(xs[..i + 1]) == if xs[i].None? then None else Some(acc + xs[i].value)
  {
    assert xs[..i + 1][..i] == xs[..i];
  }

  /** The initial `Abbreviate` takes from one hyphen-separated part; Go's `split[j][0]` panics on an empty part. */
  function PartInitial(part: string): Option<string>
  {
    if part == "" then None else Some([Upper(part[0])])
  }

  function PartInitials(parts: seq<string>): seq<Option<string>>
  {
    seq(|parts|, j requires 0 <= j < |parts| => PartInitial(parts[j]))
  }

  /** A word with a hyphen after its first character gives one initial per hyphen-separated part. */
  predicate Hyphenated(word: string) {
    IndexByte(word, '-') > 0
  }

  /** What `Abbreviate` appends for one word, or `None` where it panics. */
  function WordInitials(word: string): Option<string>
    requires word != ""
  {
    if Hyphenated(word) then ConcatAll(PartInitials(Split(ToUpper(word), '-')))
    else Some([Upper(word[0])])
  }

  function WordsInitials(words: seq<string>): seq<Option<string>>
    requires forall i | 0 <= i < |words| :: words[i] != ""
  {
    seq(|words|, i requires 0 <= i < |words| => WordInitials(words[i]))
  }

  /** `Abbreviate` as written: `None` where the Go code panics. */
  function AbbreviateAsWritten(s: string): Option<string>
  {
    ConcatAll(WordsInitials(Fields(s)))
  }

  /**
   * The inner loop of `Abbreviate`: appends to `result` the upper-cased first
   * character of every part, or stops with `None` at the first empty part,
   * where Go panics.
   */
  method AppendPartInitials(result: string, parts: seq<string>) returns (r: Option<string>)
    ensures ConcatAll(PartInitials(parts)).None? ==> r.None?
    ensures ConcatAll(PartInitials(parts)).Some? ==> r == Some(result + ConcatAll(PartInitials(parts)).value)
  {
    ghost var perPart := PartInitials(parts);
    var acc := result;
    for j := 0 to |parts|
      invariant ConcatAll(perPart[..j]).Some?
      invariant acc == result + ConcatAll(perPart[..j]).value
    {
      ConcatAllStep(perPart, j, ConcatAll(perPart[..j]).value);
      if parts[j] == "" {
        ConcatAllNoneExtends(perPart, j + 1);
        return None;
      }
      acc := acc + [Upper(parts[j][0])];
    }
    assert perPart[..|parts|] == perPart;
    return Some(acc);
  }

  /** `Abbreviate`: the upper-cased initial of every word, and of every part of a hyphenated word. */
  method Abbreviate(s: string) returns (r: Option<string>)
    ensures r == AbbreviateAsWritten(s)
  {
    var words := Fields(s);
    ghost var perWord := WordsInitials(words);
    var result := "";
    for i := 0 to |words|
      invariant ConcatAll(perWord[..i]) == Some(result)
    {
      var word := words[i];
      assert perWord[i] == WordInitials(word);
      ConcatAllStep(perWord, i, result);
      if Hyphenated(word) {
        var split := Split(ToUpper(word), '-');
        var appended := AppendPartInitials(result, split);
        if appended.None? {
          ConcatAllNoneExtends(perWord, i + 1);
          return None;
        }
        result := appended.value;
      } else {
        result := result + [Upper(word[0])];
      }
    }
    assert perWord[..|words|] == perWord;
    return Some(result);
  }

  // ---------------------------------------------------------------------------
  // Abbreviate with the panic removed: empty parts contribute nothing

  function FixedPartInitial(part: string): (r: string)
    ensures |r| <= 1 && NoLowerCase(r)
  {
    if part == "" then "" else [Upper(part[0])]
  }

  function FixedWordInitials(word: string): (r: string)
    requires word != ""
    ensures r != "" && NoLowerCase(r)
  {
    if Hyphenated(word) then
      var parts := Split(ToUpper(word), '-');
      var initials := seq(|parts|, j requires 0 <= j < |parts| => FixedPartInitial(parts[j]));
      ConcatNoLowerCase(initials);
      assert parts[0] != "" by {
        var upper := ToUpper(word);
        assert word[0] in word[..IndexByte(word, '-')];
        assert upper[0] == Upper(word[0]) != '-';
        assert parts[0] == [upper[0]] + Split(upper[1..], '-')[0];
      }
      ConcatNonEmpty(initials);
      Concat(initials)
    else [Upper(word[0])]
  }

  /**
   * `Abbreviate` as evidently intended: an empty part of a hyphenated word
   * (hyphen runs, a trailing hyphen) contributes no initial instead of
   * panicking. Every word still contributes at least one initial.
   */
  function AbbreviateInitials(s: string): (r: string)
    ensures NoLowerCase(r)
    ensures |r| >= |Fields(s)|
  {
    var words := Fields(s);
    var initials := seq(|words|, i requires 0 <= i < |words| => FixedWordInitials(words[i]));
    ConcatNoLowerCase(initials);
    ConcatLength(initials);
    Concat(initials)
  }

  // ---------------------------------------------------------------------------
  // Properties

  /** Once a prefix of the list has a missing entry, so does the whole list. */
  lemma {:induction false} ConcatAllNoneExtends(xs: seq<Option<string>>, k: nat)
    requires k <= |xs| && ConcatAll(xs[..k]) == None
    ensures ConcatAll(xs) == None
    decreases |xs| - k
  {
    if k < |xs| {
      assert xs[..k + 1][..k] == xs[..k];
      ConcatAllNoneExtends(xs, k + 1);
    } else {
      assert xs[..k] == xs;
    }
  }

  /** `ConcatAll` is missing exactly when some entry is missing, and otherwise concatenates the entries. */
  lemma {:induction false} ConcatAllSpec(xs: seq<Option<string>>)
    ensures ConcatAll(xs) == None <==> exists i | 0 <= i < |xs| :: xs[i] == None
    ensures ConcatAll(xs).Some? ==>
      ConcatAll(xs).value == Concat(seq(|xs|, i requires 0 <= i < |xs| && xs[i].Some? => xs[i].value))
  {
    if xs != [] {
      var init := xs[..|xs| - 1];
      ConcatAllSpec(init);
      if ConcatAll(xs).Some? {
        var all := seq(|xs|, i requires 0 <= i < |xs| && xs[i].Some? => xs[i].value);
        assert all[..|all| - 1] == seq(|init|, i requires 0 <= i < |init| && init[i].Some? => init[i].value);
      }
      if ConcatAll(init) == None {
        var i :| 0 <= i < |init| && init[i] == None;
        assert xs[i] == None;
      }
    }
  }

  /** One word makes `Abbreviate` panic exactly when it is hyphenated and has an empty part. */
  lemma WordPanics(w: string)
    requires w != ""
    ensures WordInitials(w) == None <==> Hyphenated(w) && "" in Split(ToUpper(w), '-')
  {
    if Hyphenated(w) {
      var parts := Split(ToUpper(w), '-');
      ConcatAllSpec(PartInitials(parts));
      if "" in parts {
        var j :| 0 <= j < |parts| && parts[j] == "";
        assert PartInitials(parts)[j] == None;
      }
    }
  }

  /** `Abbreviate` panics exactly on input with a hyphenated word that has an empty part, such as `x-` or `a--b`. */
  lemma AbbreviatePanics(s: string)
    ensures AbbreviateAsWritten(s) == None <==>
      exists w | w in Fields(s) :: Hyphenated(w) && "" in Split(ToUpper(w), '-')
  {
    var words := Fields(s);
    var per := WordsInitials(words);
    ConcatAllSpec(per);
    forall w | w in words ensures WordInitials(w) == None <==> Hyphenated(w) && "" in Split(ToUpper(w), '-') {
      WordPanics(w);
    }
    if AbbreviateAsWritten(s) == None {
      var i :| 0 <= i < |per| && per[i] == None;
      assert words[i] in words;
    } else {
      forall w | w in words ensures WordInitials(w).Some? {
        var i :| 0 <= i < |words| && words[i] == w;
        assert per[i] == WordInitials(w);
      }
    }
  }

  /** `"x-"` is one hyphenated word whose upper-cased parts are `"X"` and `""`. */
  lemma TrailingHyphenWord()
    ensures Fields("x-") == ["x-"] && Hyphenated("x-")
    ensures Split(ToUpper("x-"), '-') == ["X", ""]
  {
    assert Fields("x-") == ["x-"] by {
      assert WordLength("x-") == 2;
      assert "x-"[..2] == "x-" && "x-"[2..] == "";
    }
    assert IndexByte("x-", '-') == 1;
    assert ToUpper("x-") == "X-";
    assert Split("X-", '-') == ["X", ""] by {
      assert "X-"[0] == 'X' && "X-"[1..] == "-";
      assert "-"[0] == '-' && "-"[1..] == "";
      assert Split("", '-') == [""];
      assert Split("-", '-') == ["", ""];
      assert ['X'] + "" == "X";
    }
  }

  /** The smallest witness: a single word ending in a hyphen. */
  lemma AbbreviateTrailingHyphenPanics()
    ensures AbbreviateAsWritten("x-") == None
  {
    TrailingHyphenWord();
    AbbreviatePanics("x-");
  }

  /** Wherever the code as written does not panic, the corrected version gives the same initials. */
  lemma AbbreviateFixAgrees(s: string)
    ensures AbbreviateAsWritten(s).Some? ==> AbbreviateInitials(s) == AbbreviateAsWritten(s).value
  {
    var words := Fields(s);
    var per := WordsInitials(words);
    ConcatAllSpec(per);
    if AbbreviateAsWritten(s).Some? {
      var fixed := seq(|words|, i requires 0 <= i < |words| => FixedWordInitials(words[i]));
      var got := seq(|per|, i requires 0 <= i < |per| && per[i].Some? => per[i].value);
      forall i | 0 <= i < |words| ensures got[i] == fixed[i] {
        assert per[i].Some?;
        var w := words[i];
        if Hyphenated(w) {
          var parts := Split(ToUpper(w), '-');
          var pi := PartInitials(parts);
          ConcatAllSpec(pi);
          var pFixed := seq(|parts|, j requires 0 <= j < |parts| => FixedPartInitial(parts[j]));
          var pGot := seq(|pi|, j requires 0 <= j < |pi| && pi[j].Some? => pi[j].value);
          forall j | 0 <= j < |parts| ensures pGot[j] == pFixed[j] {
            assert pi[j].Some?;
          }
          assert pGot == pFixed;
        }
      }
      assert got == fixed;
    }
  }

  predicate NoLowerCase(s: string) {
    forall k | 0 <= k < |s| :: !('a' <= s[k] <= 'z')
  }

  lemma {:induction false} ConcatNoLowerCase(parts: seq<string>)
    requires forall i | 0 <= i < |parts| :: NoLowerCase(parts[i])
    ensures NoLowerCase(Concat(parts))
  {
    if parts != [] {
      ConcatNoLowerCase(parts[..|parts| - 1]);
    }
  }

  /** Parts of a list with a non-empty first entry concatenate to a non-empty string. */
  lemma {:induction false} ConcatNonEmpty(parts: seq<string>)
    requires |parts| > 0 && parts[0] != ""
    ensures Concat(parts) != ""
  {
    if |parts| > 1 {
      ConcatNonEmpty(parts[..|parts| - 1]);
    }
  }

  /** Concatenating non-empty strings gives at least one character per string. */
  lemma {:induction false} ConcatLength(parts: seq<string>)
    requires forall i | 0 <= i < |parts| :: parts[i] != ""
    ensures |Concat(parts)| >= |parts|
  {
    if parts != [] {
      ConcatLength(parts[..|parts| - 1]);
    }
  }

  /** The corrected initials of `"x-"` are `"X"`. */
  lemma AbbreviateInitialsTrailingHyphen()
    ensures AbbreviateInitials("x-") == "X"
  {
    TrailingHyphenWord();
    var parts := Split(ToUpper("x-"), '-');
    var initials := seq(|parts|, j requires 0 <= j < |parts| => FixedPartInitial(parts[j]));
    assert initials == ["X", ""];
    assert initials[..1] == ["X"] && ["X"][..0] == [];
    assert Concat(initials) == "X";
    assert FixedWordInitials("x-") == "X";
    var words := Fields("x-");
    assert seq(|words|, i requires 0 <= i < |words| => FixedWordInitials(words[i])) == ["X"];
  }
}
