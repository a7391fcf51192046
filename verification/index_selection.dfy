/**
 * Choosing the asset index to load: the `.json` entries of
 * `<minecraft dir>/assets/indexes` are sorted with a comparator that orders
 * two numeric names (`26.json`, `8.json`) by descending number and any other
 * pair by descending byte order of the whole file name, and the first one
 * is taken.
 */
module IndexSelection {
  import opened Wrappers
  import opened Text
  import opened Paths
  import opened Sorting

  /** `u32::MAX`. */
  const U32Max: nat := 0xFFFF_FFFF

  predicate IsDigit(c: char) {
    '0' <= c <= '9'
  }

  function DigitValue(c: char): (d: nat)
    requires IsDigit(c)
    ensures d < 10
  {
    (c as int) - ('0' as int)
  }

  function DigitChar(d: nat): (c: char)
    requires d < 10
    ensures IsDigit(c) && DigitValue(c) == d
  {
    ('0' as int + d) as char
  }

  predicate AllDigits(s: string) {
    forall i :: 0 <= i < |s| ==> IsDigit(s[i])
  }

  /** The number a string of decimal digits denotes, most significant first. */
  function DigitsValue(d: string): nat
    requires AllDigits(d)
    decreases |d|
  {
    if d == [] then 0 else DigitsValue(d[..|d| - 1]) * 10 + DigitValue(d[|d| - 1])
  }

  /**
   * `<u32 as FromStr>::from_str`: an optional leading `+` (a lone sign is
   * rejected, and `-` never starts an unsigned number), then one or more
   * decimal digits whose value fits in 32 bits. Leading zeros are allowed.
   */
  function ParseU32(s: string): (r: Option<nat>)
    ensures r.Some? ==> r.value <= U32Max
  {
    if s == [] || s == "+" || s == "-" then None
    else
      var digits := if s[0] == '+' then s[1..] else s;
      if AllDigits(digits) && DigitsValue(digits) <= U32Max then Some(DigitsValue(digits)) else None
  }

  /** The canonical decimal text of `n`, the partner of `ParseU32`. */
  function Decimal(n: nat): (s: string)
    ensures s != [] && AllDigits(s)
    decreases n
  {
    if n < 10 then [DigitChar(n)] else Decimal(n / 10) + [DigitChar(n % 10)]
  }

  lemma {:induction false} DecimalValue(n: nat)
    ensures DigitsValue(Decimal(n)) == n
    decreases n
  {
    if n >= 10 {
      DecimalValue(n / 10);
      var s := Decimal(n);
      assert s[..|s| - 1] == Decimal(n / 10);
    }
  }

  /** Parsing the decimal text of `n`, with or without `+`, gives `n` back exactly when `n` fits in a `u32`. */
  lemma ParseDecimal(n: nat)
    ensures ParseU32(Decimal(n)) == (if n <= U32Max then Some(n) else None)
    ensures ParseU32("+" + Decimal(n)) == ParseU32(Decimal(n))
  {
    DecimalValue(n);
    var s := Decimal(n);
    assert IsDigit(s[0]);
    assert ("+" + s)[1..] == s;
  }

  /** Leading zeros are accepted: `08` and `+08` are the number 8, while `` and `+` are no number. */
  lemma ParseLeadingZero()
    ensures ParseU32("08") == Some(8) && ParseU32("+08") == Some(8)
    ensures ParseU32("") == None && ParseU32("+") == None && ParseU32("-8") == None
  {
    assert AllDigits("08") && DigitsValue("08") == 8 by {
      assert "08"[..1] == "0" && "0"[..0] == "";
      assert IsDigit("08"[0]) && IsDigit("08"[1]);
    }
    assert "+08"[1..] == "08";
    assert !IsDigit("-8"[0]);
  }

  /** The last position of a `.` in `s`. */
  function LastDot(s: string): (r: Option<nat>)
    ensures r.Some? ==> r.value < |s| && s[r.value] == '.' && '.' !in s[r.value + 1..]
    ensures r.None? ==> '.' !in s
    decreases |s|
  {
    if s == [] then None
    else if s[|s| - 1] == '.' then Some(|s| - 1)
    else
      var r := LastDot(s[..|s| - 1]);
      assert r.Some? ==> s[r.value + 1..] == s[..|s| - 1][r.value + 1..] + [s[|s| - 1]];
      assert r.None? ==> s == s[..|s| - 1] + [s[|s| - 1]];
      r
  }

  /**
   * `Path::extension` of a directory entry named `name`: the text after the
   * last `.`, provided that dot is not the first character and the name is
   * not `..`.
   */
  function Extension(name: string): (r: Option<string>)
    ensures r.Some? <==> name != ".." && exists i :: 0 < i < |name| && name[i] == '.'
    ensures r.Some? ==> '.' !in r.value && EndsWith(name, "." + r.value) && |r.value| + 1 < |name|
  {
    if name == ".." then None
    else match LastDot(name)
      case None => None
      case Some(i) =>
        if i == 0 then
          assert forall j :: 0 < j < |name| ==> name[j] == name[1..][j - 1];
          None
        else
          assert name[i..] == "." + name[i + 1..];
          Some(name[i + 1..])
  }

  /** An entry has extension `json` exactly when its name is longer than `.json` and ends with it. */
  lemma JsonExtensionIff(name: string)
    ensures Extension(name) == Some("json") <==> |name| > 5 && EndsWith(name, ".json")
  {
    if |name| > 5 && EndsWith(name, ".json") {
      var i := |name| - 5;
      assert name[i] == '.';
      assert name[i + 1..] == "json";
    }
  }

  /** The entries `find_latest_index` keeps, in directory order. */
  function JsonIndexes(listing: seq<string>): (r: seq<string>)
    ensures forall x :: x in r <==> x in listing && Extension(x) == Some("json")
    ensures |r| <= |listing|
  {
    if listing == [] then []
    else
      var rest := JsonIndexes(listing[1..]);
      if Extension(listing[0]) == Some("json") then [listing[0]] + rest else rest
  }

  /** The number in an index file name: the name less `.json`, parsed as a `u32`. */
  function IndexNumber(name: string): (r: Option<nat>)
    ensures r.Some? ==> EndsWith(name, ".json") && r.value <= U32Max
    ensures EndsWith(name, ".json") ==> r == ParseU32(name[..|name| - 5])
  {
    match StripSuffix(name, ".json")
    case None => None
    case Some(stem) => ParseU32(stem)
  }

  /** `Ord for u32`. */
  function NumCmp(x: nat, y: nat): (r: Ordering)
    ensures r == Less <==> x < y
    ensures r == Equal <==> x == y
  {
    if x < y then Less else if x > y then Greater else Equal
  }

  /** The comparator handed to `sort_by` in `find_latest_index`. */
  function IndexCmp(a: string, b: string): (r: Ordering)
    // Two numeric names: descending by number; equal numbers are equal.
    ensures IndexNumber(a).Some? && IndexNumber(b).Some? ==>
              && (r == Less <==> IndexNumber(a).value > IndexNumber(b).value)
              && (r == Equal <==> IndexNumber(a).value == IndexNumber(b).value)
    // Otherwise: descending by the whole file name.
    ensures IndexNumber(a).None? || IndexNumber(b).None? ==>
              && (r == Less <==> StrLess(b, a))
              && (r == Equal <==> a == b)
  {
    CompareEqualIff(b, a);
    match (IndexNumber(a), IndexNumber(b))
    case (Some(x), Some(y)) => NumCmp(y, x)
    case _ => Compare(b, a)
  }

  /** `a` is placed before `b`: the "is less" test `sort_by` derives from `IndexCmp`. */
  predicate IndexLess(a: string, b: string)
    ensures IndexLess(a, b) ==> a != b && IndexCmp(b, a) == Greater
  {
    CompareFlip(a, b);
    CompareEqualIff(a, a);
    IndexCmp(a, b) == Less
  }

  ghost predicate AllNumeric(names: seq<string>) {
    forall x :: x in names ==> IndexNumber(x).Some?
  }

  /** `name` is an entry with a number no other numeric entry exceeds. */
  ghost predicate HasLargestNumber(names: seq<string>, name: string) {
    && name in names
    && IndexNumber(name).Some?
    && forall x :: x in names && IndexNumber(x).Some? ==> IndexNumber(x).value <= IndexNumber(name).value
  }

  /** No name is placed before itself. */
  lemma IndexIrreflexive(a: string)
    ensures !IndexLess(a, a)
  {
    CompareEqualIff(a, a);
  }

  /** Between two numeric names, the larger number comes first. */
  lemma IndexLessNumeric(a: string, b: string)
    requires IndexNumber(a).Some? && IndexNumber(b).Some?
    ensures IndexLess(a, b) <==> IndexNumber(a).value > IndexNumber(b).value
  {
  }

  /** As soon as one name is not numeric, the greater file name comes first. */
  lemma IndexLessMixed(a: string, b: string)
    requires IndexNumber(a).None? || IndexNumber(b).None?
    ensures IndexLess(a, b) <==> StrLess(b, a)
  {
  }

  /** On numeric names alone the comparator is a strict weak order, so the sort is well defined. */
  lemma NumericIsStrictWeak(names: seq<string>)
    requires AllNumeric(names)
    ensures StrictWeakOn(IndexLess, names)
  {
  }

  /** On numeric names, the first entry of the sorted list carries the largest number. */
  lemma NumericLeastIsLargest(names: seq<string>, name: string)
    requires AllNumeric(names)
    requires IsLeast(IndexLess, names, name)
    ensures HasLargestNumber(names, name)
  {
    forall x | x in names
      ensures IndexNumber(x).value <= IndexNumber(name).value
    {
      assert !IndexLess(x, name);
    }
  }

  /**
   * What is known of the entry `find_latest_index` picks from `indexes`: it is
   * one of them; no entry sorts before it whenever the comparator is a strict
   * weak order on them; and when all are numeric it has the largest number.
   */
  ghost predicate Selected(indexes: seq<string>, name: string) {
    && name in indexes
    && (StrictWeakOn(IndexLess, indexes) ==> IsLeast(IndexLess, indexes, name))
    && (AllNumeric(indexes) ==> HasLargestNumber(indexes, name))
  }

  /** The number of `<stem>.json` is the stem parsed as a `u32`. */
  lemma IndexNumberOfStem(stem: string)
    ensures IndexNumber(stem + ".json") == ParseU32(stem)
  {
    assert (stem + ".json")[..|stem|] == stem;
  }

  /** `26.json` is placed before `8.json`: numbers, not text, decide (text alone would put `8` first). */
  lemma TwentySixBeforeEight()
    ensures IndexLess("26.json", "8.json") && !IndexLess("8.json", "26.json")
    ensures StrLess("26.json", "8.json")
  {
    NumberOfTwentySix();
    NumberOfEight();
    assert StrLess("26.json", "8.json");
  }

  /** An entry no other sorts before is a possible pick. */
  lemma LeastIsSelected(names: seq<string>, name: string)
    requires IsLeast(IndexLess, names, name)
    ensures Selected(names, name)
  {
    if AllNumeric(names) {
      NumericLeastIsLargest(names, name);
    }
  }

  /** Of `8.json` and `26.json`, the entry picked is `26.json`, and it can be picked. */
  lemma TwentySixIsLatest()
    ensures Selected(["8.json", "26.json"], "26.json")
    ensures forall name :: Selected(["8.json", "26.json"], name) ==> name == "26.json"
  {
    TwentySixBeforeEight();
    IndexIrreflexive("8.json");
    IndexIrreflexive("26.json");
    PairLeast(IndexLess, "8.json", "26.json");
    LeastIsSelected(["8.json", "26.json"], "26.json");
    forall name | Selected(["8.json", "26.json"], name) ensures name == "26.json" {
      LeastOfPair(IndexLess, "8.json", "26.json", name);
    }
  }

  /**
   * As written, a non-numeric name outranks a numeric one whenever it is the
   * greater text: `bad.json` is placed before `8.json` because `b` > `8`.
   */
  lemma NonNumericOutranksNumeric()
    ensures IndexNumber("bad.json").None? && IndexNumber("8.json") == Some(8)
    ensures IndexLess("bad.json", "8.json") && !IndexLess("8.json", "bad.json")
  {
    BadHasNoNumber();
    NumberOfEight();
    assert StrLess("8.json", "bad.json");
  }

  lemma BadHasNoNumber()
    ensures IndexNumber("bad.json").None?
  {
    IndexNumberOfStem("bad");
    assert "bad" + ".json" == "bad.json";
    assert !IsDigit("bad"[0]);
  }

  lemma NumberOfEight()
    ensures IndexNumber("8.json") == Some(8)
  {
    IndexNumberOfStem("8");
    assert "8" + ".json" == "8.json";
  }

  lemma NumberOfTwentySix()
    ensures IndexNumber("26.json") == Some(26)
  {
    IndexNumberOfStem("26");
    assert "26" + ".json" == "26.json";
    assert DigitsValue("26") == 26 by { assert "26"[..1] == "2"; }
  }

  /** So from `8.json` and `bad.json` the code loads `bad.json`. */
  lemma WrittenPicksNonNumeric()
    ensures Selected(["8.json", "bad.json"], "bad.json")
    ensures forall name :: Selected(["8.json", "bad.json"], name) ==> name == "bad.json"
  {
    NonNumericOutranksNumeric();
    IndexIrreflexive("8.json");
    IndexIrreflexive("bad.json");
    PairLeast(IndexLess, "8.json", "bad.json");
    LeastIsSelected(["8.json", "bad.json"], "bad.json");
    forall name | Selected(["8.json", "bad.json"], name) ensures name == "bad.json" {
      LeastOfPair(IndexLess, "8.json", "bad.json", name);
    }
  }

  /**
   * From `8.json`, `26.json` and `bad.json` the code loads `bad.json`: the
   * comparator orders these three consistently, as `bad.json`, `26.json`,
   * `8.json`, so the sort is well defined and puts `bad.json` first.
   */
  lemma WrittenPicksBad()
    ensures Selected(["8.json", "26.json", "bad.json"], "bad.json")
    ensures forall name :: Selected(["8.json", "26.json", "bad.json"], name) ==> name == "bad.json"
  {
    BadTwentySixEightChain();
    var names := ["8.json", "26.json", "bad.json"];
    ChainLeast(IndexLess, names, "bad.json", "26.json", "8.json");
    LeastIsSelected(names, "bad.json");
    forall name | Selected(names, name) ensures name == "bad.json" {
      LeastOfChain(IndexLess, names, "bad.json", "26.json", "8.json", name);
    }
  }

  /** The comparator ranks `bad.json` before `26.json` before `8.json`, and never the other way round. */
  lemma BadTwentySixEightChain()
    ensures IndexLess("bad.json", "26.json") && IndexLess("26.json", "8.json") && IndexLess("bad.json", "8.json")
    ensures !IndexLess("26.json", "bad.json") && !IndexLess("8.json", "26.json") && !IndexLess("8.json", "bad.json")
    ensures !IndexLess("8.json", "8.json") && !IndexLess("26.json", "26.json") && !IndexLess("bad.json", "bad.json")
  {
    TwentySixBeforeEight();
    NonNumericOutranksNumeric();
    BadBeforeTwentySix();
    IndexIrreflexive("8.json");
    IndexIrreflexive("26.json");
    IndexIrreflexive("bad.json");
  }

  lemma BadBeforeTwentySix()
    ensures IndexLess("bad.json", "26.json") && !IndexLess("26.json", "bad.json")
  {
    NonNumericOutranksNumeric();
    assert StrLess("26.json", "bad.json");
  }

  /**
   * The comparator is not a strict weak order once numeric and non-numeric
   * names mix: `10.json` comes before `9.json` (by number), `9.json` before
   * `5x.json` and `5x.json` before `10.json` (by text), a cycle.
   */
  lemma ComparatorCycle()
    ensures IndexLess("10.json", "9.json") && !IndexLess("9.json", "10.json")
    ensures IndexLess("9.json", "5x.json")
    ensures IndexLess("5x.json", "10.json") && !IndexLess("10.json", "5x.json")
  {
    CycleNumbers();
  }

  lemma CycleNumbers()
    ensures IndexNumber("10.json") == Some(10)
    ensures IndexNumber("9.json") == Some(9)
    ensures IndexNumber("5x.json").None?
  {
    NumberOfTen();
    NumberOfNine();
    FiveXHasNoNumber();
  }

  lemma NumberOfNine()
    ensures IndexNumber("9.json") == Some(9)
  {
    IndexNumberOfStem("9");
    assert "9" + ".json" == "9.json";
  }

  lemma FiveXHasNoNumber()
    ensures IndexNumber("5x.json").None?
  {
    IndexNumberOfStem("5x");
    assert "5x" + ".json" == "5x.json";
    assert !IsDigit("5x"[1]);
  }

  lemma NumberOfTen()
    ensures IndexNumber("10.json") == Some(10)
  {
    IndexNumberOfStem("10");
    assert "10" + ".json" == "10.json";
    assert DigitsValue("10") == 10 by { assert "10"[..1] == "1"; }
  }

  /** Hence no sort can be relied on to order `10.json`, `9.json` and `5x.json`. */
  lemma MixedNamesNotStrictWeak()
    ensures !StrictWeakOn(IndexLess, ["10.json", "9.json", "5x.json"])
  {
    ComparatorCycle();
    var s := ["10.json", "9.json", "5x.json"];
    NotStrictWeak(IndexLess, s, s[1], s[0], s[2]);
  }

  /**
   * The order evidently intended: numeric names first, by descending number,
   * then the other names by descending text.
   */
  function IntendedCmp(a: string, b: string): Ordering {
    match (IndexNumber(a), IndexNumber(b))
    case (Some(x), Some(y)) => NumCmp(y, x)
    case (Some(_), None) => Less
    case (None, Some(_)) => Greater
    case (None, None) => Compare(b, a)
  }

  predicate IntendedLess(a: string, b: string) {
    IntendedCmp(a, b) == Less
  }

  /** Unlike `IndexCmp`, the intended order is a strict weak order on any set of names. */
  lemma IntendedIsStrictWeak(names: seq<string>)
    ensures StrictWeakOn(IntendedLess, names)
  {
    forall x, y | IntendedLess(x, y) ensures !IntendedLess(y, x) {
      StrLessStrictTotal(y, x, x);
    }
    forall x, y, z | !IntendedLess(x, y) && !IntendedLess(y, z) ensures !IntendedLess(x, z) {
      StrLessStrictTotal(z, y, x);
      StrLessStrictTotal(y, x, z);
      StrLessStrictTotal(x, z, y);
      StrLessStrictTotal(z, x, y);
    }
  }

  /** Under the intended order, the entry picked has the largest number as soon as any entry is numeric. */
  lemma IntendedPicksLargest(names: seq<string>, name: string, numeric: string)
    requires IsLeast(IntendedLess, names, name)
    requires numeric in names && IndexNumber(numeric).Some?
    ensures HasLargestNumber(names, name)
  {
    assert !IntendedLess(numeric, name);
    forall x | x in names && IndexNumber(x).Some?
      ensures IndexNumber(x).value <= IndexNumber(name).value
    {
      assert !IntendedLess(x, name);
    }
  }

  /** Under the intended order, `26.json` is picked from `8.json`, `26.json` and `bad.json`. */
  lemma IntendedPicksTwentySix(name: string)
    requires IsLeast(IntendedLess, ["8.json", "26.json", "bad.json"], name)
    ensures name == "26.json"
  {
    TwentySixBeforeEight();
    NonNumericOutranksNumeric();
    var names := ["8.json", "26.json", "bad.json"];
    IntendedPicksLargest(names, name, "26.json");
    assert IndexNumber(name).value >= 26;
  }

  /** Element 0 of the list `sort_by` leaves is what `find_latest_index` may pick. */
  lemma SortedFirstIsSelected(indexes: seq<string>, sorted: seq<string>)
    requires sorted != [] && multiset(sorted) == multiset(indexes)
    requires StrictWeakOn(IndexLess, indexes) ==> SortedBy(IndexLess, sorted)
    ensures Selected(indexes, sorted[0])
  {
    FirstOfSorted(IndexLess, indexes, sorted);
    if AllNumeric(indexes) {
      NumericIsStrictWeak(indexes);
      NumericLeastIsLargest(indexes, sorted[0]);
    }
  }

  /**
   * The sort and pick of `find_latest_index`: sorts a copy of the index
   * names with the comparator and returns the first.
   */
  method Latest(indexes: seq<string>) returns (latest: string)
    requires indexes != []
    ensures Selected(indexes, latest)
  {
    var a := new string[|indexes|](i requires 0 <= i < |indexes| => indexes[i]);
    assert a[..] == indexes;
    SortBy(a, IndexLess);
    latest := a[0];
    SortedFirstIsSelected(indexes, a[..]);
  }

  /**
   * The corrected sort and pick: with numeric names first, the entry picked
   * carries the largest number whenever any entry is numeric.
   */
  method LatestIntended(indexes: seq<string>) returns (latest: string)
    requires indexes != []
    ensures IsLeast(IntendedLess, indexes, latest)
    ensures (exists x :: x in indexes && IndexNumber(x).Some?) ==> HasLargestNumber(indexes, latest)
  {
    var a := new string[|indexes|](i requires 0 <= i < |indexes| => indexes[i]);
    assert a[..] == indexes;
    IntendedIsStrictWeak(indexes);
    SortBy(a, IntendedLess);
    latest := a[0];
    FirstOfSorted(IntendedLess, indexes, a[..]);
    if x :| x in indexes && IndexNumber(x).Some? {
      IntendedPicksLargest(indexes, latest, x);
    }
  }

  /** The directory `find_latest_index` lists. */
  function IndexesDir(minecraftDir: Path): (r: Path)
    ensures r == minecraftDir + Separator(minecraftDir) + "assets" + "/" + "indexes"
  {
    JoinTwice(minecraftDir, "assets", "indexes");
    Join(Join(minecraftDir, "assets"), "indexes")
  }

  /** `path` is an index file `find_latest_index` may return for `minecraftDir` when the directory lists `listing`. */
  ghost predicate ChosenIndex(minecraftDir: Path, listing: Option<seq<string>>, path: Path) {
    listing.Some? && exists name :: Selected(JsonIndexes(listing.value), name) && path == Join(IndexesDir(minecraftDir), name)
  }

  /** `find_latest_index` fails: no indexes directory, an unreadable one, or no `.json` entry in it. */
  ghost predicate NoIndexToChoose(minecraftDir: Path, present: set<Path>, listing: Option<seq<string>>) {
    IndexesDir(minecraftDir) !in present || listing.None? || JsonIndexes(listing.value) == []
  }

  datatype IndexError =
    | NoIndexesDirectory          // the indexes directory does not exist
    | ReadDirFailed(dir: Path)    // `fs::read_dir` failed on it
    | NoIndexFiles(dir: Path)     // it holds no entry with extension `json`

  /**
   * `find_latest_index`. `present` is the set of paths that exist; `listing`
   * is what `fs::read_dir` yields for the indexes directory (the names of the
   * entries it reads without error), or None when it fails.
   */
  method FindLatestIndex(minecraftDir: Path, present: set<Path>, listing: Option<seq<string>>)
    returns (r: Result<Path, IndexError>)
    ensures r == Failure(NoIndexesDirectory) <==> IndexesDir(minecraftDir) !in present
    ensures r == Failure(ReadDirFailed(IndexesDir(minecraftDir))) <==>
              IndexesDir(minecraftDir) in present && listing.None?
    ensures r == Failure(NoIndexFiles(IndexesDir(minecraftDir))) <==>
              IndexesDir(minecraftDir) in present && listing.Some? && JsonIndexes(listing.value) == []
    ensures r.Failure? <==> NoIndexToChoose(minecraftDir, present, listing)
    ensures r.Success? ==> ChosenIndex(minecraftDir, listing, r.value)
  {
    var indexesDir := IndexesDir(minecraftDir);
    if indexesDir !in present {
      return Failure(NoIndexesDirectory);
    }
    if listing.None? {
      return Failure(ReadDirFailed(indexesDir));
    }
    var indexes := JsonIndexes(listing.value);
    if indexes == [] {
      return Failure(NoIndexFiles(indexesDir));
    }
    var latest := Latest(indexes);
    assert Selected(JsonIndexes(listing.value), latest);
    r := Success(Join(indexesDir, latest));
  }
}
