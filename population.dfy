/**
 * Table preparation of the US-population-by-state chart
 * (areas/5-us-population-by-state/static/script.js, `processData` up to
 * the stacking step): the census-regions rows become a state-to-division
 * map, the population TSV becomes one `{name, values}` record per state,
 * the states are sorted by census division and then by total population,
 * and the result is transposed into one row per decade.
 *
 * Dates are modelled by their year; `Date.UTC` is not part of this model.
 */
module Population {
  import opened Wrappers
  import Sorting

  /** A row of the census-regions CSV: its `State` and `Division` columns. */
  datatype RegionRow = RegionRow(state: string, division: string)

  /**
   * A row of the population TSV: the cell of the unnamed first column
   * (`d[""]`, the state's name) and every other cell keyed by its header.
   */
  datatype TsvRow = TsvRow(name: string, cells: map<string, string>)

  /** One state: its name and one population figure per year. */
  datatype State = State(name: string, values: seq<int>)

  /** A value in a year row: the row's `date` or one state's population. */
  datatype Cell = Date(year: int) | Count(population: int)

  /** Stripping commas from the cell of a column the row lacks (undefined) throws a TypeError. */
  datatype Error = UndefinedCell(row: nat, column: string)

  /**
   * What the preparation hands on: the year rows (`data`), their
   * `data.columns`, the state-to-division map, and the sorted states.
   */
  datatype Prepared = Prepared(
    data: seq<map<string, Cell>>,
    columns: seq<string>,
    regionByState: map<string, string>,
    states: seq<State>)

  /** The census divisions in the chart's stacking order. */
  const RegionRank: seq<string> := [
    "New England",
    "Middle Atlantic",
    "South Atlantic",
    "East South Central",
    "West South Central",
    "East North Central",
    "West North Central",
    "Mountain",
    "Pacific"
  ]

  // ---------------------------------------------------------------------
  // Library behaviour the preparation relies on
  // ---------------------------------------------------------------------

  /** `d3.range(start, stop, step)` for a positive step. */
  function Range(start: int, stop: int, step: int): (r: seq<int>)
    requires step > 0
    ensures r == [] <==> stop <= start
    ensures r != [] ==> r[0] == start && r[|r| - 1] < stop <= r[|r| - 1] + step
    ensures forall i :: 0 < i < |r| ==> r[i] == r[i - 1] + step
    decreases stop - start
  {
    if start < stop then [start] + Range(start + step, stop, step) else []
  }

  /** The census years 1790, 1800, ..., 1990 (see `YearsIsRange`). */
  function Years(): (r: seq<int>)
    ensures |r| == 21
  {
    seq(21, i => 1790 + 10 * i)
  }

  /** `years` is `d3.range(1790, 2000, 10)`: 21 decades from 1790 to 1990. */
  lemma YearsIsRange()
    ensures Years() == Range(1790, 2000, 10)
    ensures Years()[0] == 1790 && Years()[20] == 1990
  {
    var start, stop, step := 1790, 2000, 10;
    var r := Range(start, stop, step);
    forall i | 0 <= i < |r| ensures r[i] == 1790 + 10 * i {
      DecadeAt(r, i);
    }
    assert |r| == 21;
    assert r == Years();
  }

  /** In a sequence that starts at 1790 and steps by 10, element `i` is `1790 + 10 * i`. */
  lemma {:induction false} DecadeAt(r: seq<int>, i: nat)
    requires r != [] && r[0] == 1790 && forall j :: 0 < j < |r| ==> r[j] == r[j - 1] + 10
    requires i < |r|
    ensures r[i] == 1790 + 10 * i
  {
    if i > 0 {
      DecadeAt(r, i - 1);
    }
  }

  /** `Array.prototype.indexOf`: the first position of `x`, or -1. */
  function IndexOf(s: seq<string>, x: string): (r: int)
    ensures -1 <= r < |s|
    ensures r == -1 <==> x !in s
    ensures 0 <= r ==> s[r] == x && x !in s[..r]
  {
    if x !in s then -1
    else if s[0] == x then 0
    else
      var r := 1 + IndexOf(s[1..], x);
      assert s[..r] == [s[0]] + s[1..][..r - 1];
      r
  }

  /**
   * `new Map(entries)` and `Object.fromEntries(entries)`: the entries are
   * stored in order, so a later entry overwrites an earlier one with the
   * same key (see `FromEntriesKeys` and `FromEntriesLastWins`).
   */
  function FromEntries<K, V>(entries: seq<(K, V)>): (m: map<K, V>)
    ensures |m| <= |entries|
  {
    if entries == [] then map[]
    else
      var last := entries[|entries| - 1];
      FromEntries(entries[..|entries| - 1])[last.0 := last.1]
  }

  /** There is one key per distinct entry key. */
  lemma {:induction false} FromEntriesKeys<K, V>(entries: seq<(K, V)>, k: K)
    ensures k in FromEntries(entries) <==> exists i :: 0 <= i < |entries| && entries[i].0 == k
  {
    if entries != [] {
      var init := entries[..|entries| - 1];
      FromEntriesKeys(init, k);
      if exists i :: 0 <= i < |init| && init[i].0 == k {
        var i :| 0 <= i < |init| && init[i].0 == k;
        assert entries[i].0 == k;
      }
      if exists i :: 0 <= i < |entries| && entries[i].0 == k {
        var i :| 0 <= i < |entries| && entries[i].0 == k;
        if i < |init| { assert init[i].0 == k; }
      }
    }
  }

  /** The value under a key is that of the last entry with the key. */
  lemma {:induction false} FromEntriesLastWins<K, V>(entries: seq<(K, V)>, i: nat)
    requires i < |entries| && LastWithKey(entries, i)
    ensures entries[i].0 in FromEntries(entries) && FromEntries(entries)[entries[i].0] == entries[i].1
  {
    var init := entries[..|entries| - 1];
    if i < |init| {
      assert init[i] == entries[i];
      assert LastWithKey(init, i);
      FromEntriesLastWins(init, i);
    }
  }

  /** No entry after position `i` has the key of entry `i`. */
  predicate LastWithKey<K(==), V>(entries: seq<(K, V)>, i: int)
    requires 0 <= i < |entries|
  {
    forall j :: i < j < |entries| ==> entries[j].0 != entries[i].0
  }

  // ---------------------------------------------------------------------
  // Cell parsing: strip commas, convert with unary plus, replace NaN or 0 by 0
  // ---------------------------------------------------------------------

  /** `s` with every comma removed (a global regular-expression replace), other characters in order. */
  function StripCommas(s: string): (r: string)
    ensures ',' !in r
    ensures forall c :: c != ',' ==> multiset(r)[c] == multiset(s)[c]
  {
    if s == [] then []
    else
      assert s == [s[0]] + s[1..];
      (if s[0] == ',' then [] else [s[0]]) + StripCommas(s[1..])
  }

  /** The characters JavaScript's string-to-number conversion trims (white space and line terminators). */
  predicate IsSpace(c: char)
  {
    var n := c as int;
    n == 0x09 || n == 0x0A || n == 0x0B || n == 0x0C || n == 0x0D || n == 0x20 ||
    n == 0xA0 || n == 0x1680 || (0x2000 <= n <= 0x200A) || n == 0x2028 || n == 0x2029 ||
    n == 0x202F || n == 0x205F || n == 0x3000 || n == 0xFEFF
  }

  /** `s` without its leading white space. */
  function TrimStart(s: string): (r: string)
    ensures |r| <= |s| && r == s[|s| - |r|..]
    ensures forall k :: 0 <= k < |s| - |r| ==> IsSpace(s[k])
    ensures r == [] || !IsSpace(r[0])
  {
    if s != [] && IsSpace(s[0]) then TrimStart(s[1..]) else s
  }

  /** `s` without its trailing white space. */
  function TrimEnd(s: string): (r: string)
    ensures |r| <= |s| && r == s[..|r|]
    ensures forall k :: |r| <= k < |s| ==> IsSpace(s[k])
    ensures r == [] || !IsSpace(r[|r| - 1])
  {
    if s != [] && IsSpace(s[|s| - 1]) then TrimEnd(s[..|s| - 1]) else s
  }

  /** `s` without leading and trailing white space, as `String.prototype.trim` gives it. */
  function Trim(s: string): (r: string)
    ensures r == [] || (!IsSpace(r[0]) && !IsSpace(r[|r| - 1]))
  {
    var t := TrimStart(s);
    var r := TrimEnd(t);
    assert r != [] ==> r[0] == t[0];
    r
  }

  predicate IsAsciiLetter(c: char)
  {
    ('a' <= c <= 'z') || ('A' <= c <= 'Z')
  }

  predicate IsDigit(c: char)
  {
    '0' <= c <= '9'
  }

  predicate AllDigits(s: string)
  {
    forall i :: 0 <= i < |s| ==> IsDigit(s[i])
  }

  /** The value of a string of decimal digits (leading zeros allowed). */
  function DigitsValue(s: string): nat
    requires AllDigits(s)
  {
    if s == [] then 0
    else DigitsValue(s[..|s| - 1]) * 10 + (s[|s| - 1] as int - '0' as int)
  }

  /**
   * JavaScript's unary `+` on a string, for decimal integer literals: an
   * empty or blank string is 0, an optionally signed run of digits is its
   * value, anything else is NaN (`None`).
   */
  function ToNumber(s: string): (r: Option<int>)
    ensures Trim(s) == [] ==> r == Some(0)
    ensures r.Some? && Trim(s) != [] ==>
              forall k :: 0 <= k < |Trim(s)| ==> IsDigit(Trim(s)[k]) || (k == 0 && Trim(s)[k] in {'+', '-'})
  {
    var t := Trim(s);
    if t == [] then Some(0)
    else if (t[0] == '+' || t[0] == '-') && |t| > 1 && AllDigits(t[1..]) then
      var magnitude: int := DigitsValue(t[1..]);
      Some(if t[0] == '-' then -magnitude else magnitude)
    else if AllDigits(t) then Some(DigitsValue(t))
    else None
  }

  /** One population cell: commas stripped, converted, and NaN (or 0) replaced by 0. */
  function ParseCell(cell: string): (r: int)
    ensures ToNumber(StripCommas(cell)).None? ==> r == 0
    ensures r != 0 ==> ToNumber(StripCommas(cell)) == Some(r)
  {
    match ToNumber(StripCommas(cell))
    case Some(v) => v
    case None => 0
  }

  /** The decimal digit of `d`. */
  function Digit(d: nat): (c: char)
    requires d < 10
    ensures IsDigit(c) && c as int - '0' as int == d
  {
    "0123456789"[d]
  }

  /**
   * The shortest decimal representation of `n`. JavaScript's `String(n)`
   * writes the same for `n` below 10^21 (above, it uses exponent form).
   */
  function DecimalString(n: nat): (s: string)
    ensures |s| >= 1 && AllDigits(s)
    ensures s[0] == '0' ==> n == 0
  {
    if n < 10 then [Digit(n)]
    else DecimalString(n / 10) + [Digit(n % 10)]
  }

  /** `String(y)` for an integer `y`: the property key under which a row holds year `y`. */
  function NumberKey(y: int): string
  {
    if y < 0 then "-" + DecimalString(-y) else DecimalString(y)
  }

  /** Reading back a decimal representation gives the number. */
  lemma {:induction false} DecimalRoundTrip(n: nat)
    ensures DigitsValue(DecimalString(n)) == n
  {
    if n >= 10 {
      DecimalRoundTrip(n / 10);
      var s := DecimalString(n);
      assert s[..|s| - 1] == DecimalString(n / 10);
    }
  }

  /** Digit strings hold no comma, so stripping commas leaves them alone. */
  lemma {:induction false} StripCommasKeepsDigits(s: string)
    requires AllDigits(s)
    ensures StripCommas(s) == s
  {
    if s != [] {
      StripCommasKeepsDigits(s[1..]);
    }
  }

  /** Stripping commas twice is stripping them once. */
  lemma {:induction false} StripCommasIdempotent(s: string)
    ensures StripCommas(StripCommas(s)) == StripCommas(s)
  {
    if s != [] {
      StripCommasIdempotent(s[1..]);
      var rest := StripCommas(s[1..]);
      if s[0] == ',' {
        assert StripCommas(s) == rest;
      } else {
        var t := [s[0]] + rest;
        assert StripCommas(s) == t;
        assert t[1..] == rest;
        assert StripCommas(t) == [s[0]] + StripCommas(rest);
      }
    }
  }

  /** Commas never change a cell's value. */
  lemma CellIgnoresCommas(cell: string)
    ensures ParseCell(StripCommas(cell)) == ParseCell(cell)
  {
    StripCommasIdempotent(cell);
  }

  /** A string that starts and ends with non-space characters is its own trim. */
  lemma TrimUnpadded(s: string)
    requires s != [] && !IsSpace(s[0]) && !IsSpace(s[|s| - 1])
    ensures Trim(s) == s
  {
  }

  /** A non-empty run of digits converts to its value. */
  lemma ToNumberOfDigits(d: string)
    requires d != [] && AllDigits(d)
    ensures ToNumber(d) == Some(DigitsValue(d))
  {
    TrimUnpadded(d);
    assert d[0] != '+' && d[0] != '-';
  }

  /** A minus sign followed by a non-empty run of digits converts to the negated value. */
  lemma ToNumberOfNegative(d: string)
    requires d != [] && AllDigits(d)
    ensures ToNumber("-" + d) == Some(0 - DigitsValue(d))
  {
    var s := "-" + d;
    TrimUnpadded(s);
    assert s[1..] == d;
  }

  /** A cell holding the decimal form of any integer `n` parses back to `n`. */
  lemma CellRoundTrip(n: int)
    ensures ParseCell(NumberKey(n)) == n
  {
    var m: nat := if n < 0 then -n else n;
    var d := DecimalString(m);
    DecimalRoundTrip(m);
    StripCommasKeepsDigits(d);
    if n < 0 {
      ToNumberOfNegative(d);
      var s := "-" + d;
      assert StripCommas(s) == [s[0]] + StripCommas(s[1..]);
      assert s[1..] == d;
    } else {
      ToNumberOfDigits(d);
    }
  }

  /** `n` written with a comma between each group of three digits, as in "3,929,214". */
  function Grouped(n: nat): string
  {
    if n < 1000 then DecimalString(n)
    else Grouped(n / 1000) + "," + ThreeDigits(n % 1000)
  }

  /** The three digits of `m`, with leading zeros. */
  function ThreeDigits(m: nat): (s: string)
    requires m < 1000
    ensures |s| == 3 && AllDigits(s)
  {
    [Digit(m / 100), Digit(m / 10 % 10), Digit(m % 10)]
  }

  /** Stripping commas distributes over concatenation. */
  lemma {:induction false} StripCommasAppend(a: string, b: string)
    ensures StripCommas(a + b) == StripCommas(a) + StripCommas(b)
  {
    if a != [] {
      assert (a + b)[1..] == a[1..] + b;
      StripCommasAppend(a[1..], b);
    } else {
      assert a + b == b;
    }
  }

  /** The decimal representation of `n >= 1000` ends in the three digits of `n % 1000`. */
  lemma DecimalSplit(n: nat)
    requires n >= 1000
    ensures DecimalString(n) == DecimalString(n / 1000) + ThreeDigits(n % 1000)
  {
    var d1 := n / 10;
    var d2 := d1 / 10;
    var d3 := d2 / 10;
    DigitShift(n);
    assert DecimalString(n) == DecimalString(d1) + [Digit(n % 10)];
    assert DecimalString(d1) == DecimalString(d2) + [Digit(d1 % 10)];
    assert DecimalString(d2) == DecimalString(d3) + [Digit(d2 % 10)];
  }

  /** Dropping three decimal digits one at a time is dividing by 1000. */
  lemma DigitShift(n: nat)
    ensures n / 10 / 10 / 10 == n / 1000
    ensures n / 10 / 10 % 10 == n % 1000 / 100
    ensures n / 10 % 10 == n % 1000 / 10 % 10
    ensures n % 10 == n % 1000 % 10
  {
    var q, r := n / 1000, n % 1000;
    assert n == 1000 * q + r;
    assert n / 10 == 100 * q + r / 10;
    assert n / 10 / 10 == 10 * q + r / 100;
  }

  /** Removing the separators of a grouped number leaves its decimal representation. */
  lemma {:induction false} StripGrouped(n: nat)
    ensures StripCommas(Grouped(n)) == DecimalString(n)
  {
    if n < 1000 {
      StripCommasKeepsDigits(DecimalString(n));
    } else {
      StripGrouped(n / 1000);
      StripCommasAppend(Grouped(n / 1000) + ",", ThreeDigits(n % 1000));
      StripCommasAppend(Grouped(n / 1000), ",");
      StripCommasKeepsDigits(ThreeDigits(n % 1000));
      DecimalSplit(n);
    }
  }

  /** A cell such as "3,929,214" parses to the number it groups. */
  lemma GroupedCellRoundTrip(n: nat)
    ensures ParseCell(Grouped(n)) == n
  {
    StripGrouped(n);
    DecimalRoundTrip(n);
    ToNumberOfDigits(DecimalString(n));
  }

  /** A cell made only of white space and commas (an empty cell among them) reads as 0. */
  lemma BlankCellIsZero(cell: string)
    requires forall i :: 0 <= i < |cell| ==> IsSpace(cell[i]) || cell[i] == ','
    ensures ParseCell(cell) == 0
  {
    var s := StripCommas(cell);
    forall i | 0 <= i < |s| ensures IsSpace(s[i]) {
      assert s[i] in multiset(s);
      assert s[i] in multiset(cell);
    }
    assert TrimStart(s) == [];
  }

  /** Every character other than a comma survives comma stripping. */
  lemma StripCommasKeeps(s: string, c: char)
    requires c in s && c != ','
    ensures c in StripCommas(s)
  {
    assert c in multiset(s);
    assert c in multiset(StripCommas(s));
  }

  /** Every character other than white space survives trimming. */
  lemma TrimKeeps(s: string, c: char)
    requires c in s && !IsSpace(c)
    ensures c in Trim(s)
  {
    var q :| 0 <= q < |s| && s[q] == c;
    var u := TrimStart(s);
    var q' := q - (|s| - |u|);
    assert u[q'] == c;
    var t := TrimEnd(u);
    assert t[q'] == c;
  }

  /** A trimmed string holding a character that is neither digit nor sign is NaN. */
  lemma NotANumber(s: string, c: char)
    requires c in Trim(s) && !IsDigit(c) && c != '+' && c != '-'
    ensures ToNumber(s) == None
  {
    var t := Trim(s);
    var q :| 0 <= q < |t| && t[q] == c;
    if q > 0 {
      assert t[1..][q - 1] == c;
    }
  }

  /**
   * A cell holding a character that is neither a digit, a sign, white
   * space, a comma, a decimal point nor an ASCII letter is not a number,
   * and reads as 0. (Points and letters are left out because JavaScript
   * also accepts fractions, exponents, hexadecimal and `Infinity`.)
   */
  lemma NonNumericCellIsZero(cell: string, p: nat)
    requires p < |cell|
    requires !IsDigit(cell[p]) && !IsSpace(cell[p]) && cell[p] !in {',', '+', '-', '.'}
    requires !IsAsciiLetter(cell[p])
    ensures ParseCell(cell) == 0
  {
    var c := cell[p];
    StripCommasKeeps(cell, c);
    TrimKeeps(StripCommas(cell), c);
    NotANumber(StripCommas(cell), c);
  }

  // ---------------------------------------------------------------------
  // Rows to states
  // ---------------------------------------------------------------------

  /** The header of each census year's column: `d[y]` reads the column named `String(y)`. */
  function YearKeys(): (keys: seq<string>)
    ensures |keys| == |Years()|
  {
    seq(|Years()|, j requires 0 <= j < |Years()| => NumberKey(Years()[j]))
  }

  /** The row has a column for every header in `keys`. */
  predicate HasColumns(row: TsvRow, keys: seq<string>)
  {
    forall j :: 0 <= j < |keys| ==> keys[j] in row.cells
  }

  /** The parsed figures of a row, one per header in `keys`. */
  function ValuesOf(row: TsvRow, keys: seq<string>): (values: seq<int>)
    requires HasColumns(row, keys)
    ensures |values| == |keys|
  {
    seq(|keys|, j requires 0 <= j < |keys| => ParseCell(row.cells[keys[j]]))
  }

  /** The state a row describes: its name and its parsed figure for each header in `keys`. */
  function StateOf(row: TsvRow, keys: seq<string>): State
    requires HasColumns(row, keys)
  {
    State(row.name, ValuesOf(row, keys))
  }

  /**
   * The cells `d[y]` for the headers from position `j` on; reading an
   * absent column throws, so the first such header is the error.
   */
  function YearCells(row: TsvRow, keys: seq<string>, j: nat): (r: Result<seq<string>, string>)
    requires j <= |keys|
    ensures r.Success? <==> forall i :: j <= i < |keys| ==> keys[i] in row.cells
    ensures r.Success? ==> |r.value| == |keys| - j
    ensures r.Success? ==> forall i :: j <= i < |keys| ==> r.value[i - j] == row.cells[keys[i]]
    ensures r.Failure? ==> r.error !in row.cells
    decreases |keys| - j
  {
    if j == |keys| then Success([])
    else
      var key := keys[j];
      if key !in row.cells then Failure(key)
      else
        match YearCells(row, keys, j + 1)
        case Failure(e) => Failure(e)
        case Success(rest) => Success([row.cells[key]] + rest)
  }

  /** One row's state, or the TypeError its absent column raises. */
  function ParseRow(row: TsvRow, keys: seq<string>, index: nat): (r: Result<State, Error>)
    ensures r.Success? <==> HasColumns(row, keys)
    ensures r.Success? ==> r.value == StateOf(row, keys)
    ensures r.Failure? ==> r.error.row == index && r.error.column !in row.cells
  {
    match YearCells(row, keys, 0)
    case Failure(column) => Failure(UndefinedCell(index, column))
    case Success(cells) =>
      var values := seq(|cells|, k requires 0 <= k < |cells| => ParseCell(cells[k]));
      assert values == ValuesOf(row, keys);
      Success(State(row.name, values))
  }

  /** The states of `rows`, the first of which is row number `first` of the TSV. */
  function ParseRows(rows: seq<TsvRow>, keys: seq<string>, first: nat): (r: Result<seq<State>, Error>)
    ensures r.Success? <==> forall k :: 0 <= k < |rows| ==> HasColumns(rows[k], keys)
    ensures r.Success? ==> |r.value| == |rows|
    ensures r.Success? ==> forall k :: 0 <= k < |rows| ==> r.value[k] == StateOf(rows[k], keys)
    ensures r.Failure? ==>
              && first <= r.error.row < first + |rows|
              && r.error.column !in rows[r.error.row - first].cells
              && forall k :: 0 <= k < r.error.row - first ==> HasColumns(rows[k], keys)
    decreases |rows|
  {
    if rows == [] then Success([])
    else
      var tail := rows[1..];
      assert forall k :: 1 <= k < |rows| ==> rows[k] == tail[k - 1];
      match ParseRow(rows[0], keys, first)
      case Failure(e) => Failure(e)
      case Success(st) =>
        match ParseRows(tail, keys, first + 1)
        case Failure(e) => Failure(e)
        case Success(rest) => Success([st] + rest)
  }

  /**
   * The states of the TSV rows: row 0 is mapped to null and filtered out,
   * and every other row becomes one state, in row order.
   * A row lacking a year column makes the whole preparation throw.
   */
  function States(rows: seq<TsvRow>): (r: Result<seq<State>, Error>)
    ensures r.Success? <==> forall k :: 1 <= k < |rows| ==> HasColumns(rows[k], YearKeys())
    ensures r.Success? ==> |r.value| == (if rows == [] then 0 else |rows| - 1)
    ensures r.Success? ==> forall k :: 0 <= k < |r.value| ==> r.value[k] == StateOf(rows[k + 1], YearKeys())
    ensures r.Failure? ==>
              && 1 <= r.error.row < |rows|
              && r.error.column !in rows[r.error.row].cells
              && forall k :: 1 <= k < r.error.row ==> HasColumns(rows[k], YearKeys())
  {
    if rows == [] then Success([])
    else
      assert forall k :: 0 <= k < |rows[1..]| ==> rows[1..][k] == rows[k + 1];
      ParseRows(rows[1..], YearKeys(), 1)
  }

  // ---------------------------------------------------------------------
  // Ordering by division and total
  // ---------------------------------------------------------------------

  /** The state-to-division map built from the regions CSV; a later row for a state wins. */
  function RegionByState(regions: seq<RegionRow>): (m: map<string, string>)
    ensures forall st :: st in m <==> exists i :: 0 <= i < |regions| && regions[i].state == st
    ensures forall i ::
              (0 <= i < |regions| && forall j :: i < j < |regions| ==> regions[j].state != regions[i].state)
              ==> m[regions[i].state] == regions[i].division
  {
    var entries := seq(|regions|, i requires 0 <= i < |regions| => (regions[i].state, regions[i].division));
    var m := FromEntries(entries);
    assert forall st :: st in m <==> exists i :: 0 <= i < |regions| && regions[i].state == st by {
      forall st ensures st in m <==> exists i :: 0 <= i < |regions| && regions[i].state == st {
        FromEntriesKeys(entries, st);
        assert forall i :: 0 <= i < |regions| ==> entries[i].0 == regions[i].state;
      }
    }
    assert forall i ::
             (0 <= i < |regions| && forall j :: i < j < |regions| ==> regions[j].state != regions[i].state)
             ==> m[regions[i].state] == regions[i].division by {
      forall i | 0 <= i < |regions| && forall j :: i < j < |regions| ==> regions[j].state != regions[i].state
        ensures regions[i].state in m && m[regions[i].state] == regions[i].division
      {
        assert LastWithKey(entries, i);
        FromEntriesLastWins(entries, i);
      }
    }
    m
  }

  /**
   * The position of the state's division in `RegionRank`, found with
   * `indexOf`; -1 for a state the map does not know (an undefined lookup)
   * or whose division is outside the list.
   */
  function Rank(name: string, regionByState: map<string, string>): (r: int)
    ensures -1 <= r < |RegionRank|
    ensures r == -1 <==> name !in regionByState || regionByState[name] !in RegionRank
    ensures 0 <= r ==> RegionRank[r] == regionByState[name]
  {
    if name in regionByState then IndexOf(RegionRank, regionByState[name]) else -1
  }

  /** `d3.sum(values)`. */
  function Sum(values: seq<int>): (r: int)
    ensures values == [] ==> r == 0
    ensures |values| == 1 ==> r == values[0]
    ensures (forall i :: 0 <= i < |values| ==> 0 <= values[i]) ==>
              0 <= r && forall i :: 0 <= i < |values| ==> values[i] <= r
  {
    if values == [] then 0 else values[0] + Sum(values[1..])
  }

  /** The total of two stretches of values is the sum of their totals. */
  lemma {:induction false} SumAppend(a: seq<int>, b: seq<int>)
    ensures Sum(a + b) == Sum(a) + Sum(b)
  {
    if a != [] {
      assert (a + b)[1..] == a[1..] + b;
      SumAppend(a[1..], b);
    } else {
      assert a + b == b;
    }
  }

  /** `d3.ascending(x, y)` on numbers: negative, zero or positive as `x` is below, equal to or above `y`. */
  function Ascending(x: int, y: int): (c: int)
    ensures c < 0 <==> x < y
    ensures c > 0 <==> x > y
  {
    if x < y then -1 else if x > y then 1 else 0
  }

  /** `d3.descending(x, y)` on numbers: the reverse of `Ascending`. */
  function Descending(x: int, y: int): (c: int)
    ensures c < 0 <==> y < x
    ensures c > 0 <==> y > x
  {
    if y < x then -1 else if y > x then 1 else 0
  }

  /**
   * The comparator handed to the state sort: the rank comparison, or the
   * descending comparison of the totals when that one is 0.
   */
  function Compare(a: State, b: State, regionByState: map<string, string>): (c: int)
    ensures -1 <= c <= 1
    ensures c == 0 <==>
              Rank(a.name, regionByState) == Rank(b.name, regionByState) && Sum(a.values) == Sum(b.values)
  {
    var byRank := Ascending(Rank(a.name, regionByState), Rank(b.name, regionByState));
    if byRank != 0 then byRank else Descending(Sum(a.values), Sum(b.values))
  }

  /**
   * The state comparator does not put `b` before `a`: ascending rank
   * first and, when the ranks tie, descending total population.
   */
  predicate ComesFirst(a: State, b: State, regionByState: map<string, string>)
    ensures ComesFirst(a, b, regionByState) <==> Compare(a, b, regionByState) <= 0
  {
    var ra, rb := Rank(a.name, regionByState), Rank(b.name, regionByState);
    ra < rb || (ra == rb && Sum(a.values) >= Sum(b.values))
  }

  function StateOrder(regionByState: map<string, string>): (State, State) -> bool
  {
    (a: State, b: State) => ComesFirst(a, b, regionByState)
  }

  lemma StateOrderIsTotalPreorder(regionByState: map<string, string>)
    ensures Sorting.IsTotalPreorder(StateOrder(regionByState))
  {
  }

  /** Ascending division rank; within one rank, descending total population. */
  predicate ByDivisionThenTotal(states: seq<State>, regionByState: map<string, string>)
  {
    && (forall i, j :: 0 <= i < j < |states| ==>
          Rank(states[i].name, regionByState) <= Rank(states[j].name, regionByState))
    && (forall i, j ::
          (&& 0 <= i < j < |states|
           && Rank(states[i].name, regionByState) == Rank(states[j].name, regionByState))
          ==> Sum(states[i].values) >= Sum(states[j].values))
  }

  /** A sequence the comparator accepts is ordered by division, then by total. */
  lemma SortedIsByDivisionThenTotal(states: seq<State>, regionByState: map<string, string>)
    requires Sorting.Sorted(states, StateOrder(regionByState))
    ensures ByDivisionThenTotal(states, regionByState)
  {
    forall i, j | 0 <= i < j < |states|
      ensures ComesFirst(states[i], states[j], regionByState)
    {
      assert StateOrder(regionByState)(states[i], states[j]);
    }
  }

  // ---------------------------------------------------------------------
  // Transposition into year rows
  // ---------------------------------------------------------------------

  function Names(states: seq<State>): (r: seq<string>)
    ensures |r| == |states| && forall k :: 0 <= k < |states| ==> r[k] == states[k].name
  {
    seq(|states|, k requires 0 <= k < |states| => states[k].name)
  }

  /** The entries of year row `i`: the `date` first, then each state's name with its `i`-th figure. */
  function RowEntries(states: seq<State>, year: int, i: nat): (e: seq<(string, Cell)>)
    requires forall k :: 0 <= k < |states| ==> i < |states[k].values|
    ensures |e| == |states| + 1 && e[0] == ("date", Date(year))
    ensures forall k :: 0 <= k < |states| ==> e[k + 1] == (states[k].name, Count(states[k].values[i]))
  {
    [("date", Date(year))] +
      seq(|states|, k requires 0 <= k < |states| => (states[k].name, Count(states[k].values[i])))
  }

  /** One object per year, built from that year's entries. */
  function Transpose(states: seq<State>, years: seq<int>): (rows: seq<map<string, Cell>>)
    requires forall k :: 0 <= k < |states| ==> |states[k].values| == |years|
    ensures |rows| == |years|
    ensures forall i :: 0 <= i < |years| ==> rows[i] == FromEntries(RowEntries(states, years[i], i))
  {
    seq(|years|, i requires 0 <= i < |years| => FromEntries(RowEntries(states, years[i], i)))
  }

  /** Every year row has a `date` key and a key per state name, and nothing else. */
  lemma TransposeKeys(states: seq<State>, years: seq<int>, i: nat)
    requires forall k :: 0 <= k < |states| ==> |states[k].values| == |years|
    requires i < |years|
    ensures forall key :: key in Transpose(states, years)[i] <==> key == "date" || key in Names(states)
  {
    var e := RowEntries(states, years[i], i);
    var names := Names(states);
    assert Transpose(states, years)[i] == FromEntries(e);
    forall key ensures key in FromEntries(e) <==> key == "date" || key in names {
      FromEntriesKeys(e, key);
      if key in names {
        var k :| 0 <= k < |names| && names[k] == key;
        assert e[k + 1].0 == key;
      }
      if exists j :: 0 <= j < |e| && e[j].0 == key {
        var j :| 0 <= j < |e| && e[j].0 == key;
        if j > 0 { assert e[j].0 == names[j - 1]; }
      }
      assert e[0].0 == "date";
    }
  }

  /** When no state is named "date", row `i` holds its year under `date`. */
  lemma TransposeDate(states: seq<State>, years: seq<int>, i: nat)
    requires forall k :: 0 <= k < |states| ==> |states[k].values| == |years|
    requires "date" !in Names(states)
    requires i < |years|
    ensures "date" in Transpose(states, years)[i] && Transpose(states, years)[i]["date"] == Date(years[i])
  {
    var e := RowEntries(states, years[i], i);
    assert LastWithKey(e, 0) by {
      forall j | 0 < j < |e| ensures e[j].0 != "date" {
        assert e[j].0 == Names(states)[j - 1];
      }
    }
    FromEntriesLastWins(e, 0);
  }

  /**
   * When the state names are distinct, row `i` holds, under each state's
   * name, that state's `values[i]`.
   */
  lemma TransposeCells(states: seq<State>, years: seq<int>, i: nat, k: nat)
    requires forall k :: 0 <= k < |states| ==> |states[k].values| == |years|
    requires forall p, q :: 0 <= p < q < |states| ==> states[p].name != states[q].name
    requires i < |years| && k < |states|
    ensures states[k].name in Transpose(states, years)[i] &&
            Transpose(states, years)[i][states[k].name] == Count(states[k].values[i])
  {
    var e := RowEntries(states, years[i], i);
    assert LastWithKey(e, k + 1) by {
      forall j | k + 1 < j < |e| ensures e[j].0 != e[k + 1].0 {
        assert e[j].0 == states[j - 1].name;
      }
    }
    FromEntriesLastWins(e, k + 1);
  }

  /** Reordering the states keeps one value per year in each. */
  lemma PermutationKeepsYearCount(states: seq<State>, reordered: seq<State>)
    requires forall k :: 0 <= k < |states| ==> |states[k].values| == |Years()|
    requires multiset(reordered) == multiset(states)
    ensures forall k :: 0 <= k < |reordered| ==> |reordered[k].values| == |Years()|
  {
    forall k | 0 <= k < |reordered| ensures |reordered[k].values| == |Years()| {
      assert reordered[k] in multiset(states);
      var p :| 0 <= p < |states| && states[p] == reordered[k];
    }
  }

  // ---------------------------------------------------------------------
  // processData
  // ---------------------------------------------------------------------

  /**
   * `processData` up to the stacking step: parse the rows, sort the states
   * in place, transpose them into year rows and set `data.columns`.
   */
  method ProcessData(regions: seq<RegionRow>, rows: seq<TsvRow>) returns (r: Result<Prepared, Error>)
    ensures States(rows).Failure? ==> r == Failure(States(rows).error)
    ensures States(rows).Success? ==> r.Success?
    ensures r.Success? ==> r.value.regionByState == RegionByState(regions)
    ensures r.Success? ==> multiset(r.value.states) == multiset(States(rows).value)
    ensures r.Success? ==> ByDivisionThenTotal(r.value.states, r.value.regionByState)
    ensures r.Success? ==> forall k :: 0 <= k < |r.value.states| ==> |r.value.states[k].values| == |Years()|
    ensures r.Success? ==> r.value.data == Transpose(r.value.states, Years())
    ensures r.Success? ==> r.value.columns == ["date"] + Names(r.value.states)
  {
    var parsed := States(rows);
    if parsed.Failure? {
      return Failure(parsed.error);
    }
    var regionByState := RegionByState(regions);
    var states := new State[|parsed.value|](k requires 0 <= k < |parsed.value| => parsed.value[k]);
    assert states[..] == parsed.value;
    StateOrderIsTotalPreorder(regionByState);
    Sorting.InsertionSort(states, StateOrder(regionByState));
    var sorted := states[..];
    SortedIsByDivisionThenTotal(sorted, regionByState);
    PermutationKeepsYearCount(parsed.value, sorted);
    var data := Transpose(sorted, Years());
    var columns := ["date"] + Names(sorted);
    r := Success(Prepared(data, columns, regionByState, sorted));
  }
}
