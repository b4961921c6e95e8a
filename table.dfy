/** The results table as the sort sees it: each row is the list of its cell
    values in column order (the tree stores every value as a string, so a
    count `n` is held as `str(n)`), and a click on a column heading reorders
    the rows by that column's cells. */
module ResultTable {
  import opened Wrappers
  import opened Strings
  import opened Sorting

  /** A row's cell values, in column order. */
  type Values = seq<string>

  /** `tree.set(item, column)`: a missing value reads as the empty string. */
  function Cell(row: Values, i: nat): string {
    if i < |row| then row[i] else ""
  }

  /** The position of a column name among the table's columns. */
  function IndexIn(cols: seq<string>, col: string): (r: Option<nat>)
    ensures r.Some? ==> r.value < |cols| && cols[r.value] == col
    ensures r.None? <==> col !in cols
  {
    if cols == [] then None
    else if cols[0] == col then Some(0)
    else
      match IndexIn(cols[1..], col)
      case Some(j) => Some(j + 1)
      case None => None
  }

  /** A decimal digit `int()` accepts: ASCII, Arabic-Indic and Extended
      Arabic-Indic (Persian) digits. */
  predicate IsDecimal(c: char) {
    ('0' <= c <= '9') || ('\U{0660}' <= c <= '\U{0669}') || ('\U{06F0}' <= c <= '\U{06F9}')
  }

  function DigitValue(c: char): (d: nat)
    requires IsDecimal(c)
    ensures d < 10
  {
    if '0' <= c <= '9' then c as int - '0' as int
    else if '\U{0660}' <= c <= '\U{0669}' then c as int - 0x0660
    else c as int - 0x06F0
  }

  /** `s.isdigit()`, for the digits above. */
  predicate IsDigits(s: string) {
    s != [] && forall i | 0 <= i < |s| :: IsDecimal(s[i])
  }

  /** `int(s)` for a string of digits. */
  function DigitsValue(s: string): nat
    requires forall i | 0 <= i < |s| :: IsDecimal(s[i])
  {
    if s == [] then 0 else DigitsValue(s[..|s| - 1]) * 10 + DigitValue(s[|s| - 1])
  }

  /** The frequency sort key: `int(v) if v.isdigit() else 0`. */
  function FreqValue(s: string): nat {
    if IsDigits(s) then DigitsValue(s) else 0
  }

  /** `str(n)` for a count. */
  function ShowNat(n: nat): (r: string)
    ensures IsDigits(r)
    ensures forall i | 0 <= i < |r| :: '0' <= r[i] <= '9'
  {
    if n < 10 then [('0' as int + n) as char]
    else ShowNat(n / 10) + [('0' as int + n % 10) as char]
  }

  /** A count written into the table reads back as the same number, so the
      frequency column sorts by the counts themselves. */
  lemma {:induction false} ShowNatRoundTrip(n: nat)
    ensures FreqValue(ShowNat(n)) == n
  {
    var r := ShowNat(n);
    if n >= 10 {
      ShowNatRoundTrip(n / 10);
      assert r[..|r| - 1] == ShowNat(n / 10);
      assert DigitValue(r[|r| - 1]) == n % 10;
    } else {
      assert r[..0] == [];
      assert r[0] as int == '0' as int + n;
      assert DigitValue(r[0]) == n;
      assert DigitsValue(r[..0]) == 0;
      assert DigitsValue(r) == n;
    }
  }

  /** The sort key of a row for column `i`: numeric for the frequency
      column, the cell text otherwise. */
  function RowKey(i: nat, numeric: bool): Values -> SortKey {
    (row: Values) => if numeric then IntKey(FreqValue(Cell(row, i))) else StrKey(Cell(row, i))
  }

  /** The rows whose cell `i` is not `v`, in order. */
  function Without(rows: seq<Values>, i: nat, v: string): seq<Values> {
    if rows == [] then []
    else Without(rows[..|rows| - 1], i, v) + (if Cell(rows[|rows| - 1], i) != v then [rows[|rows| - 1]] else [])
  }

  /** The rows whose cell `i` is `v`, in order. */
  function Only(rows: seq<Values>, i: nat, v: string): seq<Values> {
    if rows == [] then []
    else Only(rows[..|rows| - 1], i, v) + (if Cell(rows[|rows| - 1], i) == v then [rows[|rows| - 1]] else [])
  }

  /** Setting the rows with one cell value aside loses no row. */
  lemma SetAsidePermutation(rows: seq<Values>, i: nat, v: string)
    ensures multiset(Without(rows, i, v)) + multiset(Only(rows, i, v)) == multiset(rows)
    ensures forall r | r in Only(rows, i, v) :: Cell(r, i) == v
    ensures forall r | r in Without(rows, i, v) :: Cell(r, i) != v
  {
    SetAsideKeepsAll(rows, i, v);
    OnlyMatches(rows, i, v);
    WithoutDiffers(rows, i, v);
  }

  lemma {:induction false} SetAsideKeepsAll(rows: seq<Values>, i: nat, v: string)
    ensures multiset(Without(rows, i, v)) + multiset(Only(rows, i, v)) == multiset(rows)
  {
    if rows != [] {
      var n := |rows| - 1;
      var init, last := rows[..n], rows[n];
      var w, o := Without(init, i, v), Only(init, i, v);
      SetAsideKeepsAll(init, i, v);
      MultisetSnoc(rows);
      if Cell(last, i) != v {
        assert Without(rows, i, v) == w + [last] && Only(rows, i, v) == o + [];
        assert multiset(w + [last]) == multiset(w) + multiset{last};
      } else {
        assert Without(rows, i, v) == w + [] && Only(rows, i, v) == o + [last];
        assert multiset(o + [last]) == multiset(o) + multiset{last};
      }
    }
  }

  lemma {:induction false} OnlyMatches(rows: seq<Values>, i: nat, v: string)
    ensures forall r | r in Only(rows, i, v) :: Cell(r, i) == v
  {
    if rows != [] {
      OnlyMatches(rows[..|rows| - 1], i, v);
    }
  }

  lemma {:induction false} WithoutDiffers(rows: seq<Values>, i: nat, v: string)
    ensures forall r | r in Without(rows, i, v) :: Cell(r, i) != v
  {
    if rows != [] {
      WithoutDiffers(rows[..|rows| - 1], i, v);
    }
  }

  /** A column sort: the rows come out ordered by the column's key, as a
      permutation of the input, and rows with equal keys keep their order;
      these three facts determine the result. */
  lemma SortRowsSpec(rows: seq<Values>, i: nat, numeric: bool, reverse: bool)
    ensures Sorted(SortBy(rows, RowKey(i, numeric), reverse), RowKey(i, numeric), reverse)
    ensures multiset(SortBy(rows, RowKey(i, numeric), reverse)) == multiset(rows)
    ensures forall k :: WithKey(SortBy(rows, RowKey(i, numeric), reverse), RowKey(i, numeric), k) == WithKey(rows, RowKey(i, numeric), k)
  {
    var key := RowKey(i, numeric);
    SortBySorted(rows, key, reverse);
    SortByPermutation(rows, key, reverse);
    forall k ensures WithKey(SortBy(rows, key, reverse), key, k) == WithKey(rows, key, k) {
      SortByStable(rows, key, reverse, k);
    }
  }

  /** Sorting the frequency column descending puts larger counts first. */
  lemma FrequencyDescending(rows: seq<Values>, i: nat, a: nat, b: nat)
    requires a < b < |SortBy(rows, RowKey(i, true), true)|
    ensures FreqValue(Cell(SortBy(rows, RowKey(i, true), true)[a], i)) >= FreqValue(Cell(SortBy(rows, RowKey(i, true), true)[b], i))
  {
    SortBySorted(rows, RowKey(i, true), true);
    var s := SortBy(rows, RowKey(i, true), true);
    assert InOrder(RowKey(i, true)(s[a]), RowKey(i, true)(s[b]), true);
  }
}
