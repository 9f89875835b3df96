/** The row filter of the custom table: which rows of the dataset survive the
    filter values the user has typed, one value per column name. */
module TableFilter {
  import opened Cells

  /** A column descriptor; its position in the column sequence is the position of
      its cell in every row. */
  datatype Column = Column(name: string)

  /** A row holds its cells positionally, one per column. */
  type Row = seq<Cell>

  /** The filter values: column name to the text typed for it. Every key takes part
      in filtering; keys are added by editing a column's value and never removed. */
  type FilterValues = map<string, string>

  /** `tableColumns.findIndex(column => column.name === name)`: the position of the
      first column called `name`, or -1 when there is none. */
  function FindIndex(columns: seq<Column>, name: string): (i: int)
    ensures -1 <= i < |columns|
    ensures i >= 0 ==> columns[i].name == name
    ensures i >= 0 ==> forall j :: 0 <= j < i ==> columns[j].name != name
    ensures i == -1 <==> forall j :: 0 <= j < |columns| ==> columns[j].name != name
  {
    if columns == [] then -1
    else if columns[0].name == name then 0
    else
      var rest := FindIndex(columns[1..], name);
      if rest == -1 then -1 else rest + 1
  }

  /** Every filtered name is a column and `row` has a cell at that column's position,
      so that reading the cell cannot fail. */
  predicate Addressable(columns: seq<Column>, filters: FilterValues, row: Row) {
    forall name :: name in filters ==> 0 <= FindIndex(columns, name) < |row|
  }

  predicate AllAddressable(columns: seq<Column>, filters: FilterValues, data: seq<Row>) {
    forall row :: row in data ==> Addressable(columns, filters, row)
  }

  /** Position `j` holds the first column called `name`. */
  predicate FirstNamed(columns: seq<Column>, name: string, j: int) {
    0 <= j < |columns| && columns[j].name == name
    && forall k :: 0 <= k < j ==> columns[k].name != name
  }

  /** The cell a filter on column `name` reads from `row`: the one at the position of
      the first column with that name. */
  function CellOf(columns: seq<Column>, row: Row, name: string): (cell: Cell)
    requires 0 <= FindIndex(columns, name) < |row|
    ensures forall j :: FirstNamed(columns, name, j) && j < |row| ==> cell == row[j]
  {
    assert FirstNamed(columns, name, FindIndex(columns, name));
    assert forall j :: FirstNamed(columns, name, j) ==> j == FindIndex(columns, name);
    row[FindIndex(columns, name)]
  }

  /** One filter entry is satisfied: the cell is not null and its display text contains
      the filter value, both lower-cased. */
  predicate Satisfies(columns: seq<Column>, row: Row, name: string, value: string): (ok: bool)
    requires 0 <= FindIndex(columns, name) < |row|
    ensures ok <==> (CellOf(columns, row, name) != Null
      && Occurs(ToLower(DisplayText(CellOf(columns, row, name))), ToLower(value)))
  {
    var cell := CellOf(columns, row, name);
    cell != Null && Contains(ToLower(DisplayText(cell)), ToLower(value))
  }

  /** The predicate handed to `data.filter`: every entry of the filter values holds. */
  predicate MatchesAll(columns: seq<Column>, filters: FilterValues, row: Row)
    requires Addressable(columns, filters, row)
    ensures MatchesAll(columns, filters, row) ==>
      forall name :: name in filters ==> CellOf(columns, row, name) != Null
    ensures filters == map[] ==> MatchesAll(columns, filters, row)
  {
    forall name :: name in filters ==> Satisfies(columns, row, name, filters[name])
  }

  /** The rows of `data` that match every filter value, in their original order. */
  function FilterBySearch(columns: seq<Column>, filters: FilterValues, data: seq<Row>): (kept: seq<Row>)
    requires AllAddressable(columns, filters, data)
    ensures |kept| <= |data|
    ensures forall row :: row in kept ==> row in data && MatchesAll(columns, filters, row)
  {
    if data == [] then []
    else
      var rest := FilterBySearch(columns, filters, data[1..]);
      if MatchesAll(columns, filters, data[0]) then [data[0]] + rest else rest
  }

  /** `a` is `b` with some elements left out, the rest in their order in `b`. */
  predicate IsSubsequence<T(==)>(a: seq<T>, b: seq<T>)
    decreases |b|
  {
    if a == [] then true
    else if b == [] then false
    else (a[0] == b[0] && IsSubsequence(a[1..], b[1..])) || IsSubsequence(a, b[1..])
  }

  lemma {:induction false} SubsequenceLength<T>(a: seq<T>, b: seq<T>)
    requires IsSubsequence(a, b)
    ensures |a| <= |b|
    decreases |b|
  {
    if a != [] {
      if a[0] == b[0] && IsSubsequence(a[1..], b[1..]) {
        SubsequenceLength(a[1..], b[1..]);
      } else {
        SubsequenceLength(a, b[1..]);
      }
    }
  }

  lemma {:induction false} SubsequenceReflexive<T>(a: seq<T>)
    ensures IsSubsequence(a, a)
    decreases |a|
  {
    if a != [] {
      SubsequenceReflexive(a[1..]);
    }
  }

  /** Applying the filter yields a subsequence of the data in original relative order. */
  lemma {:induction false} FilterIsSubsequence(columns: seq<Column>, filters: FilterValues, data: seq<Row>)
    requires AllAddressable(columns, filters, data)
    ensures IsSubsequence(FilterBySearch(columns, filters, data), data)
    decreases |data|
  {
    if data != [] {
      var rest := FilterBySearch(columns, filters, data[1..]);
      FilterIsSubsequence(columns, filters, data[1..]);
      if MatchesAll(columns, filters, data[0]) {
        assert ([data[0]] + rest)[1..] == rest;
      } else if rest != [] {
        assert IsSubsequence(rest, data[1..]);
      }
    }
  }

  /** A row of the data is kept exactly when it matches every filter value. */
  lemma {:induction false} FilterKeepsExactlyMatching(columns: seq<Column>, filters: FilterValues, data: seq<Row>, row: Row)
    requires AllAddressable(columns, filters, data)
    requires row in data
    ensures row in FilterBySearch(columns, filters, data) <==> MatchesAll(columns, filters, row)
    decreases |data|
  {
    if row != data[0] {
      assert row in data[1..];
      FilterKeepsExactlyMatching(columns, filters, data[1..], row);
    }
  }

  /** The filter works row by row: filtering two pieces of the data and joining the
      results is filtering the whole. */
  lemma {:induction false} FilterOfConcat(columns: seq<Column>, filters: FilterValues, a: seq<Row>, b: seq<Row>)
    requires AllAddressable(columns, filters, a + b)
    ensures AllAddressable(columns, filters, a) && AllAddressable(columns, filters, b)
    ensures FilterBySearch(columns, filters, a + b)
         == FilterBySearch(columns, filters, a) + FilterBySearch(columns, filters, b)
    decreases |a|
  {
    AddressableParts(columns, filters, a, b);
    if a == [] {
      assert a + b == b;
    } else {
      var whole := a + b;
      assert whole[0] == a[0];
      assert whole[1..] == a[1..] + b;
      AddressableParts(columns, filters, [a[0]], a[1..]);
      assert [a[0]] + a[1..] == a;
      FilterOfConcat(columns, filters, a[1..], b);
    }
  }

  lemma AddressableParts(columns: seq<Column>, filters: FilterValues, a: seq<Row>, b: seq<Row>)
    requires AllAddressable(columns, filters, a + b)
    ensures AllAddressable(columns, filters, a) && AllAddressable(columns, filters, b)
  {
    forall row | row in a ensures Addressable(columns, filters, row) {
      assert row in a + b;
    }
    forall row | row in b ensures Addressable(columns, filters, row) {
      assert row in a + b;
    }
  }

  /** A single row is kept exactly when it matches. */
  lemma FilterOfOneRow(columns: seq<Column>, filters: FilterValues, row: Row)
    requires Addressable(columns, filters, row)
    ensures AllAddressable(columns, filters, [row])
    ensures FilterBySearch(columns, filters, [row]) == if MatchesAll(columns, filters, row) then [row] else []
  {
    assert [row][1..] == [];
  }

  /** Every copy of a matching row is kept and no copy of any other row: the filtered
      rows hold a matching row as often as the data does. */
  lemma {:induction false} FilterKeepsEveryCopy(columns: seq<Column>, filters: FilterValues, data: seq<Row>, row: Row)
    requires AllAddressable(columns, filters, data)
    requires Addressable(columns, filters, row)
    ensures multiset(FilterBySearch(columns, filters, data))[row]
         == if MatchesAll(columns, filters, row) then multiset(data)[row] else 0
    decreases |data|
  {
    if data != [] {
      FilterKeepsEveryCopy(columns, filters, data[1..], row);
      assert data == [data[0]] + data[1..];
      assert multiset(data) == multiset([data[0]]) + multiset(data[1..]);
    }
  }

  /** When every row matches, the filter returns the data unchanged. */
  lemma {:induction false} FilterKeepsAllWhenAllMatch(columns: seq<Column>, filters: FilterValues, data: seq<Row>)
    requires AllAddressable(columns, filters, data)
    requires forall row :: row in data ==> MatchesAll(columns, filters, row)
    ensures FilterBySearch(columns, filters, data) == data
    decreases |data|
  {
    if data != [] {
      FilterKeepsAllWhenAllMatch(columns, filters, data[1..]);
    }
  }

  /** With no filter values, the filtered rows are the data itself, order and length
      included; this is also the initial state of the filtered rows. */
  lemma NoFiltersKeepAll(columns: seq<Column>, data: seq<Row>)
    ensures AllAddressable(columns, map[], data)
    ensures FilterBySearch(columns, map[], data) == data
  {
    FilterKeepsAllWhenAllMatch(columns, map[], data);
  }

  /** A null cell fails its column's filter whatever the value, the empty one included. */
  lemma NullCellFails(columns: seq<Column>, row: Row, name: string, value: string)
    requires 0 <= FindIndex(columns, name) < |row|
    requires CellOf(columns, row, name) == Null
    ensures !Satisfies(columns, row, name, value)
  {
  }

  /** A row with a null cell in any filtered column is not among the filtered rows,
      even when that column's filter value is empty. */
  lemma NullCellExcludesRow(columns: seq<Column>, filters: FilterValues, data: seq<Row>, row: Row, name: string)
    requires AllAddressable(columns, filters, data)
    requires row in data && name in filters
    requires CellOf(columns, row, name) == Null
    ensures row !in FilterBySearch(columns, filters, data)
  {
    FilterKeepsExactlyMatching(columns, filters, data, row);
  }

  /** An empty filter value is satisfied by exactly the non-null cells. */
  lemma EmptyValueMatchesNonNull(columns: seq<Column>, row: Row, name: string)
    requires 0 <= FindIndex(columns, name) < |row|
    ensures Satisfies(columns, row, name, "") <==> CellOf(columns, row, name) != Null
  {
    var cell := CellOf(columns, row, name);
    if cell != Null {
      assert ToLower("") == "";
      EmptyNeedleFoundAtStart(ToLower(DisplayText(cell)));
    }
  }

  /** Matching ignores the case of the filter value: the value and its lower-cased
      form select the same cells. */
  lemma ValueCaseIgnored(columns: seq<Column>, row: Row, name: string, value: string)
    requires 0 <= FindIndex(columns, name) < |row|
    ensures Satisfies(columns, row, name, value) <==> Satisfies(columns, row, name, ToLower(value))
  {
    ToLowerIdempotent(value);
  }

  /** Setting one filter value adds one conjunct: the row must satisfy the new entry and
      every other entry. */
  lemma MatchesAllAfterUpdate(columns: seq<Column>, filters: FilterValues, row: Row, name: string, value: string)
    requires Addressable(columns, filters[name := value], row)
    ensures Addressable(columns, filters - {name}, row)
    ensures MatchesAll(columns, filters[name := value], row)
        <==> Satisfies(columns, row, name, value) && MatchesAll(columns, filters - {name}, row)
  {
    var updated := filters[name := value];
    assert forall k :: k in filters - {name} ==> k in updated && updated[k] == filters[k];
    if MatchesAll(columns, updated, row) {
      assert name in updated;
      forall k | k in filters - {name} ensures Satisfies(columns, row, k, filters[k]) {
        assert k in updated;
      }
    }
    if Satisfies(columns, row, name, value) && MatchesAll(columns, filters - {name}, row) {
      forall k | k in updated ensures Satisfies(columns, row, k, updated[k]) {
        if k != name {
          assert k in filters - {name};
        }
      }
    }
  }

  /** If every row matching `stricter` also matches `looser`, then the rows kept by `stricter` are a subsequence of those kept
      by `looser`. */
  lemma {:induction false} FilterMonotone(columns: seq<Column>, stricter: FilterValues, looser: FilterValues, data: seq<Row>)
    requires AllAddressable(columns, stricter, data) && AllAddressable(columns, looser, data)
    requires forall row :: row in data && MatchesAll(columns, stricter, row) ==> MatchesAll(columns, looser, row)
    ensures IsSubsequence(FilterBySearch(columns, stricter, data), FilterBySearch(columns, looser, data))
    decreases |data|
  {
    if data != [] {
      var s := FilterBySearch(columns, stricter, data[1..]);
      var l := FilterBySearch(columns, looser, data[1..]);
      FilterMonotone(columns, stricter, looser, data[1..]);
      if MatchesAll(columns, stricter, data[0]) {
        assert ([data[0]] + s)[1..] == s && ([data[0]] + l)[1..] == l;
      } else if MatchesAll(columns, looser, data[0]) && s != [] {
        assert ([data[0]] + l)[1..] == l;
      }
    }
  }

  /** Clearing one column's value to "" never shrinks the result: every row kept before
      is still kept, in the same order. */
  lemma ClearingValueWidens(columns: seq<Column>, filters: FilterValues, data: seq<Row>, name: string)
    requires AllAddressable(columns, filters, data)
    requires name in filters
    ensures AllAddressable(columns, filters[name := ""], data)
    ensures IsSubsequence(FilterBySearch(columns, filters, data), FilterBySearch(columns, filters[name := ""], data))
    ensures |FilterBySearch(columns, filters, data)| <= |FilterBySearch(columns, filters[name := ""], data)|
  {
    var cleared := filters[name := ""];
    assert AllAddressable(columns, cleared, data) by {
      forall row | row in data ensures Addressable(columns, cleared, row) {
        assert Addressable(columns, filters, row);
      }
    }
    forall row | row in data && MatchesAll(columns, filters, row)
      ensures MatchesAll(columns, cleared, row)
    {
      assert Satisfies(columns, row, name, filters[name]);
      EmptyValueMatchesNonNull(columns, row, name);
      MatchesAllAfterUpdate(columns, filters, row, name, "");
    }
    FilterMonotone(columns, filters, cleared, data);
    SubsequenceLength(FilterBySearch(columns, filters, data), FilterBySearch(columns, cleared, data));
  }

  /** Filtering the filtered rows again with the same values changes nothing. */
  lemma FilterIdempotent(columns: seq<Column>, filters: FilterValues, data: seq<Row>)
    requires AllAddressable(columns, filters, data)
    ensures AllAddressable(columns, filters, FilterBySearch(columns, filters, data))
    ensures FilterBySearch(columns, filters, FilterBySearch(columns, filters, data)) == FilterBySearch(columns, filters, data)
  {
    FilterKeepsAllWhenAllMatch(columns, filters, FilterBySearch(columns, filters, data));
  }
}
