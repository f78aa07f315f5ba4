/**
 * The table-level routine: copy the table, then impute each requested
 * column of the copy in turn. Columns are identified by their position in
 * the table; rows by their position in each column.
 */
module DataLoader {
  import opened Wrappers
  import opened Series
  import opened Imputation

  /** The lookup error raised for a requested column that the table does not have. */
  datatype LookupError = ColumnNotFound(column: int)

  /**
   * The table after imputation: every requested column imputed, every other
   * column as it was. Every requested column is left with no missing cell.
   */
  function ImputeTable(table: seq<Column>, requested: seq<int>): (r: seq<Column>)
    ensures |r| == |table|
  {
    seq(|table|, j requires 0 <= j < |table| =>
      if j in requested then ImputeColumn(table[j]) else table[j])
  }

  /**
   * After imputation every requested column keeps its length and has no
   * missing cell, and every other column is the input's.
   */
  lemma ImputeTableComplete(table: seq<Column>, requested: seq<int>)
    ensures forall j :: 0 <= j < |table| && j in requested ==>
      |ImputeTable(table, requested)[j]| == |table[j]| &&
      forall p :: 0 <= p < |table[j]| ==> ImputeTable(table, requested)[j][p].Some?
    ensures forall j :: 0 <= j < |table| && j !in requested ==>
      ImputeTable(table, requested)[j] == table[j]
  {
    forall j | 0 <= j < |table| && j in requested
      ensures forall p :: 0 <= p < |table[j]| ==> ImputeTable(table, requested)[j][p].Some?
    {
      ImputeColumnComplete(table[j]);
    }
  }

  /** Imputing an imputed table again, for the same columns, changes nothing. */
  lemma ImputeTableIdempotent(table: seq<Column>, requested: seq<int>)
    ensures ImputeTable(ImputeTable(table, requested), requested) == ImputeTable(table, requested)
  {
    var once := ImputeTable(table, requested);
    forall j | 0 <= j < |table| && j in requested
      ensures ImputeColumn(once[j]) == once[j]
    {
      ImputeColumnIdempotent(table[j]);
    }
  }

  /** Imputing no column returns a table equal to the input. */
  lemma EmptyRequestIsCopy(table: seq<Column>)
    ensures ImputeTable(table, []) == table
  {
  }

  /** A column imputed once more, when its imputation is already done, is unchanged. */
  lemma ImputeTableStep(table: seq<Column>, done: seq<Column>, requested: seq<int>, c: int)
    requires 0 <= c < |table|
    requires done == ImputeTable(table, requested)
    ensures done[c := ImputeColumn(done[c])] == ImputeTable(table, requested + [c])
  {
    if c in requested {
      ImputeColumnIdempotent(table[c]);
    }
  }

  /** Impute column c of the copy in place, extending the imputed prefix of the request by c. */
  method ImputeColumnOf(imputed: array<Column>, c: int, ghost table: seq<Column>, ghost done: seq<int>)
    requires 0 <= c < imputed.Length == |table|
    requires imputed[..] == ImputeTable(table, done)
    modifies imputed
    ensures imputed[..] == ImputeTable(table, done + [c])
  {
    ghost var before := imputed[..];
    ImputeTableStep(table, before, done, c);
    imputed[c] := ImputeColumn(imputed[c]);
    assert imputed[..] == before[c := ImputeColumn(before[c])];
  }

  /**
   * The routine: a fresh copy of the table in which every requested column
   * is imputed, or the lookup error for the first requested column that the
   * table lacks. The input table is not modified.
   */
  method ImputeConsumption(df: array<Column>, requested: seq<int>)
    returns (result: Result<array<Column>, LookupError>)
    ensures result.Success? <==> forall k :: 0 <= k < |requested| ==> 0 <= requested[k] < df.Length
    ensures result.Failure? ==>
              exists k :: && 0 <= k < |requested|
                          && requested[k] == result.error.column
                          && !(0 <= requested[k] < df.Length)
                          && forall i :: 0 <= i < k ==> 0 <= requested[i] < df.Length
    ensures result.Success? ==> fresh(result.value) && result.value[..] == ImputeTable(df[..], requested)
  {
    var imputed := new Column[df.Length](j requires 0 <= j < df.Length reads df => df[j]);
    EmptyRequestIsCopy(df[..]);
    assert imputed[..] == ImputeTable(df[..], requested[..0]);
    for k := 0 to |requested|
      invariant forall i :: 0 <= i < k ==> 0 <= requested[i] < df.Length
      invariant imputed[..] == ImputeTable(df[..], requested[..k])
    {
      var c := requested[k];
      if !(0 <= c < imputed.Length) {
        return Failure(ColumnNotFound(c));
      }
      ImputeColumnOf(imputed, c, df[..], requested[..k]);
      assert requested[..k + 1] == requested[..k] + [c];
    }
    assert requested[..|requested|] == requested;
    return Success(imputed);
  }
}
