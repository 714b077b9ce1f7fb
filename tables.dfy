/** The results table both `build_results_table` functions return: a pandas
    DataFrame whose first column, "Part #", numbers the parts from 1, and
    whose further columns each hold one metric list. */
module Tables {
  import opened Wrappers

  datatype Table = Table(partNumbers: seq<int>, names: seq<string>, columns: seq<seq<real>>)

  /** pandas' message when the columns of a DataFrame differ in length. */
  const LengthMismatch := "All arrays must be of the same length"

  /** `list(range(1, n + 1))`. */
  function PartNumbers(n: nat): (r: seq<int>)
    ensures |r| == n
  {
    seq(n, i requires 0 <= i < n => i + 1)
  }

  /** `pd.DataFrame({"Part #": partNumbers, names[0]: columns[0], ...})`:
      fails when any column's length differs from the part count. */
  function MakeTable(partNumbers: seq<int>, names: seq<string>, columns: seq<seq<real>>): Result<Table, string>
    requires |names| == |columns|
  {
    if forall c :: 0 <= c < |columns| ==> |columns[c]| == |partNumbers|
    then Success(Table(partNumbers, names, columns))
    else Failure(LengthMismatch)
  }

  /** The column stored under `name`, if any (the first one, should two
      share it). */
  function Column(t: Table, name: string): Option<seq<real>>
  {
    ColumnIn(t.names, t.columns, name)
  }

  function ColumnIn(names: seq<string>, columns: seq<seq<real>>, name: string): Option<seq<real>>
  {
    if names == [] || columns == [] then None
    else if names[0] == name then Some(columns[0])
    else ColumnIn(names[1..], columns[1..], name)
  }

  /** Lookup by name finds the column at the first position holding that
      name, and nothing when no column carries it. */
  lemma {:induction false} ColumnInSpec(names: seq<string>, columns: seq<seq<real>>, name: string)
    requires |names| == |columns|
    ensures name !in names ==> ColumnIn(names, columns, name) == None
    ensures forall k :: 0 <= k < |names| && names[k] == name && (forall j :: 0 <= j < k ==> names[j] != name) ==>
              ColumnIn(names, columns, name) == Some(columns[k])
  {
    if names != [] {
      ColumnInSpec(names[1..], columns[1..], name);
      forall k | 0 <= k < |names| && names[k] == name && (forall j :: 0 <= j < k ==> names[j] != name)
        ensures ColumnIn(names, columns, name) == Some(columns[k])
      {
        if k > 0 {
          assert names[1..][k - 1] == name;
          assert forall j :: 0 <= j < k - 1 ==> names[1..][j] == names[j + 1];
        }
      }
    }
  }

  /** No two columns share a name. */
  predicate DistinctNames(names: seq<string>)
  {
    forall i, j :: 0 <= i < j < |names| ==> names[i] != names[j]
  }

  /** When no two columns share a name, every name finds its own column. */
  lemma ColumnOfDistinct(names: seq<string>, columns: seq<seq<real>>, k: nat)
    requires |names| == |columns| && k < |names|
    requires DistinctNames(names)
    ensures ColumnIn(names, columns, names[k]) == Some(columns[k])
  {
    ColumnInSpec(names, columns, names[k]);
  }

  /** The metric cells of row `i`, in column order. */
  function Row(t: Table, i: nat): seq<real>
    requires forall c :: 0 <= c < |t.columns| ==> i < |t.columns[c]|
  {
    seq(|t.columns|, c requires 0 <= c < |t.columns| => t.columns[c][i])
  }
}
