/** table_builder.py: the results table in the argument order (blackness,
    color shift, gloss, a* shift, b* shift), gloss stored as "Glossiness". */
module TableBuilder {
  import opened Wrappers
  import opened Tables

  const Names: seq<string> := ["Blackness", "Color Shift", "Glossiness", "Median a*", "Median b*"]

  /** `build_results_table(blackness, color_shift, gloss, a_shift, b_shift)`. */
  function BuildResultsTable(blackness: seq<real>, colorShift: seq<real>, gloss: seq<real>,
                             aShift: seq<real>, bShift: seq<real>): Result<Table, string>
  {
    MakeTable(PartNumbers(|blackness|), Names, [blackness, colorShift, gloss, aShift, bShift])
  }

  /** The table exists exactly when all five lists are as long as
      `blackness`; it then has one row per part, numbered from 1, and row
      `i` holds part `i`'s five metrics in column order. */
  lemma BuildResultsTableRows(blackness: seq<real>, colorShift: seq<real>, gloss: seq<real>,
                              aShift: seq<real>, bShift: seq<real>)
    ensures var r := BuildResultsTable(blackness, colorShift, gloss, aShift, bShift);
            var n := |blackness|;
            && (r.Success? <==> |colorShift| == n && |gloss| == n && |aShift| == n && |bShift| == n)
            && (r.Success? ==>
                  && r.value.partNumbers == PartNumbers(n)
                  && (forall i :: 0 <= i < n ==> r.value.partNumbers[i] == i + 1)
                  && (forall i :: 0 <= i < n ==>
                        Row(r.value, i) == [blackness[i], colorShift[i], gloss[i], aShift[i], bShift[i]]))
  {
    var columns := [blackness, colorShift, gloss, aShift, bShift];
    var n := |blackness|;
    if |colorShift| == n && |gloss| == n && |aShift| == n && |bShift| == n {
      assert forall c :: 0 <= c < |columns| ==> |columns[c]| == n;
    } else {
      assert !(forall c :: 0 <= c < |columns| ==> |columns[c]| == n) by {
        if |colorShift| != n { assert |columns[1]| != n; }
        else if |gloss| != n { assert |columns[2]| != n; }
        else if |aShift| != n { assert |columns[3]| != n; }
        else { assert |columns[4]| != n; }
      }
    }
  }

  /** Each metric list is, positionally, the column of its name: gloss, the
      third argument, is stored under "Glossiness", and there is no
      "Gloss Factor" column. */
  lemma BuildResultsTableColumns(blackness: seq<real>, colorShift: seq<real>, gloss: seq<real>,
                                 aShift: seq<real>, bShift: seq<real>)
    requires BuildResultsTable(blackness, colorShift, gloss, aShift, bShift).Success?
    ensures var t := BuildResultsTable(blackness, colorShift, gloss, aShift, bShift).value;
            && Column(t, "Blackness") == Some(blackness)
            && Column(t, "Color Shift") == Some(colorShift)
            && Column(t, "Glossiness") == Some(gloss)
            && Column(t, "Median a*") == Some(aShift)
            && Column(t, "Median b*") == Some(bShift)
            && Column(t, "Gloss Factor") == None
  {
    var columns := [blackness, colorShift, gloss, aShift, bShift];
    NamesDistinct();
    ColumnOfDistinct(Names, columns, 0);
    ColumnOfDistinct(Names, columns, 1);
    ColumnOfDistinct(Names, columns, 2);
    ColumnOfDistinct(Names, columns, 3);
    ColumnOfDistinct(Names, columns, 4);
    ColumnInSpec(Names, columns, "Gloss Factor");
  }

  /** The five column names of `build_results_table` are pairwise different. */
  lemma NamesDistinct()
    ensures DistinctNames(Names)
  {
    assert Names[0][0] != Names[3][0] && Names[0][0] != Names[4][0];
    assert Names[3][7] != Names[4][7];
  }
}
