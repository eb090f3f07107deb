/** The two small builders of the configuration: the "same columns for every
    sheet" mapping, and its flattening into (sheet, column) pairs for display. */
module Configuration {
  import opened Wrappers
  import opened OrderedDict
  import Analysis

  /** Every sheet of the workbook gets the same selected columns; nothing is
      configured while no column is selected. */
  method QuickMapping(sheetNames: seq<string>, selected: seq<string>) returns (mapping: Analysis.Mapping)
    ensures Valid(mapping)
    ensures forall s :: Lookup(mapping, s) == if selected != [] && s in sheetNames then Some(selected) else None
    ensures selected != [] && Distinct(sheetNames) ==> Keys(mapping) == sheetNames
  {
    mapping := [];
    if selected != [] {
      for i := 0 to |sheetNames|
        invariant Valid(mapping)
        invariant forall s :: Lookup(mapping, s) == if s in sheetNames[..i] then Some(selected) else None
        invariant Distinct(sheetNames) ==> Keys(mapping) == sheetNames[..i]
      {
        assert sheetNames[..i + 1] == sheetNames[..i] + [sheetNames[i]];
        if Distinct(sheetNames) {
          assert sheetNames[i] !in sheetNames[..i];
          KeysAppend(mapping, [(sheetNames[i], selected)]);
        }
        mapping := Put(mapping, sheetNames[i], selected);
      }
      assert sheetNames[..|sheetNames|] == sheetNames;
    }
  }

  function PairsOf(sheet: string, cols: seq<string>): seq<(string, string)>
  {
    seq(|cols|, k requires 0 <= k < |cols| => (sheet, cols[k]))
  }

  lemma PairsOfMembership(s: string, cols: seq<string>, sheet: string, col: string)
    ensures (sheet, col) in PairsOf(s, cols) <==> s == sheet && col in cols
  {
    if s == sheet && col in cols {
      var j :| 0 <= j < |cols| && cols[j] == col;
      assert PairsOf(s, cols)[j] == (sheet, col);
    }
  }

  /** The configuration as (sheet, column) pairs, entry by entry. */
  function Pairs(items: Analysis.Mapping): seq<(string, string)>
  {
    if items == [] then []
    else Pairs(items[..|items| - 1]) + PairsOf(items[|items| - 1].0, items[|items| - 1].1)
  }

  method ConfigPairs(mapping: Analysis.Mapping) returns (pairs: seq<(string, string)>)
    ensures pairs == Pairs(mapping)
  {
    pairs := [];
    for i := 0 to |mapping|
      invariant pairs == Pairs(mapping[..i])
    {
      var (sheet, columns) := mapping[i];
      assert mapping[..i + 1][..i] == mapping[..i];
      ghost var before := pairs;
      for j := 0 to |columns|
        invariant pairs == before + PairsOf(sheet, columns[..j])
      {
        assert PairsOf(sheet, columns[..j + 1]) == PairsOf(sheet, columns[..j]) + [(sheet, columns[j])];
        pairs := pairs + [(sheet, columns[j])];
      }
      assert columns[..|columns|] == columns;
    }
    assert mapping[..|mapping|] == mapping;
  }

  /** A pair is listed exactly when its column is requested for its sheet by
      some entry. */
  lemma {:induction false} PairsMembership(items: Analysis.Mapping, sheet: string, col: string)
    ensures (sheet, col) in Pairs(items) <==>
      exists k :: 0 <= k < |items| && items[k].0 == sheet && col in items[k].1
  {
    if items != [] {
      var init, last := items[..|items| - 1], items[|items| - 1];
      PairsMembership(init, sheet, col);
      assert forall k :: 0 <= k < |init| ==> init[k] == items[k];
      PairsOfMembership(last.0, last.1, sheet, col);
      if (sheet, col) in Pairs(items) {
        if (sheet, col) !in Pairs(init) {
          assert items[|items| - 1].0 == sheet && col in items[|items| - 1].1;
        }
      }
    }
  }

  /** Every requested column of every entry is listed once per request. */
  lemma {:induction false} PairsLength(items: Analysis.Mapping)
    ensures |Pairs(items)| == TotalRequested(items)
  {
    if items != [] {
      PairsLength(items[..|items| - 1]);
    }
  }

  function TotalRequested(items: Analysis.Mapping): nat
  {
    if items == [] then 0 else TotalRequested(items[..|items| - 1]) + |items[|items| - 1].1|
  }
}
