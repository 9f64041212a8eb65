/** `get_stellar`: reads the stellar-parameter table (`myTable2`). Row 1 holds
    the column headers; the rows after it give the parameters from different
    sources, and the row of Huber et al. is preferred. The wanted parameters
    are looked up by header text, each as the list of its `±`-separated parts. */
module Stellar {
  import opened Common
  import opened Text
  import opened PyDict

  /** The text that marks the preferred provenance row. */
  const Preferred: string := "Huber"

  /** `zip(good, want)`: the short name of each wanted parameter and the header
      of the column it is read from; the stellar radius only when `rstar` is set. */
  function Columns(rstar: bool): (cols: seq<(string, string)>)
    ensures |cols| == if rstar then 4 else 3
    ensures cols[0] == ("Teff", "Teff(K)") && cols[1] == ("logg", "log(g)") && cols[2] == ("feh", "[Fe/H]")
    ensures rstar ==> cols[3] == ("rstar", "Radius(R_Sun)")
  {
    var want := ["Teff(K)", "log(g)", "[Fe/H]"] + (if rstar then ["Radius(R_Sun)"] else []);
    var good := ["Teff", "logg", "feh"] + (if rstar then ["rstar"] else []);
    Zip(good, want)
  }

  /** The short names, in order. */
  function Names(rstar: bool): seq<string>
  {
    ["Teff", "logg", "feh"] + (if rstar then ["rstar"] else [])
  }

  /** The short names are those of the columns, and none is given twice (they
      already differ in their first letter). */
  lemma NamesDistinct(rstar: bool)
    ensures Firsts(Columns(rstar)) == Names(rstar)
    ensures forall j, j' :: 0 <= j < j' < |Columns(rstar)| ==> Columns(rstar)[j].0 != Columns(rstar)[j'].0
  {
    var cols := Columns(rstar);
    var initials := "Tlfr";
    assert forall j :: 0 <= j < |cols| ==> |cols[j].0| > 0 && cols[j].0[0] == initials[j];
  }

  /** The row has a third-from-last cell, where the source is named. */
  predicate HasSource(row: Row)
  {
    |row.cells| >= 3
  }

  /** `'Huber' in line.findAll('td')[-3].text`. */
  predicate IsPreferred(row: Row)
    ensures IsPreferred(row) ==> HasSource(row)
    ensures HasSource(row) ==>
      var source := row.cells[|row.cells| - 3];
      IsPreferred(row) <==> exists i :: OccursAt(source, Preferred, i)
  {
    if HasSource(row) then
      ContainsAt(row.cells[|row.cells| - 3], Preferred);
      Contains(row.cells[|row.cells| - 3], Preferred)
    else false
  }

  /** The row the selection loop of `get_stellar` ends on, scanning from row
      `i`: the first preferred row, or else the last row of the table (the last
      one iterated, or header row 1 when there is no data row). A scanned row
      without a third-from-last cell raises IndexError. */
  function ScanFrom(table: seq<Row>, i: nat): (r: Result<nat>)
    requires |table| >= 2
    ensures r.Ok? ==> r.value < |table|
    ensures r.Err? ==> r.error == MissingCell
    decreases |table| - i
  {
    if i >= |table| then Ok(|table| - 1)
    else if !HasSource(table[i]) then Err(MissingCell)
    else if IsPreferred(table[i]) then Ok(i)
    else ScanFrom(table, i + 1)
  }

  /** The selection loop of `get_stellar`, with the row it stops on given by
      its position (`line` in the source). */
  method SelectRow(table: seq<Row>) returns (r: Result<nat>)
    requires |table| >= 2
    ensures r == ScanFrom(table, 2)
  {
    var line := 1;
    var i := 2;
    while i < |table|
      invariant 2 <= i <= |table| && line == i - 1
      invariant ScanFrom(table, 2) == ScanFrom(table, i)
    {
      line := i;
      var td := table[line].cells;
      if |td| < 3 {
        return Err(MissingCell);
      }
      if Contains(td[|td| - 3], Preferred) {
        break;
      }
      i := i + 1;
    }
    return Ok(line);
  }

  /** All rows from `lo` up to `hi` have a source cell and are not preferred. */
  ghost predicate PassedOver(table: seq<Row>, lo: nat, hi: nat)
  {
    forall j :: lo <= j < hi && j < |table| ==> HasSource(table[j]) && !IsPreferred(table[j])
  }

  /** The scan ends on row `k` exactly when `k` is the first preferred row, or
      there is none and `k` is the last row of the table. */
  lemma {:induction false} ScanChoice(table: seq<Row>, i: nat, k: nat)
    requires |table| >= 2 && i >= 2
    ensures ScanFrom(table, i) == Ok(k) <==>
      (i <= k < |table| && PassedOver(table, i, k) && IsPreferred(table[k])) ||
      (k == |table| - 1 && PassedOver(table, i, |table|))
    decreases |table| - i
  {
    if i < |table| {
      ScanChoice(table, i + 1, k);
      assert PassedOver(table, i, |table|) ==> HasSource(table[i]) && !IsPreferred(table[i]);
      if HasSource(table[i]) && !IsPreferred(table[i]) {
        if i <= k < |table| && PassedOver(table, i, k) && IsPreferred(table[k]) {
          assert k != i;
        }
      }
    }
  }

  /** The scan raises exactly when a row it reaches lacks a source cell. */
  lemma {:induction false} ScanFails(table: seq<Row>, i: nat)
    requires |table| >= 2 && i >= 2
    ensures ScanFrom(table, i).Err? <==>
      exists j :: i <= j < |table| && PassedOver(table, i, j) && !HasSource(table[j])
    decreases |table| - i
  {
    if i < |table| {
      ScanFails(table, i + 1);
      assert forall j :: i < j <= |table| && PassedOver(table, i, j) ==> HasSource(table[i]) && !IsPreferred(table[i]);
      if HasSource(table[i]) && !IsPreferred(table[i]) {
        if exists j :: i <= j < |table| && PassedOver(table, i, j) && !HasSource(table[j]) {
          var j :| i <= j < |table| && PassedOver(table, i, j) && !HasSource(table[j]);
          assert j != i;
          assert PassedOver(table, i + 1, j);
        }
        if exists j :: i + 1 <= j < |table| && PassedOver(table, i + 1, j) && !HasSource(table[j]) {
          var j :| i + 1 <= j < |table| && PassedOver(table, i + 1, j) && !HasSource(table[j]);
          assert PassedOver(table, i, j);
        }
      } else if !HasSource(table[i]) {
        assert PassedOver(table, i, i);
      }
    }
  }

  /** `vals[keys.index(header)]`: the cell under the first column headed
      `header`; ValueError when no column is, IndexError when the row is too short. */
  function Cell(keys: seq<string>, vals: seq<string>, header: string): (r: Result<string>)
    ensures header !in keys ==> r == Err(NotAHeader(header))
    ensures header in keys ==>
      var idx := IndexOf(keys, header).value;
      keys[idx] == header && header !in keys[..idx] &&
      (r.Ok? <==> idx < |vals|) && (r.Ok? ==> r.value == vals[idx]) && (r.Err? ==> r.error == MissingCell)
  {
    match IndexOf(keys, header)
    case None => Err(NotAHeader(header))
    case Some(idx) => if idx < |vals| then Ok(vals[idx]) else Err(MissingCell)
  }

  /** One pass of the `out_str` loop: `g = ` and the cell with each `±` turned
      into a comma. */
  function ColumnLine(keys: seq<string>, vals: seq<string>, col: (string, string)): (r: Result<string>)
    ensures r.Ok? <==> Cell(keys, vals, col.1).Ok?
    ensures r.Err? ==> r.error == Cell(keys, vals, col.1).error
    ensures r.Ok? ==> r.value == col.0 + " = " + Replace(Cell(keys, vals, col.1).value, PM, ',') + "\n"
  {
    match Cell(keys, vals, col.1)
    case Err(e) => Err(e)
    case Ok(text) =>
      JoinSplit(text, PM, ',');
      Ok(col.0 + " = " + Join(Split(text, PM), ",") + "\n")
  }

  function ColumnLines(keys: seq<string>, vals: seq<string>): ((string, string)) -> Result<string>
  {
    (col: (string, string)) => ColumnLine(keys, vals, col)
  }

  /** The `out_str` that `get_stellar` builds (and returns under `return_str`). */
  function SummaryOf(keys: seq<string>, vals: seq<string>, rstar: bool): Result<string>
  {
    match MapResult(Columns(rstar), ColumnLines(keys, vals))
    case Err(e) => Err(e)
    case Ok(ls) => Ok(Concat(ls))
  }

  ghost predicate SummarySoFar(keys: seq<string>, vals: seq<string>, rstar: bool, n: nat,
                               ls: seq<string>, outStr: string)
  {
    n <= |Columns(rstar)| && MapResult(Columns(rstar)[..n], ColumnLines(keys, vals)) == Ok(ls) &&
    outStr == Concat(ls)
  }

  lemma SummaryStep(keys: seq<string>, vals: seq<string>, rstar: bool, n: nat,
                    ls: seq<string>, outStr: string, l: string)
    requires n < |Columns(rstar)| && SummarySoFar(keys, vals, rstar, n, ls, outStr)
    requires ColumnLine(keys, vals, Columns(rstar)[n]) == Ok(l)
    ensures SummarySoFar(keys, vals, rstar, n + 1, ls + [l], outStr + l)
  {
    MapResultStep(Columns(rstar), ColumnLines(keys, vals), n);
    assert (ls + [l])[..|ls|] == ls;
  }

  /** The `out_str` loop of `get_stellar`. */
  method StellarSummary(keys: seq<string>, vals: seq<string>, rstar: bool) returns (r: Result<string>)
    ensures r == SummaryOf(keys, vals, rstar)
  {
    var cols := Columns(rstar);
    ghost var f := ColumnLines(keys, vals);
    var outStr := "";
    ghost var ls: seq<string> := [];
    for n := 0 to |cols|
      invariant SummarySoFar(keys, vals, rstar, n, ls, outStr)
    {
      var (g, w) := cols[n];
      var idx := IndexOf(keys, w);
      if idx.None? || idx.value >= |vals| {
        assert f(cols[n]).Err? && f(cols[n]).error == (if idx.None? then NotAHeader(w) else MissingCell);
        MapResultStops(cols, f, n);
        return Err(if idx.None? then NotAHeader(w) else MissingCell);
      }
      var lineStr := g + " = " + Join(Split(vals[idx.value], PM), ",");
      ghost var l := lineStr + "\n";
      assert ColumnLine(keys, vals, cols[n]) == Ok(l);
      SummaryStep(keys, vals, rstar, n, ls, outStr, l);
      outStr := outStr + lineStr + "\n";
      ls := ls + [l];
    }
    assert cols[..|cols|] == cols;
    return Ok(outStr);
  }

  /** The value of one entry of the final dict comprehension:
      `list(map(float, vals[keys.index(header)].split('±')))`. */
  function HeaderValues(keys: seq<string>, vals: seq<string>, parse: Parser, header: string): (r: Result<seq<real>>)
    ensures r.Ok? <==> Cell(keys, vals, header).Ok? && Floats(parse, Split(Cell(keys, vals, header).value, PM)).Ok?
    ensures r.Ok? ==> Floats(parse, Split(Cell(keys, vals, header).value, PM)) == r
    ensures Cell(keys, vals, header).Err? ==> r == Err(Cell(keys, vals, header).error)
  {
    match Cell(keys, vals, header)
    case Err(e) => Err(e)
    case Ok(text) => Floats(parse, Split(text, PM))
  }

  /** One entry of the final dict comprehension, as a key and its value. */
  function ColumnValues(keys: seq<string>, vals: seq<string>, parse: Parser): ((string, string)) -> Result<(string, seq<real>)>
  {
    (col: (string, string)) =>
      match HeaderValues(keys, vals, parse, col.1)
      case Err(e) => Err(e)
      case Ok(xs) => Ok((col.0, xs))
  }

  /** The dict comprehension that ends `get_stellar`: the keys are exactly the
      wanted short names, in order, and each holds every `±`-separated part of
      the cell under its column, as floats; otherwise the error of the first
      column that cannot be read. */
  function StellarParams(keys: seq<string>, vals: seq<string>, rstar: bool, parse: Parser): (r: Result<Dict<string, seq<real>>>)
    ensures r.Ok? ==> r.value.keys == Names(rstar)
    ensures r.Ok? <==> forall j :: 0 <= j < |Columns(rstar)| ==> HeaderValues(keys, vals, parse, Columns(rstar)[j].1).Ok?
    ensures r.Ok? ==> forall j :: 0 <= j < |Columns(rstar)| ==>
      Columns(rstar)[j].0 in r.value.entries &&
      HeaderValues(keys, vals, parse, Columns(rstar)[j].1) == Ok(r.value.entries[Columns(rstar)[j].0])
    ensures r.Err? ==> exists j :: (0 <= j < |Columns(rstar)| &&
      HeaderValues(keys, vals, parse, Columns(rstar)[j].1) == Err(r.error) &&
      forall j' :: 0 <= j' < j ==> HeaderValues(keys, vals, parse, Columns(rstar)[j'].1).Ok?)
  {
    var cols := Columns(rstar);
    var f := ColumnValues(keys, vals, parse);
    ColumnPairs(keys, vals, rstar, parse);
    match MapResult(cols, f)
    case Err(e) => Err(e)
    case Ok(ps) =>
      NamesDistinct(rstar);
      ColumnDict(cols, ps);
      Ok(FromPairs(ps))
  }

  /** The pairs the comprehension produces: one per wanted column exactly when
      every wanted column can be read, else the error of the first that cannot. */
  lemma ColumnPairs(keys: seq<string>, vals: seq<string>, rstar: bool, parse: Parser)
    ensures var cols := Columns(rstar);
      var r := MapResult(cols, ColumnValues(keys, vals, parse));
      (r.Ok? <==> forall j :: 0 <= j < |cols| ==> HeaderValues(keys, vals, parse, cols[j].1).Ok?) &&
      (r.Ok? ==> forall j :: 0 <= j < |cols| ==>
        r.value[j].0 == cols[j].0 && HeaderValues(keys, vals, parse, cols[j].1) == Ok(r.value[j].1)) &&
      (r.Err? ==> exists j :: (0 <= j < |cols| &&
        HeaderValues(keys, vals, parse, cols[j].1) == Err(r.error) &&
        forall j' :: 0 <= j' < j ==> HeaderValues(keys, vals, parse, cols[j'].1).Ok?))
  {
    var cols := Columns(rstar);
    var f := ColumnValues(keys, vals, parse);
    MapResultAllOk(cols, f);
    if MapResult(cols, f).Ok? {
      var ps := MapResult(cols, f).value;
      assert forall j :: 0 <= j < |cols| ==> f(cols[j]) == Ok(ps[j]);
    } else {
      MapResultFirstError(cols, f);
    }
  }

  /** Pairs named like the columns go into the dict in order, each keeping its value. */
  lemma ColumnDict<V>(cols: seq<(string, string)>, ps: seq<(string, V)>)
    requires forall j, j' :: 0 <= j < j' < |cols| ==> cols[j].0 != cols[j'].0
    requires |ps| == |cols| && forall j :: 0 <= j < |ps| ==> ps[j].0 == cols[j].0
    ensures FromPairs(ps).keys == Firsts(cols)
    ensures forall j :: 0 <= j < |ps| ==> ps[j].0 in FromPairs(ps).entries && FromPairs(ps).entries[ps[j].0] == ps[j].1
  {
    assert forall j, j' :: 0 <= j < j' < |ps| ==> ps[j].0 != ps[j'].0;
    FromPairsDistinct(ps);
    assert Firsts(ps) == Firsts(cols);
  }

  /** What `get_stellar` returns: the summary text and the parameters. */
  datatype Stellar = Stellar(text: string, params: Dict<string, seq<real>>)

  /** What `get_stellar` computes from the table rows. */
  function StellarOf(table: seq<Row>, rstar: bool, parse: Parser): Result<Stellar>
  {
    if |table| < 2 then Err(MissingCell)
    else
      match ScanFrom(table, 2)
      case Err(e) => Err(e)
      case Ok(k) =>
        var keys := table[1].headers;
        var vals := table[k].cells;
        match SummaryOf(keys, vals, rstar)
        case Err(e) => Err(e)
        case Ok(text) =>
          match StellarParams(keys, vals, rstar, parse)
          case Err(e) => Err(e)
          case Ok(params) => Ok(Stellar(text, params))
  }

  /** `get_stellar` (the fetch and the `savefp`/`verbose` handling left out):
      the header row, the selection loop, the `out_str` loop and the final dict. */
  method GetStellar(table: seq<Row>, rstar: bool, parse: Parser) returns (r: Result<Stellar>)
    ensures r == StellarOf(table, rstar, parse)
  {
    if |table| < 2 {
      return Err(MissingCell);
    }
    var keys := table[1].headers;
    var line := SelectRow(table);
    if line.Err? {
      return Err(line.error);
    }
    var vals := table[line.value].cells;
    var outStr := StellarSummary(keys, vals, rstar);
    if outStr.Err? {
      return Err(outStr.error);
    }
    var res := StellarParams(keys, vals, rstar, parse);
    if res.Err? {
      return Err(res.error);
    }
    return Ok(Stellar(outStr.value, res.value));
  }

  /** The result has exactly the keys Teff, logg and feh, and rstar exactly when
      asked for. */
  lemma StellarKeys(table: seq<Row>, rstar: bool, parse: Parser)
    requires StellarOf(table, rstar, parse).Ok?
    ensures var params := StellarOf(table, rstar, parse).value.params;
      params.keys == Names(rstar) &&
      ("rstar" in params.entries <==> rstar) &&
      "Teff" in params.entries && "logg" in params.entries && "feh" in params.entries
  {
    var k := ScanFrom(table, 2).value;
    var params := StellarOf(table, rstar, parse).value.params;
    assert params.keys == Names(rstar);
    assert params.Valid();
  }

  /** Each parameter of the result is read from the chosen row, under the
      column whose row-1 header is the wanted label. */
  lemma StellarValues(table: seq<Row>, rstar: bool, parse: Parser)
    requires StellarOf(table, rstar, parse).Ok?
    ensures |table| >= 2 && ScanFrom(table, 2).Ok?
    ensures var params := StellarOf(table, rstar, parse).value.params;
      var vals := table[ScanFrom(table, 2).value].cells;
      forall j :: 0 <= j < |Columns(rstar)| ==>
        Columns(rstar)[j].0 in params.entries &&
        HeaderValues(table[1].headers, vals, parse, Columns(rstar)[j].1) == Ok(params.entries[Columns(rstar)[j].0])
  {
    var k := ScanFrom(table, 2).value;
    assert StellarOf(table, rstar, parse).value.params == StellarParams(table[1].headers, table[k].cells, rstar, parse).value;
  }

  /** A wanted header missing from row 1 makes `get_stellar` raise. */
  lemma MissingHeaderFails(table: seq<Row>, rstar: bool, parse: Parser, j: nat)
    requires |table| >= 2 && j < |Columns(rstar)| && Columns(rstar)[j].1 !in table[1].headers
    ensures StellarOf(table, rstar, parse).Err?
  {
    if ScanFrom(table, 2).Ok? {
      var vals := table[ScanFrom(table, 2).value].cells;
      var f := ColumnLines(table[1].headers, vals);
      assert f(Columns(rstar)[j]).Err?;
      MapResultAllOk(Columns(rstar), f);
    }
  }

  /** The summary text: one line per wanted parameter, in order, whatever
      `float()` makes of the cells; it exists exactly when every wanted header
      is in row 1 and the chosen row has a cell under it. */
  lemma SummaryLines(keys: seq<string>, vals: seq<string>, rstar: bool)
    ensures var cols := Columns(rstar);
      SummaryOf(keys, vals, rstar).Ok? <==> forall j :: 0 <= j < |cols| ==> Cell(keys, vals, cols[j].1).Ok?
    ensures var cols := Columns(rstar);
      SummaryOf(keys, vals, rstar).Ok? ==>
      SummaryOf(keys, vals, rstar).value ==
        Concat(seq(|cols|, j requires 0 <= j < |cols| && Cell(keys, vals, cols[j].1).Ok? =>
          cols[j].0 + " = " + Replace(Cell(keys, vals, cols[j].1).value, PM, ',') + "\n"))
  {
    var cols := Columns(rstar);
    var f := ColumnLines(keys, vals);
    MapResultAllOk(cols, f);
    if MapResult(cols, f).Ok? {
      var ls := MapResult(cols, f).value;
      assert forall j :: 0 <= j < |cols| ==> f(cols[j]) == Ok(ls[j]);
      var want := seq(|cols|, j requires 0 <= j < |cols| && Cell(keys, vals, cols[j].1).Ok? =>
        cols[j].0 + " = " + Replace(Cell(keys, vals, cols[j].1).value, PM, ',') + "\n");
      assert ls == want;
    }
  }
}
