/** `get_phot`: reads the photometry table (`myTable1`) of a target page into a
    map from band name to magnitude, and into the text summary it can print or
    save, one `band = value[,error]` line per band row. */
module Photometry {
  import opened Common
  import opened Text
  import opened PyDict

  /** The labels `get_phot` renames. */
  const RenamedLabels: set<string> :=
    {"Kep", "WISE 3.4 micron", "WISE 4.6 micron", "WISE 12 micron", "WISE 22 micron"}

  /** The band name `get_phot` files a row under: five archive labels get short
      names, every other name is kept as it is. */
  function CanonicalBand(name: string): (band: string)
    ensures name == "Kep" ==> band == "Kepler"
    ensures name == "WISE 3.4 micron" ==> band == "W1"
    ensures name == "WISE 4.6 micron" ==> band == "W2"
    ensures name == "WISE 12 micron" ==> band == "W3"
    ensures name == "WISE 22 micron" ==> band == "W4"
    ensures band != name <==> name in RenamedLabels
    ensures band !in RenamedLabels
  {
    if name == "Kep" then "Kepler"
    else if name == "WISE 3.4 micron" then "W1"
    else if name == "WISE 4.6 micron" then "W2"
    else if name == "WISE 12 micron" then "W3"
    else if name == "WISE 22 micron" then "W4"
    else name
  }

  /** What `res[band]` holds: `float(vals)`, or, when the text has a `±`, the
      list of all its `±`-separated parts as floats. */
  datatype Measurement = Magnitude(value: real) | Values(values: seq<real>)

  /** What one band row contributes: its band, its measurement and its summary line. */
  datatype PhotEntry = PhotEntry(band: string, measurement: Measurement, line: string)

  /** The result of `get_phot` (`res`) together with its text form (`out_str`). */
  datatype Phot = Phot(bands: Dict<string, Measurement>, text: string)

  /** One pass of the row loop of `get_phot`. */
  function PhotRow(row: Row, parse: Parser): (r: Result<PhotEntry>)
    ensures |row.cells| < 2 ==> r == Err(MissingCell)
    ensures r.Ok? ==> |row.cells| >= 2 && r.value.band == CanonicalBand(row.cells[0])
    ensures r.Ok? ==> r.value.line == r.value.band + " = " + Replace(row.cells[1], PM, ',') + "\n"
    ensures |row.cells| >= 2 && PM !in row.cells[1] ==>
      (r.Ok? <==> parse(row.cells[1]).Some?) &&
      (r.Ok? ==> r.value.measurement == Magnitude(parse(row.cells[1]).value))
    ensures |row.cells| >= 2 && PM in row.cells[1] ==>
      var parts := Split(row.cells[1], PM);
      |parts| >= 2 &&
      (r.Ok? <==> forall k :: 0 <= k < |parts| ==> parse(parts[k]).Some?) &&
      (r.Ok? ==> r.value.measurement.Values? && |r.value.measurement.values| == |parts|) &&
      (r.Ok? ==> forall k :: 0 <= k < |parts| ==> parse(parts[k]) == Some(r.value.measurement.values[k]))
  {
    if |row.cells| < 1 then Err(MissingCell)
    else
      var band := CanonicalBand(row.cells[0]);
      if |row.cells| < 2 then Err(MissingCell)
      else
        var vals := row.cells[1];
        if PM in vals then
          var parts := Split(vals, PM);
          SplitWhole(vals, PM);
          JoinSplit(vals, PM, ',');
          match Floats(parse, parts)
          case Err(e) => Err(e)
          case Ok(xs) => Ok(PhotEntry(band, Values(xs), band + " = " + Join(parts, ",") + "\n"))
        else
          assert Replace(vals, PM, ',') == vals;
          match parse(vals)
          case None => Err(NotAFloat(vals))
          case Some(x) => Ok(PhotEntry(band, Magnitude(x), band + " = " + vals + "\n"))
  }

  /** `PhotRow` as the function the row loop maps over the rows. */
  function PhotRows(parse: Parser): Row -> Result<PhotEntry>
  {
    row => PhotRow(row, parse)
  }

  function BandPairs(es: seq<PhotEntry>): (ps: seq<(string, Measurement)>)
  {
    seq(|es|, j requires 0 <= j < |es| => (es[j].band, es[j].measurement))
  }

  function Lines(es: seq<PhotEntry>): seq<string>
  {
    seq(|es|, j requires 0 <= j < |es| => es[j].line)
  }

  /** What `get_phot` computes from the rows after the two header rows: the
      first row that raises aborts it; otherwise each row's measurement is
      assigned to its band in row order and its line appended to the text. */
  function PhotOf(data: seq<Row>, parse: Parser): Result<Phot>
  {
    match MapResult(data, PhotRows(parse))
    case Err(e) => Err(e)
    case Ok(es) => Ok(Phot(FromPairs(BandPairs(es)), Concat(Lines(es))))
  }

  /** The loop of `get_phot` (the fetch and the `savefp`/`verbose`/`return_str`
      handling left out): `res` and `out_str` are both returned. */
  method GetPhot(table: seq<Row>, parse: Parser) returns (r: Result<Phot>)
    ensures r == PhotOf(DataRows(table), parse)
  {
    var data := DataRows(table);
    ghost var f := PhotRows(parse);
    var res: Dict<string, Measurement> := Empty();
    var outStr := "";
    ghost var es: seq<PhotEntry> := [];
    var i := 0;
    while i < |data|
      invariant 0 <= i <= |data|
      invariant PhotSoFar(data, f, i, es, res, outStr)
    {
      var td := data[i].cells;
      if |td| < 1 {
        assert f(data[i]).Err? && f(data[i]).error == MissingCell;
        MapResultStops(data, f, i);
        return Err(MissingCell);
      }
      var band := CanonicalBand(td[0]);
      if |td| < 2 {
        assert f(data[i]).Err? && f(data[i]).error == MissingCell;
        MapResultStops(data, f, i);
        return Err(MissingCell);
      }
      var vals := td[1];
      var lineStr: string;
      var m: Measurement;
      if PM in vals {
        lineStr := band + " = " + Join(Split(vals, PM), ",");
        var xs := Floats(parse, Split(vals, PM));
        if xs.Err? {
          assert f(data[i]).Err? && f(data[i]).error == xs.error by {
            assert f(data[i]) == PhotRow(data[i], parse);
          }
          MapResultStops(data, f, i);
          return Err(xs.error);
        }
        m := Values(xs.value);
      } else {
        lineStr := band + " = " + vals;
        var x := parse(vals);
        if x.None? {
          assert f(data[i]).Err? && f(data[i]).error == NotAFloat(vals) by {
            assert f(data[i]) == PhotRow(data[i], parse);
          }
          MapResultStops(data, f, i);
          return Err(NotAFloat(vals));
        }
        m := Magnitude(x.value);
      }
      ghost var old_res, old_out := res, outStr;
      res := res.Put(band, m);
      outStr := outStr + lineStr + "\n";
      ghost var e := PhotEntry(band, m, lineStr + "\n");
      assert f(data[i]) == Ok(e) by {
        assert f(data[i]) == PhotRow(data[i], parse);
      }
      PhotStep(data, f, i, es, e, old_res, old_out);
      es := es + [e];
      i := i + 1;
    }
    assert data[..i] == data;
    return Ok(Phot(res, outStr));
  }

  /** The invariant of the row loop of `get_phot`: the first `i` rows went
      through, giving `es`, and `res` and `out_str` are what they make. */
  ghost predicate PhotSoFar(data: seq<Row>, f: Row -> Result<PhotEntry>, i: nat, es: seq<PhotEntry>,
                            res: Dict<string, Measurement>, outStr: string)
  {
    i <= |data| && MapResult(data[..i], f) == Ok(es) &&
    res == FromPairs(BandPairs(es)) && outStr == Concat(Lines(es))
  }

  /** One more row: the invariant of the row loop of `get_phot` carries over. */
  lemma PhotStep(data: seq<Row>, f: Row -> Result<PhotEntry>, i: nat, es: seq<PhotEntry>, e: PhotEntry,
                 res: Dict<string, Measurement>, outStr: string)
    requires i < |data| && PhotSoFar(data, f, i, es, res, outStr)
    requires f(data[i]) == Ok(e)
    ensures PhotSoFar(data, f, i + 1, es + [e], res.Put(e.band, e.measurement), outStr + e.line)
  {
    MapResultSnoc(data, f, i, es, e);
    assert BandPairs(es + [e]) == BandPairs(es) + [(e.band, e.measurement)] by {
      assert forall j :: 0 <= j < |es| ==> (es + [e])[j] == es[j];
    }
    FromPairsSnoc(BandPairs(es), (e.band, e.measurement));
    assert Lines(es + [e]) == Lines(es) + [e.line] by {
      assert forall j :: 0 <= j < |es| ==> (es + [e])[j] == es[j];
    }
    ConcatSnoc(Lines(es), e.line);
  }

  /** The band a row is filed under, for rows that have a label cell. */
  function RowBand(row: Row): string
  {
    if |row.cells| >= 1 then CanonicalBand(row.cells[0]) else ""
  }

  /** The summary line of one row, stated independently of `float()`: the band,
      " = ", the value text with each `±` turned into a comma, and a newline. */
  function SummaryLine(row: Row): string
  {
    if |row.cells| >= 2 then CanonicalBand(row.cells[0]) + " = " + Replace(row.cells[1], PM, ',') + "\n"
    else ""
  }

  function Summary(data: seq<Row>): string
  {
    if data == [] then "" else Summary(data[..|data| - 1]) + SummaryLine(data[|data| - 1])
  }

  /** `get_phot` succeeds exactly when every band row does, and otherwise
      raises what the first failing row raises. */
  lemma PhotOfFails(data: seq<Row>, parse: Parser)
    ensures PhotOf(data, parse).Ok? <==> forall j :: 0 <= j < |data| ==> PhotRow(data[j], parse).Ok?
    ensures PhotOf(data, parse).Err? ==>
      exists j :: 0 <= j < |data| && PhotRow(data[j], parse) == Err(PhotOf(data, parse).error) &&
        forall k :: 0 <= k < j ==> PhotRow(data[k], parse).Ok?
  {
    var f := PhotRows(parse);
    MapResultAllOk(data, f);
    if MapResult(data, f).Err? {
      MapResultFirstError(data, f);
    }
  }

  /** The text has one line per band row, in row order, whatever `float()`
      makes of the values. */
  lemma {:induction false} PhotText(data: seq<Row>, parse: Parser)
    requires PhotOf(data, parse).Ok?
    ensures PhotOf(data, parse).value.text == Summary(data)
  {
    var f := PhotRows(parse);
    var es := MapResult(data, f).value;
    MapResultAllOk(data, f);
    SummaryOfEntries(data, parse, es);
  }

  lemma {:induction false} SummaryOfEntries(data: seq<Row>, parse: Parser, es: seq<PhotEntry>)
    requires |es| == |data| && forall j :: 0 <= j < |data| ==> PhotRow(data[j], parse) == Ok(es[j])
    ensures Concat(Lines(es)) == Summary(data)
  {
    if data != [] {
      var n := |data| - 1;
      SummaryOfEntries(data[..n], parse, es[..n]);
      assert Lines(es)[..n] == Lines(es[..n]);
    }
  }

  /** The band of every row, in row order. */
  function RowBands(data: seq<Row>): seq<string>
  {
    seq(|data|, j requires 0 <= j < |data| => RowBand(data[j]))
  }

  /** The bands of the result are exactly those of the rows, in the order in
      which they first appear. */
  lemma PhotBandOrder(data: seq<Row>, parse: Parser)
    requires PhotOf(data, parse).Ok?
    ensures forall b :: b in PhotOf(data, parse).value.bands.entries <==> b in RowBands(data)
    ensures FirstSeenOrder(RowBands(data), PhotOf(data, parse).value.bands.keys)
  {
    var es := MapResult(data, PhotRows(parse)).value;
    MapResultAllOk(data, PhotRows(parse));
    assert Firsts(BandPairs(es)) == RowBands(data);
    FromPairsOrder(BandPairs(es));
  }

  /** A later row with the same band overwrites an earlier one: each band holds
      the measurement of the last row filed under it. */
  lemma PhotLastRowWins(data: seq<Row>, parse: Parser, j: nat)
    requires PhotOf(data, parse).Ok? && j < |data|
    requires forall k :: j < k < |data| ==> RowBand(data[k]) != RowBand(data[j])
    ensures PhotRow(data[j], parse).Ok?
    ensures RowBand(data[j]) in PhotOf(data, parse).value.bands.entries
    ensures PhotOf(data, parse).value.bands.entries[RowBand(data[j])] == PhotRow(data[j], parse).value.measurement
  {
    forall k | 0 <= k < |data| && PhotRows(parse)(data[k]).Ok?
      ensures PhotRows(parse)(data[k]).value.band == RowBand(data[k])
    {
    }
    LastBandWins(data, PhotRows(parse), j);
  }

  /** For any row function that keeps each row's band, the band of the last row
      with that band maps to that row's measurement. */
  lemma LastBandWins(data: seq<Row>, f: Row -> Result<PhotEntry>, j: nat)
    requires MapResult(data, f).Ok? && j < |data|
    requires forall k :: 0 <= k < |data| && f(data[k]).Ok? ==> f(data[k]).value.band == RowBand(data[k])
    requires forall k :: j < k < |data| ==> RowBand(data[k]) != RowBand(data[j])
    ensures f(data[j]).Ok?
    ensures RowBand(data[j]) in FromPairs(BandPairs(MapResult(data, f).value)).entries
    ensures FromPairs(BandPairs(MapResult(data, f).value)).entries[RowBand(data[j])] == f(data[j]).value.measurement
  {
    var es := MapResult(data, f).value;
    var ps := BandPairs(es);
    MapResultAllOk(data, f);
    assert f(data[j]) == Ok(es[j]);
    forall k | j < k < |data| ensures ps[k].0 != ps[j].0 {
      assert f(data[k]) == Ok(es[k]);
    }
    FromPairsLastWins(ps, j);
  }
}
