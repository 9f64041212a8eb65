/** `get_planets`: reads the planet-candidate table (`myTable3`) into a map from
    candidate name to its fields (epoch, period, depths, duration, radius).
    A blank field is kept as `None`; a field written `value ± error` is split
    into the field and a second field with the suffix `_err`. */
module Planets {
  import opened Common
  import opened Text
  import opened PyDict

  /** The fields that follow the candidate name, in column order. */
  const FieldNames: seq<string> := ["t0", "per", "d_mmag", "d_ppm", "tdur", "rp"]

  /** The suffix of the key that holds a field's uncertainty. */
  const ErrSuffix: string := "_err"

  /** How many leading cells of a row are read (the name and six fields). */
  const ReadCells: nat := 7

  /** The fields of one candidate: `None` for a blank cell, else a float. */
  type Fields = Dict<string, Option<real>>

  /** `[td.text.strip() for td in tab.findAll('td')[:7]]`. */
  function StrippedCells(row: Row): (res: seq<string>)
    ensures |res| == if |row.cells| < ReadCells then |row.cells| else ReadCells
    ensures forall j :: 0 <= j < |res| ==> res[j] == Strip(row.cells[j])
  {
    var n := if |row.cells| < ReadCells then |row.cells| else ReadCells;
    seq(n, j requires 0 <= j < n => Strip(row.cells[j]))
  }

  /** What one field cell holds: nothing, a value, or a value and its error. */
  datatype Field = Blank | Plain(value: real) | WithError(mu: real, sig: real)

  /** One pass of the inner loop of `get_planets`, before the assignment: an
      empty cell is blank; a cell without `±` must be a float; a cell with `±`
      must split into exactly two floats (`mu, sig = map(float, ...)`, which
      converts a third part before it finds that there are too many). */
  function FieldOf(v: string, parse: Parser): (r: Result<Field>)
    ensures v == "" ==> r == Ok(Blank)
    ensures v != "" && PM !in v ==>
      (r.Ok? <==> parse(v).Some?) &&
      (r.Ok? ==> r.value == Plain(parse(v).value)) &&
      (r.Err? ==> r.error == NotAFloat(v))
    ensures PM in v ==>
      var parts := Split(v, PM);
      |parts| >= 2 &&
      (r.Ok? <==> Occurrences(v, PM) == 1 && parse(parts[0]).Some? && parse(parts[1]).Some?) &&
      (r.Ok? ==> r.value == WithError(parse(parts[0]).value, parse(parts[1]).value)) &&
      (r == Err(TooManyValues) <==>
        |parts| > 2 && parse(parts[0]).Some? && parse(parts[1]).Some? && parse(parts[2]).Some?) &&
      (r.Err? ==>
        r.error == TooManyValues ||
        exists k :: (0 <= k < |parts| && k < 3 && r.error == NotAFloat(parts[k]) &&
          parse(parts[k]).None? && forall j :: 0 <= j < k ==> parse(parts[j]).Some?))
  {
    if v == "" then Ok(Blank)
    else if PM !in v then
      match parse(v)
      case None => Err(NotAFloat(v))
      case Some(x) => Ok(Plain(x))
    else
      var parts := Split(v, PM);
      SplitWhole(v, PM);
      match parse(parts[0])
      case None => Err(NotAFloat(parts[0]))
      case Some(mu) =>
        match parse(parts[1])
        case None => Err(NotAFloat(parts[1]))
        case Some(sig) =>
          if |parts| == 2 then Ok(WithError(mu, sig))
          else if parse(parts[2]).None? then Err(NotAFloat(parts[2]))
          else Err(TooManyValues)
  }

  /** `FieldOf` on a (name, cell) pair of the `zip`, keeping the name. */
  function FieldsAt(parse: Parser): ((string, string)) -> Result<(string, Field)>
  {
    (p: (string, string)) =>
      match FieldOf(p.1, parse)
      case Err(e) => Err(e)
      case Ok(f) => Ok((p.0, f))
  }

  /** What a field's own key holds. */
  function Lead(f: Field): Option<real>
  {
    match f
    case Blank => None
    case Plain(x) => Some(x)
    case WithError(mu, _) => Some(mu)
  }

  /** The assignments one field makes: `d[k] = None`, `d[k] = float(v)`, or
      `d[k] = mu` then `d[k + '_err'] = sig`. */
  function Store(d: Fields, k: string, f: Field): (r: Fields)
    ensures d.Valid() ==> r.Valid()
    ensures r.entries.Keys == d.entries.Keys + {k} + (if f.WithError? then {k + ErrSuffix} else {})
  {
    match f
    case Blank => d.Put(k, None)
    case Plain(x) => d.Put(k, Some(x))
    case WithError(mu, sig) => d.Put(k, Some(mu)).Put(k + ErrSuffix, Some(sig))
  }

  /** The dict the assignments of all fields leave, from `{}`. */
  function StoreAll(fs: seq<(string, Field)>): (r: Fields)
    ensures r.Valid()
    ensures r.entries.Keys == set a | a in FieldKeys(fs)
  {
    if fs == [] then Empty()
    else Store(StoreAll(fs[..|fs| - 1]), fs[|fs| - 1].0, fs[|fs| - 1].1)
  }

  /** What the inner loop of `get_planets` builds from the cells after the name:
      the fields in order, or the first error. */
  function FieldsOf(values: seq<string>, parse: Parser): Result<Fields>
  {
    match MapResult(Zip(FieldNames, values), FieldsAt(parse))
    case Err(e) => Err(e)
    case Ok(fs) => Ok(StoreAll(fs))
  }

  /** The invariant of the inner loop: the first `n` pairs went through, giving
      `fs`, and `d` holds their assignments. */
  ghost predicate FieldsSoFar(pairs: seq<(string, string)>, parse: Parser, n: nat,
                              fs: seq<(string, Field)>, d: Fields)
  {
    n <= |pairs| && MapResult(pairs[..n], FieldsAt(parse)) == Ok(fs) && d == StoreAll(fs)
  }

  /** One more field: the invariant of the inner loop carries over. */
  lemma FieldsStep(pairs: seq<(string, string)>, parse: Parser, n: nat,
                   fs: seq<(string, Field)>, d: Fields, f: Field)
    requires n < |pairs| && FieldsSoFar(pairs, parse, n, fs, d)
    requires FieldOf(pairs[n].1, parse) == Ok(f)
    ensures FieldsSoFar(pairs, parse, n + 1, fs + [(pairs[n].0, f)], Store(d, pairs[n].0, f))
  {
    MapResultStep(pairs, FieldsAt(parse), n);
    assert (fs + [(pairs[n].0, f)])[..|fs|] == fs;
  }

  /** The inner loop of `get_planets`: `for k, v in zip(keys, res[1:])`. */
  method ReadFields(values: seq<string>, parse: Parser) returns (r: Result<Fields>)
    ensures r == FieldsOf(values, parse)
  {
    var pairs := Zip(FieldNames, values);
    ghost var g := FieldsAt(parse);
    var d: Fields := Empty();
    ghost var fs: seq<(string, Field)> := [];
    for n := 0 to |pairs|
      invariant FieldsSoFar(pairs, parse, n, fs, d)
    {
      var (k, v) := pairs[n];
      ghost var f: Field;
      ghost var old_d := d;
      if v != "" {
        if PM !in v {
          var x := parse(v);
          if x.None? {
            assert g(pairs[n]) == Err(NotAFloat(v));
            MapResultStops(pairs, g, n);
            return Err(NotAFloat(v));
          }
          d := d.Put(k, Some(x.value));
          f := Plain(x.value);
        } else {
          var parts := Split(v, PM);
          SplitWhole(v, PM);
          var mu := parse(parts[0]);
          if mu.None? {
            assert g(pairs[n]) == Err(NotAFloat(parts[0]));
            MapResultStops(pairs, g, n);
            return Err(NotAFloat(parts[0]));
          }
          var sig := parse(parts[1]);
          if sig.None? {
            assert g(pairs[n]) == Err(NotAFloat(parts[1]));
            MapResultStops(pairs, g, n);
            return Err(NotAFloat(parts[1]));
          }
          if |parts| > 2 {
            var e := if parse(parts[2]).None? then NotAFloat(parts[2]) else TooManyValues;
            assert g(pairs[n]) == Err(e);
            MapResultStops(pairs, g, n);
            return Err(e);
          }
          d := d.Put(k, Some(mu.value));
          d := d.Put(k + "_err", Some(sig.value));
          f := WithError(mu.value, sig.value);
        }
      } else {
        d := d.Put(k, None);
        f := Blank;
      }
      assert FieldOf(v, parse) == Ok(f);
      FieldsStep(pairs, parse, n, fs, old_d, f);
      fs := fs + [(k, f)];
    }
    assert pairs[..|pairs|] == pairs;
    return Ok(d);
  }

  /** One pass of the row loop: the stripped name cell and the fields, or the
      error of the row (IndexError for a row without cells). */
  function CandidateOf(row: Row, parse: Parser): (r: Result<(string, Fields)>)
    ensures |row.cells| == 0 ==> r == Err(MissingCell)
    ensures r.Ok? <==> |row.cells| > 0 && FieldsOf(StrippedCells(row)[1..], parse).Ok?
    ensures r.Ok? ==> r.value.0 == RowName(row) && r.value.1 == FieldsOf(StrippedCells(row)[1..], parse).value
    ensures |row.cells| > 0 && FieldsOf(StrippedCells(row)[1..], parse).Err? ==>
      r == Err(FieldsOf(StrippedCells(row)[1..], parse).error)
  {
    var res := StrippedCells(row);
    if |res| == 0 then Err(MissingCell)
    else
      match FieldsOf(res[1..], parse)
      case Err(e) => Err(e)
      case Ok(d) => Ok((res[0], d))
  }

  function Candidates(parse: Parser): Row -> Result<(string, Fields)>
  {
    row => CandidateOf(row, parse)
  }

  /** What `get_planets` computes from the rows after the two header rows: each
      candidate's fields assigned to its name in row order, or the error of the
      first row that raises. */
  function PlanetsOf(data: seq<Row>, parse: Parser): Result<Dict<string, Fields>>
  {
    match MapResult(data, Candidates(parse))
    case Err(e) => Err(e)
    case Ok(cs) => Ok(FromPairs(cs))
  }

  /** The invariant of the row loop of `get_planets`. */
  ghost predicate PlanetsSoFar(data: seq<Row>, parse: Parser, i: nat,
                               cs: seq<(string, Fields)>, planets: Dict<string, Fields>)
  {
    i <= |data| && MapResult(data[..i], Candidates(parse)) == Ok(cs) && planets == FromPairs(cs)
  }

  /** One more row: the invariant of the row loop carries over. */
  lemma PlanetsStep(data: seq<Row>, parse: Parser, i: nat, cs: seq<(string, Fields)>,
                    planets: Dict<string, Fields>, c: (string, Fields))
    requires i < |data| && PlanetsSoFar(data, parse, i, cs, planets)
    requires CandidateOf(data[i], parse) == Ok(c)
    ensures PlanetsSoFar(data, parse, i + 1, cs + [c], planets.Put(c.0, c.1))
  {
    MapResultStep(data, Candidates(parse), i);
    assert (cs + [c])[..|cs|] == cs;
  }

  /** `get_planets` (the fetch left out): the row loop over the rows after the
      two header rows. */
  method GetPlanets(table: seq<Row>, parse: Parser) returns (r: Result<Dict<string, Fields>>)
    ensures r == PlanetsOf(DataRows(table), parse)
  {
    var data := DataRows(table);
    ghost var f := Candidates(parse);
    var planets: Dict<string, Fields> := Empty();
    ghost var cs: seq<(string, Fields)> := [];
    var i := 0;
    while i < |data|
      invariant 0 <= i <= |data|
      invariant PlanetsSoFar(data, parse, i, cs, planets)
    {
      var res := StrippedCells(data[i]);
      if |res| == 0 {
        assert f(data[i]) == Err(MissingCell);
        MapResultStops(data, f, i);
        return Err(MissingCell);
      }
      var cand := res[0];
      var d := ReadFields(res[1..], parse);
      if d.Err? {
        assert f(data[i]) == Err(d.error);
        MapResultStops(data, f, i);
        return Err(d.error);
      }
      assert f(data[i]) == Ok((cand, d.value));
      PlanetsStep(data, parse, i, cs, planets, (cand, d.value));
      planets := planets.Put(cand, d.value);
      cs := cs + [(cand, d.value)];
      i := i + 1;
    }
    assert data[..i] == data;
    return Ok(planets);
  }

  /** The keys the assignments of `fs` create, in order: each field's name,
      followed by its error key when it has one. */
  function FieldKeys(fs: seq<(string, Field)>): (ks: seq<string>)
    ensures forall x :: x in ks ==> exists i :: 0 <= i < |fs| && (x == fs[i].0 || x == fs[i].0 + ErrSuffix)
  {
    if fs == [] then []
    else
      var k := fs[|fs| - 1].0;
      FieldKeys(fs[..|fs| - 1]) + (if fs[|fs| - 1].1.WithError? then [k, k + ErrSuffix] else [k])
  }

  /** Two different fields' keys never meet: the names differ, and neither is
      the error key of the other. */
  predicate Apart(a: string, b: string)
  {
    a != b && a != b + ErrSuffix && b != a + ErrSuffix
  }

  /** Any two of the names are apart. */
  ghost predicate KeysApart(names: seq<string>)
  {
    forall i, j :: 0 <= i < j < |names| ==> Apart(names[i], names[j])
  }

  /** The six field names are apart. */
  lemma FieldNamesApart()
    ensures KeysApart(FieldNames)
  {
    assert forall i, j :: 0 <= i < j < |FieldNames| ==> FieldNames[i] != FieldNames[j] by {
      var lengths := [2, 3, 6, 5, 4, 2];
      var initials := "tpddtr";
      assert forall i :: 0 <= i < |FieldNames| ==> |FieldNames[i]| == lengths[i] && FieldNames[i][0] == initials[i];
      assert FieldNames[2][2] != FieldNames[3][2];
    }
    assert forall i :: 0 <= i < |FieldNames| ==> NoErrShape(FieldNames[i]) by {
      var thirdLast := "?pmpd?";
      assert forall i :: 0 <= i < |FieldNames| ==> |FieldNames[i]| < 3 || FieldNames[i][|FieldNames[i]| - 3] == thirdLast[i];
    }
    forall i, j | 0 <= i < j < |FieldNames| ensures Apart(FieldNames[i], FieldNames[j]) {
      NotErrKey(FieldNames[i], FieldNames[j]);
      NotErrKey(FieldNames[j], FieldNames[i]);
    }
  }

  /** The text has no `e` third from its end, as every error key has. */
  predicate NoErrShape(a: string)
  {
    |a| < 3 || a[|a| - 3] != 'e'
  }

  lemma NotErrKey(a: string, b: string)
    requires NoErrShape(a)
    ensures a != b + ErrSuffix
  {
  }

  lemma ErrKeyInjective(a: string, b: string)
    requires a + ErrSuffix == b + ErrSuffix
    ensures a == b
  {
    assert a == (a + ErrSuffix)[..|a|];
  }

  /** Assigning a field whose keys are new appends them, in order. */
  lemma StoreFresh(d: Fields, k: string, f: Field)
    requires d.Valid() && k !in d.entries && k + ErrSuffix !in d.entries
    ensures Store(d, k, f).Valid()
    ensures Store(d, k, f).keys == d.keys + (if f.WithError? then [k, k + ErrSuffix] else [k])
    ensures Store(d, k, f).entries ==
      if f.WithError? then d.entries[k := Lead(f)][k + ErrSuffix := Some(f.sig)] else d.entries[k := Lead(f)]
  {
    assert k != k + ErrSuffix by { assert |k + ErrSuffix| > |k|; }
  }

  /** With the names apart, the dict the field assignments leave has exactly
      the keys `FieldKeys(fs)`, in that order. */
  lemma {:induction false} StoreAllKeys(fs: seq<(string, Field)>)
    requires KeysApart(Firsts(fs))
    ensures StoreAll(fs).Valid() && StoreAll(fs).keys == FieldKeys(fs)
  {
    if fs != [] {
      var n := |fs| - 1;
      var (k, f) := fs[n];
      var prev := StoreAll(fs[..n]);
      assert KeysApart(Firsts(fs[..n])) by {
        assert Firsts(fs[..n]) == Firsts(fs)[..n];
      }
      StoreAllKeys(fs[..n]);
      forall i | 0 <= i < n ensures Apart(fs[..n][i].0, k) {
        assert fs[..n][i] == fs[i];
        ApartFromLast(fs, i);
      }
      StoreAllAbsent(fs[..n], k);
      StoreFresh(prev, k, f);
    }
  }

  /** With the names apart, field `j` ends up as assigned: its name holds its
      value (`None` when blank, the mean when it has an error), and its error
      key is there exactly when it has an error, holding the error. */
  lemma {:induction false} StoreAllAt(fs: seq<(string, Field)>, j: nat)
    requires KeysApart(Firsts(fs)) && j < |fs|
    ensures fs[j].0 in StoreAll(fs).entries && StoreAll(fs).entries[fs[j].0] == Lead(fs[j].1)
    ensures fs[j].0 + ErrSuffix in StoreAll(fs).entries <==> fs[j].1.WithError?
    ensures fs[j].1.WithError? ==> StoreAll(fs).entries[fs[j].0 + ErrSuffix] == Some(fs[j].1.sig)
  {
    var n := |fs| - 1;
    var (k, f) := fs[n];
    var prev := StoreAll(fs[..n]);
    assert StoreAll(fs) == Store(prev, k, f);
    assert KeysApart(Firsts(fs[..n])) by {
      assert Firsts(fs[..n]) == Firsts(fs)[..n];
    }
    if j < n {
      StoreAllAt(fs[..n], j);
      assert fs[..n][j] == fs[j];
      ApartFromLast(fs, j);
      StoreKeeps(prev, k, f, fs[j].0);
      StoreKeeps(prev, k, f, fs[j].0 + ErrSuffix);
    } else {
      forall i | 0 <= i < n ensures Apart(fs[..n][i].0, k) {
        assert fs[..n][i] == fs[i];
        ApartFromLast(fs, i);
      }
      StoreAllAbsent(fs[..n], k);
      StoreOwn(prev, k, f);
    }
  }

  /** A name apart from every assigned field's name is not a key of the dict,
      and neither is its error key. */
  lemma {:induction false} StoreAllAbsent(fs: seq<(string, Field)>, k: string)
    requires forall i :: 0 <= i < |fs| ==> Apart(fs[i].0, k)
    ensures k !in StoreAll(fs).entries && k + ErrSuffix !in StoreAll(fs).entries
  {
    if fs != [] {
      var n := |fs| - 1;
      assert forall i :: 0 <= i < n ==> fs[..n][i] == fs[i];
      StoreAllAbsent(fs[..n], k);
      if k + ErrSuffix == fs[n].0 + ErrSuffix {
        ErrKeyInjective(k, fs[n].0);
      }
      StoreKeeps(StoreAll(fs[..n]), fs[n].0, fs[n].1, k);
      StoreKeeps(StoreAll(fs[..n]), fs[n].0, fs[n].1, k + ErrSuffix);
    }
  }

  /** Assigning a field leaves every other key as it was. */
  lemma StoreKeeps(d: Fields, k: string, f: Field, a: string)
    requires a != k && a != k + ErrSuffix
    ensures a in Store(d, k, f).entries <==> a in d.entries
    ensures a in d.entries ==> Store(d, k, f).entries[a] == d.entries[a]
  {
  }

  /** Assigning a field sets its own key, and its error key exactly when it has an error. */
  lemma StoreOwn(d: Fields, k: string, f: Field)
    requires k + ErrSuffix !in d.entries
    ensures k in Store(d, k, f).entries && Store(d, k, f).entries[k] == Lead(f)
    ensures k + ErrSuffix in Store(d, k, f).entries <==> f.WithError?
    ensures f.WithError? ==> Store(d, k, f).entries[k + ErrSuffix] == Some(f.sig)
  {
    assert k != k + ErrSuffix by { assert |k + ErrSuffix| > |k|; }
  }

  /** The keys of an earlier field differ from those of the last one. */
  lemma ApartFromLast(fs: seq<(string, Field)>, j: nat)
    requires KeysApart(Firsts(fs)) && j < |fs| - 1
    ensures var k := fs[|fs| - 1].0;
      fs[j].0 != k && fs[j].0 + ErrSuffix != k && fs[j].0 != k + ErrSuffix && fs[j].0 + ErrSuffix != k + ErrSuffix
  {
    var names := Firsts(fs);
    var n := |fs| - 1;
    assert Apart(fs[j].0, fs[n].0) by {
      assert names[j] == fs[j].0 && names[n] == fs[n].0;
    }
    if fs[j].0 + ErrSuffix == fs[n].0 + ErrSuffix {
      ErrKeyInjective(fs[n].0, fs[j].0);
    }
  }

  /** The (name, field) pairs the inner loop goes through when every field
      cell parses: one per field cell, named in column order. */
  lemma FieldPairs(values: seq<string>, parse: Parser)
    requires MapResult(Zip(FieldNames, values), FieldsAt(parse)).Ok?
    ensures var fs := MapResult(Zip(FieldNames, values), FieldsAt(parse)).value;
      |fs| == (if |values| < |FieldNames| then |values| else |FieldNames|) &&
      (forall i :: 0 <= i < |fs| ==> FieldOf(values[i], parse).Ok? && fs[i] == (FieldNames[i], FieldOf(values[i], parse).value)) &&
      KeysApart(Firsts(fs))
  {
    var pairs := Zip(FieldNames, values);
    var fs := MapResult(pairs, FieldsAt(parse)).value;
    assert forall i :: 0 <= i < |fs| ==> FieldOf(values[i], parse).Ok? && fs[i] == (FieldNames[i], FieldOf(values[i], parse).value) by {
      MapResultAllOk(pairs, FieldsAt(parse));
      assert forall i :: 0 <= i < |fs| ==> FieldsAt(parse)(pairs[i]) == Ok(fs[i]);
    }
    assert KeysApart(Firsts(fs)) by {
      FieldNamesApart();
      assert forall i :: 0 <= i < |fs| ==> Firsts(fs)[i] == FieldNames[i];
    }
  }

  /** The fields the inner loop leaves: field `j` is there exactly when there
      is a cell for it; it then holds that cell's value, `None` when the cell
      is blank, and its error key is there exactly when the cell gives an
      error, holding the error. */
  lemma FieldPresent(values: seq<string>, parse: Parser, j: nat)
    requires FieldsOf(values, parse).Ok? && j < |FieldNames|
    ensures var d := FieldsOf(values, parse).value;
      (FieldNames[j] in d.entries <==> j < |values|) &&
      (FieldNames[j] + ErrSuffix in d.entries ==> j < |values|) &&
      (j < |values| ==>
        FieldOf(values[j], parse).Ok? &&
        d.entries[FieldNames[j]] == Lead(FieldOf(values[j], parse).value) &&
        (FieldNames[j] + ErrSuffix in d.entries <==> FieldOf(values[j], parse).value.WithError?) &&
        (FieldOf(values[j], parse).value.WithError? ==>
          d.entries[FieldNames[j] + ErrSuffix] == Some(FieldOf(values[j], parse).value.sig)))
  {
    if j < |values| {
      FieldKept(values, parse, j);
    } else {
      FieldMissing(values, parse, j);
    }
  }

  /** A field with a cell holds that cell's value, and its error key exactly
      when the cell has an error. */
  lemma FieldKept(values: seq<string>, parse: Parser, j: nat)
    requires FieldsOf(values, parse).Ok? && j < |FieldNames| && j < |values|
    ensures FieldOf(values[j], parse).Ok?
    ensures var d := FieldsOf(values, parse).value; var f := FieldOf(values[j], parse).value;
      FieldNames[j] in d.entries && d.entries[FieldNames[j]] == Lead(f) &&
      (FieldNames[j] + ErrSuffix in d.entries <==> f.WithError?) &&
      (f.WithError? ==> d.entries[FieldNames[j] + ErrSuffix] == Some(f.sig))
  {
    var fs := MapResult(Zip(FieldNames, values), FieldsAt(parse)).value;
    assert FieldsOf(values, parse).value == StoreAll(fs);
    assert j < |fs| && fs[j] == (FieldNames[j], FieldOf(values[j], parse).value) && KeysApart(Firsts(fs)) by {
      FieldPairs(values, parse);
    }
    StoreAllAt(fs, j);
  }

  /** A field without a cell leaves neither its key nor its error key. */
  lemma FieldMissing(values: seq<string>, parse: Parser, j: nat)
    requires FieldsOf(values, parse).Ok? && |values| <= j < |FieldNames|
    ensures FieldNames[j] !in FieldsOf(values, parse).value.entries
    ensures FieldNames[j] + ErrSuffix !in FieldsOf(values, parse).value.entries
  {
    var fs := MapResult(Zip(FieldNames, values), FieldsAt(parse)).value;
    assert FieldsOf(values, parse).value == StoreAll(fs);
    FieldPairs(values, parse);
    FieldNamesApart();
    forall i | 0 <= i < |fs| ensures Apart(fs[i].0, FieldNames[j]) {
      assert fs[i].0 == FieldNames[i] && i < j;
    }
    StoreAllAbsent(fs, FieldNames[j]);
  }

  /** The keys the inner loop leaves, in order: the name of each field that has
      a cell, in column order, each followed by its error key when it has one. */
  lemma FieldOrder(values: seq<string>, parse: Parser)
    requires FieldsOf(values, parse).Ok?
    ensures var fs := MapResult(Zip(FieldNames, values), FieldsAt(parse)).value;
      FieldsOf(values, parse).value.keys == FieldKeys(fs) &&
      forall i :: 0 <= i < |fs| ==> FieldOf(values[i], parse).Ok? && fs[i] == (FieldNames[i], FieldOf(values[i], parse).value)
  {
    FieldPairs(values, parse);
    StoreAllKeys(MapResult(Zip(FieldNames, values), FieldsAt(parse)).value);
  }

  /** The inner loop raises exactly when one of the field cells does not
      parse, and it raises what the first such cell raises. */
  lemma FieldsFail(values: seq<string>, parse: Parser)
    ensures var m := if |values| < |FieldNames| then |values| else |FieldNames|;
      (FieldsOf(values, parse).Err? <==> exists j :: 0 <= j < m && FieldOf(values[j], parse).Err?) &&
      (FieldsOf(values, parse).Err? ==>
        exists j :: (0 <= j < m && FieldOf(values[j], parse) == Err(FieldsOf(values, parse).error) &&
          forall i :: 0 <= i < j ==> FieldOf(values[i], parse).Ok?))
  {
    var h := (v: string) => FieldOf(v, parse);
    forall p: (string, string) ensures FieldsAt(parse)(p).Ok? <==> h(p.1).Ok? {
    }
    forall p: (string, string) | FieldsAt(parse)(p).Err? ensures h(p.1) == Err(FieldsAt(parse)(p).error) {
    }
    ZipFirstError(FieldNames, values, FieldsAt(parse), h);
  }

  /** A loop over `zip(names, values)` whose pass fails exactly when `h` fails
      on the value, with `h`'s error, fails exactly when `h` fails on one of the
      zipped values, and then with the error of the first such value. */
  lemma ZipFirstError<R, S>(names: seq<string>, values: seq<string>,
                            g: ((string, string)) -> Result<S>, h: string -> Result<R>)
    requires forall p: (string, string) :: g(p).Ok? <==> h(p.1).Ok?
    requires forall p: (string, string) :: g(p).Err? ==> h(p.1) == Err(g(p).error)
    ensures var m := if |values| < |names| then |values| else |names|;
      var r := MapResult(Zip(names, values), g);
      (r.Err? <==> exists j :: 0 <= j < m && h(values[j]).Err?) &&
      (r.Err? ==> exists j :: (0 <= j < m && h(values[j]) == Err(r.error) &&
        forall i :: 0 <= i < j ==> h(values[i]).Ok?))
  {
    var pairs := Zip(names, values);
    MapResultAllOk(pairs, g);
    forall i | 0 <= i < |pairs| ensures g(pairs[i]).Ok? <==> h(values[i]).Ok? {
      assert pairs[i] == (names[i], values[i]);
    }
    if MapResult(pairs, g).Err? {
      MapResultFirstError(pairs, g);
      var j :| 0 <= j < |pairs| && g(pairs[j]) == Err(MapResult(pairs, g).error) &&
        forall i :: 0 <= i < j ==> g(pairs[i]).Ok?;
      assert pairs[j] == (names[j], values[j]);
      forall i | 0 <= i < j ensures h(values[i]).Ok? {
        assert g(pairs[i]).Ok?;
      }
    }
  }

  /** The name a row is filed under, for rows that have a cell. */
  function RowName(row: Row): string
  {
    if |row.cells| > 0 then Strip(row.cells[0]) else ""
  }

  /** The name of every row, in row order. */
  function RowNames(data: seq<Row>): seq<string>
  {
    seq(|data|, j requires 0 <= j < |data| => RowName(data[j]))
  }

  /** `get_planets` succeeds exactly when every candidate row does, and
      otherwise raises what the first failing row raises. */
  lemma PlanetsFail(data: seq<Row>, parse: Parser)
    ensures PlanetsOf(data, parse).Ok? <==> forall j :: 0 <= j < |data| ==> CandidateOf(data[j], parse).Ok?
    ensures PlanetsOf(data, parse).Err? ==>
      exists j :: 0 <= j < |data| && CandidateOf(data[j], parse) == Err(PlanetsOf(data, parse).error) &&
        forall k :: 0 <= k < j ==> CandidateOf(data[k], parse).Ok?
  {
    var f := Candidates(parse);
    MapResultAllOk(data, f);
    if MapResult(data, f).Err? {
      MapResultFirstError(data, f);
    }
  }

  /** The candidates of the result are exactly the names of the rows, in the
      order in which they first appear. */
  lemma PlanetOrder(data: seq<Row>, parse: Parser)
    requires PlanetsOf(data, parse).Ok?
    ensures forall c :: c in PlanetsOf(data, parse).value.entries <==> c in RowNames(data)
    ensures FirstSeenOrder(RowNames(data), PlanetsOf(data, parse).value.keys)
  {
    NamesInOrder(data, Candidates(parse));
  }

  /** For any row function that files each row under its name, the dict of its
      results lists exactly the rows' names, in the order they first appear. */
  lemma NamesInOrder(data: seq<Row>, f: Row -> Result<(string, Fields)>)
    requires MapResult(data, f).Ok?
    requires forall k :: 0 <= k < |data| && f(data[k]).Ok? ==> f(data[k]).value.0 == RowName(data[k])
    ensures var d := FromPairs(MapResult(data, f).value);
      (forall c :: c in d.entries <==> c in RowNames(data)) && FirstSeenOrder(RowNames(data), d.keys)
  {
    var cs := MapResult(data, f).value;
    MapResultAllOk(data, f);
    assert Firsts(cs) == RowNames(data) by {
      forall j | 0 <= j < |data| ensures Firsts(cs)[j] == RowNames(data)[j] {
        assert f(data[j]) == Ok(cs[j]);
      }
    }
    FromPairsOrder(cs);
  }

  /** A later row with the same candidate name replaces an earlier one: each
      candidate holds the fields of the last row filed under it. */
  lemma PlanetLastRowWins(data: seq<Row>, parse: Parser, j: nat)
    requires PlanetsOf(data, parse).Ok? && j < |data|
    requires forall k :: j < k < |data| ==> RowName(data[k]) != RowName(data[j])
    ensures CandidateOf(data[j], parse).Ok?
    ensures RowName(data[j]) in PlanetsOf(data, parse).value.entries
    ensures PlanetsOf(data, parse).value.entries[RowName(data[j])] == CandidateOf(data[j], parse).value.1
  {
    var cs := MapResult(data, Candidates(parse)).value;
    MapResultAllOk(data, Candidates(parse));
    assert forall k :: 0 <= k < |data| ==> Candidates(parse)(data[k]) == Ok(cs[k]);
    FromPairsLastWins(cs, j);
  }
}
