/** Vocabulary shared by the table readers of the exofop scraper: the exceptions
    they can raise, the rows of an HTML table once parsed, and the few Python
    list idioms they lean on (`map` that stops at the first exception, `zip`,
    `list.index`). */
module Common {

  datatype Option<+T> = None | Some(value: T)

  /** The exceptions the table readers can raise. */
  datatype Error =
    | MissingCell               // IndexError: a row has fewer cells than the code indexes
    | NotAHeader(header: string) // ValueError from `keys.index(header)`
    | NotAFloat(text: string)   // ValueError from `float(text)`
    | TooManyValues             // ValueError from `mu, sig = ...` given more than two parts

  datatype Result<+T> = Ok(value: T) | Err(error: Error)

  /** Python's `float()`, left abstract: `Some(x)` where it returns `x`, `None`
      where it raises. */
  type Parser = string -> Option<real>

  function Float(parse: Parser, text: string): (r: Result<real>)
    ensures r.Ok? <==> parse(text).Some?
    ensures r.Ok? ==> r.value == parse(text).value
    ensures r.Err? ==> r.error == NotAFloat(text)
  {
    match parse(text)
    case Some(x) => Ok(x)
    case None => Err(NotAFloat(text))
  }

  /** One `tr` of a table: the texts of its `th` cells and of its `td` cells. */
  datatype Row = Row(headers: seq<string>, cells: seq<string>)

  /** `table.findAll('tr')[2:]`: the rows after the two header rows. */
  function DataRows(table: seq<Row>): seq<Row>
  {
    if |table| <= 2 then [] else table[2..]
  }

  /** Applies `f` to every element in order and stops at the first error, as a
      Python loop (or `list(map(...))`) does when an element raises. */
  function MapResult<A, B>(xs: seq<A>, f: A -> Result<B>): (r: Result<seq<B>>)
    ensures r.Ok? ==> |r.value| == |xs|
  {
    if xs == [] then Ok([])
    else
      match MapResult(xs[..|xs| - 1], f)
      case Err(e) => Err(e)
      case Ok(ys) =>
        match f(xs[|xs| - 1])
        case Err(e) => Err(e)
        case Ok(y) => Ok(ys + [y])
  }

  /** One more element: the step a loop body takes. */
  lemma MapResultStep<A, B>(xs: seq<A>, f: A -> Result<B>, i: nat)
    requires i < |xs|
    ensures MapResult(xs[..i + 1], f) ==
      match MapResult(xs[..i], f)
      case Err(e) => Err(e)
      case Ok(ys) =>
        match f(xs[i])
        case Err(e) => Err(e)
        case Ok(y) => Ok(ys + [y])
  {
    assert xs[..i + 1][..i] == xs[..i];
  }

  /** A loop that got through the first `i` elements and succeeds on the next
      has got through `i + 1`. */
  lemma MapResultSnoc<A, B>(xs: seq<A>, f: A -> Result<B>, i: nat, ys: seq<B>, y: B)
    requires i < |xs| && MapResult(xs[..i], f) == Ok(ys) && f(xs[i]) == Ok(y)
    ensures MapResult(xs[..i + 1], f) == Ok(ys + [y])
  {
    MapResultStep(xs, f, i);
  }

  /** Succeeds exactly when every element succeeds, with the elements' results in order. */
  lemma {:induction false} MapResultOk<A, B>(xs: seq<A>, f: A -> Result<B>, ys: seq<B>)
    ensures MapResult(xs, f) == Ok(ys) <==>
      |ys| == |xs| && forall j :: 0 <= j < |xs| ==> f(xs[j]) == Ok(ys[j])
  {
    if xs != [] {
      var n := |xs| - 1;
      MapResultOk(xs[..n], f, if |ys| == |xs| then ys[..n] else ys);
      if |ys| == |xs| {
        assert ys == ys[..n] + [ys[n]];
        if forall j :: 0 <= j < |xs| ==> f(xs[j]) == Ok(ys[j]) {
          assert forall j :: 0 <= j < n ==> f(xs[..n][j]) == Ok(ys[..n][j]);
        }
        if MapResult(xs, f) == Ok(ys) {
          forall j | 0 <= j < |xs| ensures f(xs[j]) == Ok(ys[j]) {
            if j < n { assert xs[..n][j] == xs[j]; }
          }
        }
      }
    }
  }

  /** An element that fails after only successes stops the whole map with its error. */
  lemma {:induction false} MapResultStops<A, B>(xs: seq<A>, f: A -> Result<B>, i: nat)
    requires i < |xs| && MapResult(xs[..i], f).Ok? && f(xs[i]).Err?
    ensures MapResult(xs, f) == Err(f(xs[i]).error)
  {
    if i == |xs| - 1 {
      assert xs[..|xs| - 1] == xs[..i];
    } else {
      assert xs[..|xs| - 1][..i] == xs[..i];
      MapResultStops(xs[..|xs| - 1], f, i);
    }
  }

  /** A failing map fails with the error of its first failing element. */
  lemma {:induction false} MapResultFirstError<A, B>(xs: seq<A>, f: A -> Result<B>)
    requires MapResult(xs, f).Err?
    ensures exists i :: (0 <= i < |xs| && f(xs[i]) == Err(MapResult(xs, f).error) &&
                        forall j :: 0 <= j < i ==> f(xs[j]).Ok?)
  {
    var n := |xs| - 1;
    if MapResult(xs[..n], f).Err? {
      MapResultFirstError(xs[..n], f);
      var i :| 0 <= i < n && f(xs[..n][i]) == Err(MapResult(xs[..n], f).error) &&
        forall j :: 0 <= j < i ==> f(xs[..n][j]).Ok?;
      assert forall j :: 0 <= j < i ==> xs[..n][j] == xs[j];
      assert f(xs[i]) == Err(MapResult(xs, f).error);
    } else {
      var ys := MapResult(xs[..n], f).value;
      MapResultOk(xs[..n], f, ys);
      assert forall j :: 0 <= j < n ==> xs[..n][j] == xs[j];
      assert f(xs[n]) == Err(MapResult(xs, f).error);
    }
  }

  /** Succeeds exactly when no element fails; then each result is its element's. */
  lemma MapResultAllOk<A, B>(xs: seq<A>, f: A -> Result<B>)
    ensures MapResult(xs, f).Ok? <==> forall j :: 0 <= j < |xs| ==> f(xs[j]).Ok?
    ensures MapResult(xs, f).Ok? ==> forall j :: 0 <= j < |xs| ==> f(xs[j]) == Ok(MapResult(xs, f).value[j])
  {
    if MapResult(xs, f).Ok? {
      MapResultOk(xs, f, MapResult(xs, f).value);
    } else {
      MapResultFirstError(xs, f);
    }
  }

  /** `list(map(float, texts))`: every text as a float, or the error of the first
      text `float()` rejects. */
  function Floats(parse: Parser, texts: seq<string>): (r: Result<seq<real>>)
    ensures r.Ok? <==> forall k :: 0 <= k < |texts| ==> parse(texts[k]).Some?
    ensures r.Ok? ==> |r.value| == |texts|
    ensures r.Ok? ==> forall k :: 0 <= k < |texts| ==> parse(texts[k]) == Some(r.value[k])
    ensures r.Err? ==> exists k :: (0 <= k < |texts| && parse(texts[k]).None? && r.error == NotAFloat(texts[k]) &&
                                   forall j :: 0 <= j < k ==> parse(texts[j]).Some?)
  {
    var f := (t: string) => Float(parse, t);
    MapResultAllOk(texts, f);
    if MapResult(texts, f).Err? then
      MapResultFirstError(texts, f);
      MapResult(texts, f)
    else
      MapResult(texts, f)
  }

  /** Python's `zip(xs, ys)`: pairs up to the shorter of the two. */
  function Zip<A, B>(xs: seq<A>, ys: seq<B>): (zs: seq<(A, B)>)
    ensures |zs| == if |xs| < |ys| then |xs| else |ys|
    ensures forall j :: 0 <= j < |zs| ==> zs[j] == (xs[j], ys[j])
  {
    if xs == [] || ys == [] then [] else [(xs[0], ys[0])] + Zip(xs[1..], ys[1..])
  }

  /** Python's `xs.index(x)`: the first position holding `x`; `None` where Python
      raises ValueError. */
  function IndexOf<T(==)>(xs: seq<T>, x: T): (r: Option<nat>)
    ensures r.None? <==> x !in xs
    ensures r.Some? ==> r.value < |xs| && xs[r.value] == x && x !in xs[..r.value]
  {
    if xs == [] then None
    else if xs[0] == x then Some(0)
    else
      match IndexOf(xs[1..], x)
      case None => None
      case Some(i) => assert xs[..i + 1] == [xs[0]] + xs[1..][..i]; Some(i + 1)
  }

  /** `''.join(parts)`, built the way a loop of `+=` builds it. */
  function Concat(parts: seq<string>): string
  {
    if parts == [] then "" else Concat(parts[..|parts| - 1]) + parts[|parts| - 1]
  }

  /** One more part is appended at the end. */
  lemma ConcatSnoc(parts: seq<string>, part: string)
    ensures Concat(parts + [part]) == Concat(parts) + part
  {
    assert (parts + [part])[..|parts|] == parts;
  }
}
