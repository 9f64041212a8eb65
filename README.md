# exofop scraper: table readers and link filter, in Dafny

This project models the core of `exofop/scrape.py`, the scraper for the ExoFOP
target pages of K2 targets. It covers four functions of that file:

- `get_phot` reads the photometry table. It returns a map from band name to
  magnitude, plus the `band = value[,error]` text it can print or save.
- `get_stellar` reads the stellar-parameter table. It selects the row of Huber
  et al. (or, failing that, the last row), looks up Teff, log(g), [Fe/H] and
  optionally the radius by header text, and returns both the text summary and
  the map of parsed values.
- `get_planets` reads the planet-candidate table. It returns, per candidate, a
  map of its six fields: `None` for a blank cell, a float, or a float plus an
  `_err` entry when the cell has a `±`.
- `get_specific_ext` keeps the links with a given file extension and turns
  each into a full archive URL, or returns `None` when no link has it.

The page fetch and the HTML parsing are outside the model. A table is a
sequence of `Row(headers, cells)`: the texts of each `tr`'s `th` and `td`
cells. Python's `float()` is a parameter `parse: string -> Option<real>`.
An exception the code can raise (IndexError, ValueError from `list.index`,
`float()` or tuple unpacking) is an `Err` of `Common.Result`, and the first
one raised ends the call. Python's `dict` is `PyDict.Dict`, which keeps
insertion order: a new key goes at the end, and an overwritten key keeps its
place.

The loops of the source are methods (`GetPhot`, `SelectRow`, `StellarSummary`,
`GetStellar`, `ReadFields`, `GetPlanets`, `GetSpecificExt`). Each is proved
equal to a function (`PhotOf`, `ScanFrom`, `SummaryOf`, `StellarOf`,
`FieldsOf`, `PlanetsOf`, `Wanted`). Lemmas then prove what the source promises
about those functions. Modules: `Common` (errors, rows, `map`/`zip`/`index`),
`Text` (string operations), `PyDict`, `Photometry`, `Stellar`, `Planets`,
`Links`.

Where the code and the design notes differ, the model follows the code:

- `get_specific_ext` compares `link.split('.')[-1]` with the extension. A link
  with no dot is therefore kept when the whole link equals the extension; it
  is not skipped.
- `get_phot` stores every `±`-separated part of a value, not exactly a
  (value, uncertainty) pair.
- When no stellar row names Huber, `get_stellar` reads the last row of the
  table. This is header row 1 when there are no data rows.

## Model

| member | source | states |
|---|---|---|
| Common.Float | exofop/scrape.py:46 | `float(text)` succeeds exactly when the parser accepts the text; otherwise it raises ValueError naming the text |
| Common.Floats | exofop/scrape.py:43 | `list(map(float, parts))` succeeds exactly when every part parses, giving each part's value in order; otherwise it raises ValueError for the first part that does not parse |
| Common.MapResult | exofop/scrape.py:25-47 | a loop whose passes may raise, stopped by the first pass that raises: when it finishes it has one result per element |
| Common.MapResultOk | exofop/scrape.py:25-47 | a loop whose body may raise finishes exactly when every pass succeeds, with the passes' results in order |
| Common.MapResultStops | exofop/scrape.py:25-47 | a pass that raises after only successful passes ends the loop with its exception |
| Common.MapResultFirstError | exofop/scrape.py:25-47 | a loop that raises does so with the exception of its first failing pass, and every earlier pass succeeded |
| Common.MapResultAllOk | exofop/scrape.py:25-47 | the loop succeeds exactly when no pass raises, and each pass's result is then the one the loop collected |
| Common.MapResultSnoc | exofop/scrape.py:25-47 | one more successful pass extends the collected results by that pass's result |
| Common.Zip | exofop/scrape.py:90 | `zip` pairs elements at equal positions, up to the shorter list |
| Common.IndexOf | exofop/scrape.py:91 | `keys.index(w)` is the first position holding `w`, and raises exactly when `w` is absent |
| Text.Split | exofop/scrape.py:42 | `split` on one character gives one piece more than there are separators, and no piece holds the separator |
| Text.SplitWhole | exofop/scrape.py:41-46 | a text splits into a single piece exactly when it holds no separator, and that piece is the text itself |
| Text.JoinSplit | exofop/scrape.py:42 | `','.join(vals.split('±'))` is `vals` with every `±` replaced by a comma |
| Text.Join | exofop/scrape.py:42 | `sep.join(parts)` starts with the first part |
| Text.Replace | exofop/scrape.py:42 | the replacement keeps the length and changes exactly the separator characters |
| Text.OccurrencesZero | exofop/scrape.py:41 | a character occurs zero times exactly when it is not in the text |
| Text.ContainsAt | exofop/scrape.py:78 | `'Huber' in text` holds exactly when the marker occurs at some position of the text |
| Text.Contains | exofop/scrape.py:78 | `sub in s` holds for an empty `sub`, and only when `sub` is no longer than `s`; `ContainsAt` gives the exact condition |
| Text.TrimStart | exofop/scrape.py:126 | `lstrip` removes exactly the leading white space |
| Text.TrimEnd | exofop/scrape.py:126 | `rstrip` removes exactly the trailing white space |
| Text.Strip | exofop/scrape.py:126 | `strip` leaves a slice with only white space around it, neither starting nor ending with white space, and empty exactly when the text is all white space |
| Text.LastPart | exofop/scrape.py:180 | `s.split(sep)[-1]` holds no separator, and is all of `s` when `s` holds none |
| Text.LastPartAfterLastSep | exofop/scrape.py:180 | `s.split('.')[-1]` is what follows the last dot of `s`, or all of `s` when there is no dot |
| Text.LastPartAfter | exofop/scrape.py:180 | the last piece of `p + '.' + e` is `e` when `e` has no dot |
| PyDict.Dict.Put | exofop/scrape.py:43 | `d[k] = v` sets `k` to `v` and keeps each key listed once |
| PyDict.Empty | exofop/scrape.py:23 | `{}` has no entries |
| PyDict.FromPairs | exofop/scrape.py:23-47 | assigning pairs in turn from `{}` leaves exactly the assigned keys |
| PyDict.FromPairsSnoc | exofop/scrape.py:43-46 | assigning one more pair is one more `d[k] = v` on the dict built so far |
| PyDict.FromPairsLastWins | exofop/scrape.py:43-46 | a key holds the value of its last assignment |
| PyDict.FromPairsOrder | exofop/scrape.py:43-46 | keys are listed in the order of their first assignment |
| PyDict.FromPairsDistinct | exofop/scrape.py:104-105 | with distinct keys, the dict lists them in order and each holds its own value |
| PyDict.FirstIndex | exofop/scrape.py:43-46 | the first position of a key in the assignment order |
| PyDict.FirstIndexPrefix | exofop/scrape.py:43-46 | a key found in a prefix has the same first position there |
| Photometry.CanonicalBand | exofop/scrape.py:27-37 | `Kep` and the four WISE labels become Kepler and W1 to W4; exactly those five names change, and no result is one of them |
| Photometry.PhotRow | exofop/scrape.py:26-47 | a row with fewer than two cells raises IndexError. Otherwise the row is filed under its canonical band, and its line is `band = ` plus the value with `±` turned into commas. A value without `±` must parse and gives a magnitude. A value with `±` gives every part as a float and fails exactly when some part does not parse |
| Photometry.GetPhot | exofop/scrape.py:14-58 | the row loop over the rows after the two header rows computes `PhotOf`, both the band map and the text |
| Photometry.PhotOfFails | exofop/scrape.py:25-47 | `get_phot` succeeds exactly when every band row does, and otherwise raises what the first failing row raises |
| Photometry.PhotText | exofop/scrape.py:24-47 | the text is each band row's summary line, in row order |
| Photometry.PhotBandOrder | exofop/scrape.py:25-46 | the bands of the map are exactly those of the rows, in the order they first appear |
| Photometry.PhotLastRowWins | exofop/scrape.py:25-46 | a band holds the measurement of the last row filed under it |
| Stellar.Columns | exofop/scrape.py:82-90 | the wanted pairs are Teff/Teff(K), logg/log(g) and feh/[Fe/H], then rstar/Radius(R_Sun) exactly when `rstar` is set |
| Stellar.NamesDistinct | exofop/scrape.py:82-88 | the short names are those of the columns, and no two are equal |
| Stellar.ScanFrom | exofop/scrape.py:77-80 | the selection loop ends on a row of the table, and can only fail with IndexError |
| Stellar.IsPreferred | exofop/scrape.py:78 | a row names Huber exactly when it has a third-from-last cell and `Huber` occurs at some position of that cell |
| Stellar.SelectRow | exofop/scrape.py:74-80 | the loop over rows 2 onward returns the row `ScanFrom` picks, or its IndexError |
| Stellar.ScanChoice | exofop/scrape.py:77-80 | the loop ends on row `k` exactly when `k` is the first row naming Huber (all earlier rows having a source cell), or there is none and `k` is the table's last row |
| Stellar.ScanFails | exofop/scrape.py:77-80 | the loop raises exactly when it reaches a row without a third-from-last cell |
| Stellar.Cell | exofop/scrape.py:91-92 | `vals[keys.index(w)]` is the cell under the first column headed `w`; it raises ValueError when no column is, and IndexError when the row is too short |
| Stellar.ColumnLine | exofop/scrape.py:91-93 | a line exists exactly when the cell does, and is `g = ` plus the cell with `±` turned into commas |
| Stellar.StellarSummary | exofop/scrape.py:89-93 | the `out_str` loop computes `SummaryOf` |
| Stellar.SummaryLines | exofop/scrape.py:89-93 | the summary exists exactly when every wanted cell does, and is then one line per wanted parameter, in order |
| Stellar.HeaderValues | exofop/scrape.py:104 | one comprehension entry succeeds exactly when its cell exists and all of its `±` parts parse, and is then those floats; a missing cell raises the cell's error |
| Stellar.StellarParams | exofop/scrape.py:104-105 | the dict's keys are exactly the wanted short names, in order. It exists exactly when every wanted entry can be read, and each name holds its entry's floats. Otherwise it raises the first failing entry's error |
| Stellar.ColumnPairs | exofop/scrape.py:104-105 | the comprehension's pairs exist exactly when every entry does, each named after its column and holding its entry; otherwise the first error is raised |
| Stellar.ColumnDict | exofop/scrape.py:104-105 | pairs named like the columns give a dict keyed by the short names, each holding its own value |
| Stellar.GetStellar | exofop/scrape.py:61-107 | the header row, the selection loop, the `out_str` loop and the final dict compute `StellarOf` |
| Stellar.StellarKeys | exofop/scrape.py:82-88 | a result has keys Teff, logg and feh, in order, and rstar exactly when asked for |
| Stellar.StellarValues | exofop/scrape.py:80-105 | each parameter of a result is the floats read from the chosen row under the column whose row-1 header is the wanted label |
| Stellar.MissingHeaderFails | exofop/scrape.py:91 | a wanted header missing from row 1 makes `get_stellar` raise |
| Planets.StrippedCells | exofop/scrape.py:126 | the first seven cells (or fewer, when the row has fewer), each stripped |
| Planets.FieldOf | exofop/scrape.py:131-140 | an empty cell is blank. A cell without `±` must parse. A cell with `±` succeeds exactly when it has one `±` and both parts parse, giving value and error. With more parts it raises "too many values" exactly when the first three parse; otherwise it raises ValueError for the first unparsable part among the first three |
| Planets.Store | exofop/scrape.py:131-140 | one field's assignments keep each key listed once and add exactly the field's key, plus its `_err` key when the cell has an error |
| Planets.StoreAll | exofop/scrape.py:129-140 | the assignments of all fields from `{}` leave a dict whose keys are exactly the fields' keys and `_err` keys (`FieldKeys`) |
| Planets.ReadFields | exofop/scrape.py:128-140 | the inner loop over `zip(keys, res[1:])` computes `FieldsOf` |
| Planets.CandidateOf | exofop/scrape.py:126-141 | a row without cells raises IndexError; otherwise the row is filed under its stripped first cell with the dict the inner loop builds from the next six stripped cells, and it raises exactly when that loop raises, with its error |
| Planets.FieldKeys | exofop/scrape.py:130-140 | every key the assignments create is a field name or a field name with `_err` |
| Planets.FieldNamesApart | exofop/scrape.py:128 | no two field names are equal, and neither is the other's `_err` key |
| Planets.StoreFresh | exofop/scrape.py:133-140 | assigning a field with new keys appends its key, then its `_err` key when it has an error |
| Planets.StoreAllKeys | exofop/scrape.py:129-140 | with apart names, the dict lists exactly the assigned keys, in assignment order |
| Planets.StoreAllAt | exofop/scrape.py:129-140 | with apart names, each field holds its value (`None` when blank), and its `_err` key exists exactly when it has an error, holding that error |
| Planets.StoreKeeps | exofop/scrape.py:133-140 | assigning a field leaves every other key as it was |
| Planets.StoreAllAbsent | exofop/scrape.py:129-140 | a key apart from every assigned field name is never created, and neither is its `_err` key |
| Planets.StoreOwn | exofop/scrape.py:133-140 | assigning a field sets its key, and its `_err` key exactly when it has an error |
| Planets.FieldPairs | exofop/scrape.py:130 | the loop passes are one per cell after the name, up to six, named in column order |
| Planets.FieldPresent | exofop/scrape.py:129-140 | a field is in the dict exactly when its row has a cell for it. It then holds that cell's value (`None` when blank), and its `_err` key exists exactly when the cell has a `±` error, holding it |
| Planets.FieldKept | exofop/scrape.py:129-140 | a field whose row has a cell for it holds that cell's value, and its `_err` key exists exactly when the cell has a `±` error, holding it |
| Planets.FieldMissing | exofop/scrape.py:129-130 | a field past the row's last cell is not in the dict, and neither is its `_err` key |
| Planets.FieldOrder | exofop/scrape.py:129-140 | the dict's keys are the fields that have cells, in column order, each followed by its `_err` key when it has one |
| Planets.FieldsFail | exofop/scrape.py:130-140 | the inner loop raises exactly when one of the field cells cannot be read, and it raises what the first such cell raises |
| Planets.GetPlanets | exofop/scrape.py:124-143 | the row loop over the rows after the two header rows computes `PlanetsOf` |
| Planets.PlanetsFail | exofop/scrape.py:125-141 | `get_planets` succeeds exactly when every candidate row does, and otherwise raises what the first failing row raises |
| Planets.PlanetOrder | exofop/scrape.py:125-141 | the candidates are exactly the rows' stripped names, in the order they first appear |
| Planets.PlanetLastRowWins | exofop/scrape.py:125-141 | a later row with the same name replaces an earlier one: each candidate holds the fields of its last row |
| Links.GetSpecificExt | exofop/scrape.py:171-190 | returns `None` exactly when no URL is picked, and otherwise the picked URLs |
| Links.Wanted | exofop/scrape.py:177-183 | the loop picks at most one URL per link, each starting with the archive address |
| Links.HasExt | exofop/scrape.py:179-183 | a link passes the test only when it exists (a missing `href` raises and is skipped) and the extension holds no dot |
| Links.WantedAppend | exofop/scrape.py:177-183 | links are picked one by one: the URLs of two runs of links are each run's URLs in turn, so input order is kept |
| Links.WantedMembers | exofop/scrape.py:177-183 | a URL is picked exactly when it is `base + mission + '/' + link` for a link with the extension |
| Links.WantedNone | exofop/scrape.py:177-190 | nothing is picked exactly when no link has the extension |
| Links.ExtensionOf | exofop/scrape.py:180 | a link has the extension when the extension has no dot and ends the link after a dot. A dotless link has it only when it equals the extension, and any `prefix.ext` has it |

## Left out

- The page fetch (`urlopen`), BeautifulSoup and `find`/`findAll`: external
  I/O and a parsing library. A table is given as its rows, and a link list as
  the `href` values, with `None` for an `a` without one.
- Nested `tr`s: `findAll('tr')` also returns rows nested in a cell. The model
  takes the rows as a flat sequence, as the parser hands them over.
- `savefp`, `verbose` and `print`: file writes and console output. The text
  they would write is modelled (`Phot.text`, `Stellar.text`). The message
  `get_specific_ext` prints before returning `None` is left out.
- `return_str`: `GetPhot` and `GetStellar` return both the text and the map.
  With `return_str`, `get_stellar` returns before building the dict, so a
  call that would fail only in the dict succeeds there. `Stellar.SummaryLines`
  states that text alone.
- `float()`: a parameter. The model does not fix which texts Python accepts
  or the binary value it returns.
- `v is not ''` is an identity test. It is modelled as `v != ''`, which is
  what it does on CPython, where every empty string is one shared object.
- `get_all_links` and `save_to_file`: network access, directory creation,
  file downloads and `sys.exit`.
