# hyp3-gather-landsat in Dafny

This project models the computational core of the HyP3 plugin that gathers
Landsat Collection 2 scenes and fire perimeters. It covers:

- **Offset pagination of an OGC API - Features collection**
  (`iter_features_offset`). A `limit=1` probe reads `numberMatched`. The
  ceiling of `numberMatched / page_size`, optionally capped by a truthy
  `max_pages`, gives the number of pages. The pages are then fetched at
  offsets `0, page_size, 2*page_size, ...`, and the loop stops early after
  the first short page. The remote collection is a total function from a
  request to its response. A request is the collection id, the caller's
  filters, `limit` and, on page requests, `offset`. The method logs every
  request it issues, so the properties can talk about the calls as well as
  the result.
- **The perimeter file name** (`get_name`). The extent
  `[min_lon, min_lat, max_lon, max_lat]` becomes compass labels such as
  `W1_E5_S0_N6`. Each label takes its letter from the sign of the raw value
  and its number from Python's `round` (ties go to the even integer) of the
  magnitude. The two dates lose their dashes.
- **The band-asset lookup** (`get_lc2_path`, in both `gather_landsat.py` and
  `process.py`). The 4th character of the scene id picks the band:
  - 4 and 5 use `B2.TIF`, falling back on `green`;
  - 7, 8 and 9 use `B8.TIF`, falling back on `pan`;
  - any other platform raises NotImplementedError.

  The asset's `href` then has the public data URL
  `https://landsatlook.usgs.gov/data/` replaced by `/vsis3/usgs-landsat/`.
  Python exceptions (IndexError, KeyError, NotImplementedError, RuntimeError,
  ZeroDivisionError) are values of `Exceptions.Error`, carried by an
  `Ok`/`Err` result.
- **The product name** (`get_product_name`): `LANDSAT_{start}_{end}`, with
  the dashes dropped from both dates.
- **The per-item translate loop of `process_gather_landsat`**. For each
  item:
  - the rewritten href is looked up;
  - its last `/`-segment names the output `{product_name}/{filename}`;
  - GDAL Translate is called.

  A translate error whose text contains `The specified key does not exist.`
  is turned into a warning and the item is skipped. Any other error ends the
  loop, and so does an exception from the lookup. GDAL is a parameter: a
  function from (destination, source) to "succeeded" or "raised with this
  message".

Python's string operations are modelled exactly in `text.dfy`:
- `str.replace` replaces every non-overlapping occurrence, scanning from the
  left;
- `split('/')[-1]`;
- `sep.join`;
- `str` of a non-negative integer.

The href rewrite is naturally read as swapping a URL *prefix*, but the code
calls `str.replace`, which replaces the data URL wherever it occurs, as
often as it occurs. The model follows the code, and
`GatherLandsat.ToBucketPathAfter` proves that the rewrite splits around
any occurrence, whatever text precedes it: the text before and the text
after are rewritten on their own, and the occurrence becomes the bucket
root. This holds because the data URL's first character, `h`, occurs
nowhere else in it, so no occurrence can straddle the boundary
(`Text.ReplaceAllAround`).

`tests/test_process.py:18-21` calls `process.get_product_name`, but
`process.py` defines no such function; it exists only in `gather_landsat.py`.
The model checks those test vectors against `GatherLandsat.GetProductName`.

Files:
- `exceptions.dfy` holds the exception and result types.
- `text.dfy` holds the string operations.
- `pull_perimeter.dfy`, `gather_landsat.dfy` and `process.dfy` follow the
  three source modules.

## Model

| member | source | states |
|---|---|---|
| PullPerimeter.RequestQueries | src/hyp3_gather_landsat/pull_perimeter.py:34-61 | The probe sends the caller's filters with `limit` = 1. Page `i` sends them with `limit` = page size and `offset` = `i * page_size`. Every other key is the caller's, unchanged. |
| PullPerimeter.CeilDiv | src/hyp3_gather_landsat/pull_perimeter.py:47 | `math.ceil(total / page_size)` for a non-zero page size. For a positive size, `(c-1)*size < total <= c*size`. For a negative size the inequalities flip. |
| PullPerimeter.BelowCeil | src/hyp3_gather_landsat/pull_perimeter.py:47-56 | For a positive page size, page `i` lies below the ceiling exactly when its offset `i*size` lies below the total. |
| PullPerimeter.PageCount | src/hyp3_gather_landsat/pull_perimeter.py:47-51 | The page count is the ceiling, unless `max_pages` is truthy (given and non-zero) and smaller, in which case it is `max_pages`. It never exceeds the ceiling. |
| PullPerimeter.IterFeaturesOffset | src/hyp3_gather_landsat/pull_perimeter.py:13-71 | The method (probe, cap, page loop with early break) returns exactly what the recursive definition `Paginate` gives: features and request log, or ZeroDivisionError. |
| PullPerimeter.FetchPagesStep | src/hyp3_gather_landsat/pull_perimeter.py:55-69 | One turn of the loop: it requests page `i`, and either stops on a short page or appends the rest of the loop's features and requests. |
| PullPerimeter.FetchPagesLength | src/hyp3_gather_landsat/pull_perimeter.py:55-69 | The loop from page `i` issues at least one and at most `pages - i` requests, and none when no page is left. |
| PullPerimeter.FetchPagesRequests | src/hyp3_gather_landsat/pull_perimeter.py:55-61 | The `k`-th request of the loop started at page `i` is page `i + k`. |
| PullPerimeter.FetchPagesFeatures | src/hyp3_gather_landsat/pull_perimeter.py:62-63 | The features gathered are the concatenation of the features of the pages requested, in request order. |
| PullPerimeter.FetchPagesFull | src/hyp3_gather_landsat/pull_perimeter.py:68-69 | Every page but the last was full. When the loop stops before `pages - i` pages, its last page was short. |
| PullPerimeter.PaginateFails | src/hyp3_gather_landsat/pull_perimeter.py:40-47 | A missing or zero `numberMatched` returns an empty list after the probe alone. The call fails, with ZeroDivisionError, exactly when the count is non-zero and the page size is 0. |
| PullPerimeter.RequestsIssued | src/hyp3_gather_landsat/pull_perimeter.py:37-61 | The first request is the `limit=1` probe. Request `k >= 1` is page `k-1`, with offset `(k-1) * page_size`. |
| PullPerimeter.PageRequestBound | src/hyp3_gather_landsat/pull_perimeter.py:47-61 | For a non-zero page size the call returns. Beyond the probe it issues at most the page count of requests, and at least one page request when that count is positive. |
| PullPerimeter.ResultIsConcatenation | src/hyp3_gather_landsat/pull_perimeter.py:53-71 | The returned list is the features of the page requests concatenated in order. A page without `features` contributes nothing. |
| PullPerimeter.ShortPageEndsLoop | src/hyp3_gather_landsat/pull_perimeter.py:68-69 | No page is requested after a short one. If fewer pages than the page count were fetched, the last one was short. |
| PullPerimeter.Window | src/hyp3_gather_landsat/pull_perimeter.py:61-62 | The page that the slicing server assumed by `Completeness` answers to the call on line 61: `items[offset:offset+limit]`. It has at most `limit` elements, and is the exact slice inside the list or the tail at its end. |
| PullPerimeter.FetchSlices | src/hyp3_gather_landsat/pull_perimeter.py:55-69 | Against a server that serves slices of a list, the loop from page `i` returns items `i*size` to `pages*size`, capped at the list's length, after exactly `pages - i` requests. |
| PullPerimeter.Completeness | src/hyp3_gather_landsat/pull_perimeter.py:13-71 | Against a server that holds and counts N items, with no effective cap, the call returns all N items in order after `ceil(N/size)` page requests. With a cap `0 < k < ceil(N/size)`, it returns the first `k*size` items after `k` page requests. A negative cap, which is truthy, leaves only the probe and returns nothing. |
| PullPerimeter.SliceServerServesSlices | src/hyp3_gather_landsat/pull_perimeter.py:56-61 | A server that answers `limit`/`offset` queries by slicing is such a server, whatever filters the caller adds. This shows that the premise of `Completeness` can be met. |
| PullPerimeter.RoundHalfEven | src/hyp3_gather_landsat/pull_perimeter.py:87-88 | Python's `round`: the result is within 0.5 of the value, a tie goes to the even integer, and a non-negative value rounds to a non-negative integer. |
| PullPerimeter.LabelReadsBack | src/hyp3_gather_landsat/pull_perimeter.py:87-88 | A label is the direction letter, chosen by the sign of the unrounded value, followed by decimal digits that denote the rounded magnitude. |
| PullPerimeter.SmallNegativeIsSouth | src/hyp3_gather_landsat/pull_perimeter.py:88 | A latitude in [-0.5, 0) rounds to 0 yet is labelled `S0`. |
| PullPerimeter.GetName | src/hyp3_gather_landsat/pull_perimeter.py:74-97 | Fewer than four extent values raise IndexError, and nothing else does. Otherwise the name is `FIRE_PERIMETER_{lon0}_{lon2}_{lat1}_{lat3}_{start}_{end}.json`, with the dashes stripped from the dates. |
| PullPerimeter.NameLayout | src/hyp3_gather_landsat/pull_perimeter.py:90-95 | Joining the four labels with `_` inside the f-string gives one flat `_`-separated name. |
| PullPerimeter.ExampleLabels | tests/test_pull_perimeter.py:4-8 | The test extent gives the labels `W1`, `E5`, `S0`, `N6`. |
| PullPerimeter.ExampleDates | tests/test_pull_perimeter.py:6-7 | `0000-00-00` becomes `00000000`, and `1111-11-11` becomes `11111111`. |
| PullPerimeter.GetNameExample | tests/test_pull_perimeter.py:4-8 | The test's expected name `FIRE_PERIMETER_W1_E5_S0_N6_00000000_11111111.json`. |
| Text.ReplaceAllAbsent | src/hyp3_gather_landsat/gather_landsat.py:45 | `str.replace` leaves a string without the pattern unchanged. |
| Text.ReplaceAllLeftmost | src/hyp3_gather_landsat/gather_landsat.py:45 | `str.replace` replaces the leftmost occurrence and resumes right after it. Together with `ReplaceAllAbsent`, this determines the result. |
| Text.NoStraddle | src/hyp3_gather_landsat/gather_landsat.py:45 | For a pattern whose first character is not repeated in it, no occurrence starts at a non-empty text that does not begin with one and runs into a following occurrence. |
| Text.ReplaceAllAround | src/hyp3_gather_landsat/gather_landsat.py:45 | For such a pattern, replacing in `front + pattern + rest` equals replacing in `front`, then the replacement, then replacing in `rest`. |
| Text.ReplaceAllSkip | src/hyp3_gather_landsat/gather_landsat.py:45 | A leading character that starts no occurrence is kept, and the scan goes on with the next one. |
| Text.StripDashesCons | src/hyp3_gather_landsat/gather_landsat.py:58-59 | `replace('-', '')` drops a leading dash and keeps any other leading character. |
| Text.StripDashesConcat | src/hyp3_gather_landsat/gather_landsat.py:58-59 | Stripping dashes distributes over concatenation. |
| Text.StripDashesChar | src/hyp3_gather_landsat/gather_landsat.py:58-59 | A single character is dropped exactly when it is a dash. |
| Text.StripDashesNoDash | src/hyp3_gather_landsat/gather_landsat.py:58-59 | The result contains no dash. |
| Text.StripDashesUnchanged | src/hyp3_gather_landsat/gather_landsat.py:58-59 | A string without dashes is returned unchanged. |
| Text.StripDashesDate | src/hyp3_gather_landsat/pull_perimeter.py:92-93 | A date `Y-M-D` whose three parts hold no dash becomes `YMD`. |
| Text.StripDashesIsWithout | src/hyp3_gather_landsat/gather_landsat.py:58-59 | `replace('-', '')` equals dropping each dash from the string, character by character (an independent definition). |
| Text.StripDashesIdempotent | src/hyp3_gather_landsat/pull_perimeter.py:92-93 | Stripping the dashes twice gives the same result as stripping them once. |
| Text.LastSegment | src/hyp3_gather_landsat/gather_landsat.py:102 | `split('/')[-1]` contains no `/`. |
| Text.LastSegmentIsSuffix | src/hyp3_gather_landsat/gather_landsat.py:102 | The last segment is a suffix of the string: either the whole string, or the part right after a `/`. |
| Text.JoinFour | src/hyp3_gather_landsat/pull_perimeter.py:90 | `sep.join` of four parts puts the separator between neighbours only. |
| Text.DigitChar | src/hyp3_gather_landsat/pull_perimeter.py:87-88 | A digit below 10 becomes the character that denotes it. |
| Text.DecimalString | src/hyp3_gather_landsat/pull_perimeter.py:87-88 | `str(n)` for `n >= 0` is a non-empty string of decimal digits, with no leading zero, that denotes `n`. |
| GatherLandsat.ToBucketPathUnchanged | src/hyp3_gather_landsat/gather_landsat.py:45 | An href without the data URL, such as `foo`, is returned unchanged. |
| GatherLandsat.ToBucketPathLeftmost | src/hyp3_gather_landsat/gather_landsat.py:45 | The leftmost data URL, wherever it is, becomes `/vsis3/usgs-landsat/`, and the rewrite continues after it. |
| GatherLandsat.ToBucketPathPrefix | src/hyp3_gather_landsat/gather_landsat.py:45 | A data URL followed by a key that does not contain it again is moved onto the bucket: `DataUrl + key` becomes `/vsis3/usgs-landsat/ + key`. |
| GatherLandsat.ToBucketPathAfter | src/hyp3_gather_landsat/gather_landsat.py:45 | For any leading text and any key, `front + DataUrl + key` is rewritten to the rewritten `front`, then `/vsis3/usgs-landsat/`, then the rewritten key. |
| GatherLandsat.ToBucketPathMidString | src/hyp3_gather_landsat/gather_landsat.py:45 | The rewrite is not anchored at the start: a data URL after leading text that does not contain it is replaced in place, and that text is kept. |
| GatherLandsat.DataUrlSingleH | src/hyp3_gather_landsat/gather_landsat.py:45 | The data URL `https://landsatlook.usgs.gov/data/` has `h` only at its first index. |
| GatherLandsat.BandKeys | src/hyp3_gather_landsat/gather_landsat.py:34-43 | Each platform has either two keys to try (primary, then fallback) or none. |
| GatherLandsat.FirstPresent | src/hyp3_gather_landsat/gather_landsat.py:34-41 | The result is None exactly when no key is present. Otherwise it is the asset under the first key present. |
| GatherLandsat.GetLc2Path | src/hyp3_gather_landsat/gather_landsat.py:25-45 | The nested-if lookup equals the table-and-search definition `SelectByTable`, with the AK Fire Safe message. |
| GatherLandsat.ShortIdFails | src/hyp3_gather_landsat/gather_landsat.py:34 | The lookup raises IndexError exactly when the id has fewer than four characters. |
| GatherLandsat.UnsupportedPlatform | src/hyp3_gather_landsat/gather_landsat.py:42-43 | The lookup raises NotImplementedError exactly when the platform character is not 4, 5, 7, 8 or 9. The message ends with the first three id characters. |
| GatherLandsat.BandPreference | src/hyp3_gather_landsat/gather_landsat.py:34-41 | The primary band is used whenever it is present, even when the fallback is present too. The fallback is used only when the primary is absent. With neither present, the lookup raises KeyError for the fallback. |
| GatherLandsat.ResultIsBandHref | src/hyp3_gather_landsat/gather_landsat.py:34-45 | A successful lookup returns the rewritten `href` of one of the platform's band assets. |
| GatherLandsat.GetProductName | src/hyp3_gather_landsat/gather_landsat.py:48-61 | The name starts with `LANDSAT_` and contains no dash. |
| GatherLandsat.ProductNameKeepsDigits | src/hyp3_gather_landsat/gather_landsat.py:58-61 | The name is `LANDSAT_`, then the start date's non-dash characters in order, `_`, then the end date's. |
| GatherLandsat.ProductNameIgnoresDashes | src/hyp3_gather_landsat/gather_landsat.py:58-61 | Dash-stripped dates give the same name. Dates without dashes go in verbatim. |
| GatherLandsat.ProductNameShortExample | tests/test_process.py:19 | `('1', '2')` gives `LANDSAT_1_2`. |
| GatherLandsat.ExampleDates | tests/test_process.py:21 | `1990-01-01` becomes `19900101`, and `1991-01-01` becomes `19910101`. |
| GatherLandsat.ProductNameDateExample | tests/test_process.py:21 | `('1990-01-01', '1991-01-01')` gives `LANDSAT_19900101_19910101`. |
| GatherLandsat.FileName | src/hyp3_gather_landsat/gather_landsat.py:102 | The local file name contains no `/`. |
| GatherLandsat.TranslateItem | src/hyp3_gather_landsat/gather_landsat.py:101-110 | For one item, exactly one of four outcomes happens. A failing lookup raises before any translate call. Otherwise the translate call's source is the rewritten href and its destination is `{product_name}/{filename}`. A call that succeeds is recorded. An error naming the missing key becomes the warning about `filename`. Any other error is re-raised as RuntimeError. |
| GatherLandsat.TranslateItems | src/hyp3_gather_landsat/gather_landsat.py:100-110 | The loop method yields exactly the calls, warnings and ending exception of the recursive definition `Gather` over `get_lc2_path`. |
| GatherLandsat.GatherStep | src/hyp3_gather_landsat/gather_landsat.py:100-110 | One item of the loop, outcome by outcome: it stops the loop, or it passes on to the rest of the items. |
| GatherLandsat.GatherDestinations | src/hyp3_gather_landsat/gather_landsat.py:101-105 | The `k`-th translate call belongs to item `k`. Its lookup succeeded, its source is that href, and its destination is `{product_name}/` followed by the href's last segment. |
| GatherLandsat.GatherStops | src/hyp3_gather_landsat/gather_landsat.py:100-110 | A run without an exception made one call per item. A run with one stopped at the item that raised it: either its lookup raised, or its translate call (the last one made) raised a non-missing-key error. |
| GatherLandsat.MissingKeysAreSkipped | src/hyp3_gather_landsat/gather_landsat.py:100-110 | Suppose no item's lookup raises, and every translate call the loop makes either succeeds or fails with the missing-key error. Then the loop finishes. Call `k` is item `k`'s call. The warnings are exactly `The S3 bucket does not have the file {filename}` for each failed call, in call order. Every call either passed or left one warning. |
| Process.GetLc2Path | src/hyp3_gather_landsat/process.py:20-40 | The processing module's lookup equals `SelectByTable`, with the autoRIFT message. |
| Process.AgreesWithGatherLandsat | src/hyp3_gather_landsat/process.py:20-40 | The two copies of `get_lc2_path` agree on every item. They give the same href or the same exception; only an unsupported platform gets each module's own message, over the same three id characters. |
| Process.FooUnchanged | src/hyp3_gather_landsat/process.py:40 | The test href `foo` passes through the rewrite unchanged. |
| Process.TestVectors | tests/test_process.py:4-15 | All four test items (`L--5` with `B2.TIF` or `green`, `L--8` with `B8.TIF` or `pan`) give `foo`. |

## Left out

- The HTTP client (`owslib` Features), the STAC search (`pystac_client`), GDAL Translate, the zip archive, the S3 upload, `geopandas` and the command-line entry points are I/O. The server, and GDAL's success or error message, are function parameters.
- `progress` printing in `iter_features_offset` is output only and does not affect the result.
- Setting the AWS environment variables and GDAL config options is left out, because it changes process configuration only.
- `iter_features_offset` divides with Python floats (`total / page_size`). The model uses exact integer ceiling, so it does not capture rounding for counts beyond 2^53.
- `numberMatched` is modelled as an integer. A non-integer JSON value is left out.
- PullPerimeter.IterFeaturesOffset: the server never raises, and `features` is never JSON null. In Python, an exception from `w.collection_items` (lines 39 and 61), or the TypeError that `all_features.extend(None)` raises on line 63, propagates and discards the pages gathered so far. So "the call returns" in `PageRequestBound`, and `Ok?` in `RequestsIssued`, `ResultIsConcatenation`, `ShortPageEndsLoop` and `Completeness`, hold only for a server that always answers with a list or no `features` key.
- `get_name` takes the extent as reals. `float(ext)` parsing of strings, infinities and NaN are floating-point concerns and are left out.
- `metadata['assets'].get(key)` returns None for a key mapped to JSON null. The model treats assets as always-present dicts, so that fall-through is not modelled. Nor are a missing `id` or `assets` key, or a non-string `href`.
- `process_gather_landsat` in `process.py` (lines 42-69) is not part of this model. It runs the same search, but its loop differs from the modelled one:
  - it has no product name and no product directory;
  - it translates each scene to `url.split('/')[-1]` in the working directory, not to `{product_name}/{filename}`;
  - it has no try/except, so any translate error, the missing key included, ends the loop;
  - it makes no archive and no upload;
  - it returns `Path('./' + filename)` of the last url, which is unbound, raising an error, when the search finds no items.
- `pull_perimeter` (the driver that builds the query, reads the GeoDataFrame and writes the file) is I/O around the two modelled functions.
- PullPerimeter.Completeness: stated for a positive page size only. A negative page size sends negative limits and offsets, for which no slice semantics is defined.
- GatherLandsat.TranslateItems: the loop is proved for `get_lc2_path`. Its properties (`GatherDestinations`, `GatherStops`, `MissingKeysAreSkipped`) are stated for any lookup function, so they cover it too.
- GatherLandsat.TranslateItem: `warnings.warn` is modelled as appending the warning text to a list. Python's warning filters, such as de-duplication of repeated warnings, are not modelled.
- GatherLandsat.TranslateItem: translate errors other than RuntimeError are not modelled; GDAL with exceptions enabled raises RuntimeError.
