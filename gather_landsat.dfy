/** Band-asset selection, the href rewrite onto the requester-pays bucket,
    the product name, and the skip-or-raise rule of the per-item translate
    loop of `process_gather_landsat`.

    A STAC item is its `id` and its `assets` dict; an asset is its own dict
    of string fields, of which only `href` is read. */
module GatherLandsat {
  import opened Exceptions
  import Text

  /** An asset of a STAC item: its string fields, such as `href`. */
  datatype Asset = Asset(fields: map<string, string>)

  /** `item.to_dict()` as far as it is read: the scene id and the assets. */
  datatype Item = Item(id: string, assets: map<string, Asset>)

  /** `LANDSAT_BUCKET`. */
  const LandsatBucket: string := "usgs-landsat"

  /** The public data URL that the rewrite replaces. */
  const DataUrl: string := "https://landsatlook.usgs.gov/data/"

  /** What it is replaced by: GDAL's virtual S3 path of the bucket. */
  const BucketRoot: string := "/vsis3/" + LandsatBucket + "/"

  /** The text in front of the first three characters of an unsupported id. */
  const NotAvailable: string := "AK Fire Safe processing not available for this platform. "

  /** The text of the S3 error that makes the loop skip an item. */
  const NoSuchKey: string := "The specified key does not exist."

  // ----- The href rewrite -----

  /** `href.replace(DataUrl, BucketRoot)`: every non-overlapping occurrence,
      scanning from the left. */
  function ToBucketPath(href: string): string
  {
    Text.ReplaceAll(href, DataUrl, BucketRoot)
  }

  /** An href without the data URL, such as `foo`, is returned unchanged. */
  lemma ToBucketPathUnchanged(href: string)
    requires !Text.Contains(href, DataUrl)
    ensures ToBucketPath(href) == href
  {
    Text.ReplaceAllAbsent(href, DataUrl, BucketRoot);
  }

  /** The leftmost occurrence, wherever it is, becomes the bucket root and the
      rewrite goes on after it. */
  lemma ToBucketPathLeftmost(href: string, k: nat)
    requires Text.OccursAt(href, DataUrl, k)
    requires forall j :: 0 <= j < k ==> !Text.OccursAt(href, DataUrl, j)
    ensures ToBucketPath(href) == href[..k] + BucketRoot + ToBucketPath(href[k + |DataUrl|..])
  {
    Text.ReplaceAllLeftmost(href, DataUrl, BucketRoot, k);
  }

  /** The usual case: a data URL followed by a key path that does not contain
      it again is moved onto the bucket. */
  lemma ToBucketPathPrefix(key: string)
    requires !Text.Contains(key, DataUrl)
    ensures ToBucketPath(DataUrl + key) == BucketRoot + key
  {
    var href := DataUrl + key;
    assert href[..|DataUrl|] == DataUrl;
    assert href[|DataUrl|..] == key;
    ToBucketPathLeftmost(href, 0);
    ToBucketPathUnchanged(key);
  }

  /** The data URL starts with its only `h`. */
  lemma DataUrlSingleH()
    ensures DataUrl[0] == 'h'
    ensures forall j :: 0 < j < |DataUrl| ==> DataUrl[j] != 'h'
  {
  }

  /** The rewrite works piece by piece around a data URL: whatever text comes
      before it and after it, each side is rewritten on its own and the URL
      itself becomes the bucket root. */
  lemma ToBucketPathAfter(front: string, key: string)
    ensures ToBucketPath(front + DataUrl + key) == ToBucketPath(front) + BucketRoot + ToBucketPath(key)
  {
    DataUrlSingleH();
    Text.ReplaceAllAround(front, DataUrl, BucketRoot, key);
  }

  /** The rewrite is not anchored at the start: a data URL after text that
      does not contain it is replaced in place. */
  lemma ToBucketPathMidString(front: string, key: string)
    requires !Text.Contains(front, DataUrl)
    ensures ToBucketPath(front + DataUrl + key) == front + BucketRoot + ToBucketPath(key)
  {
    ToBucketPathAfter(front, key);
    ToBucketPathUnchanged(front);
  }

  // ----- Band selection -----

  /** The asset keys tried for a platform digit, most preferred first: the
      green band for Landsat 4 and 5, the panchromatic band for Landsat 7, 8
      and 9, none for any other platform. */
  function BandKeys(platform: char): (keys: seq<string>)
    ensures keys == [] || |keys| == 2
  {
    if platform == '4' || platform == '5' then ["B2.TIF", "green"]
    else if platform == '7' || platform == '8' || platform == '9' then ["B8.TIF", "pan"]
    else []
  }

  /** The asset under the first of `keys` present in `assets`. */
  function FirstPresent(assets: map<string, Asset>, keys: seq<string>): (a: Option<Asset>)
    ensures a.None? <==> forall i :: 0 <= i < |keys| ==> keys[i] !in assets
    ensures a.Some? ==> exists i :: 0 <= i < |keys| && keys[i] in assets && assets[keys[i]] == a.value
                                      && forall j :: 0 <= j < i ==> keys[j] !in assets
  {
    if keys == [] then None
    else if keys[0] in assets then Some(assets[keys[0]])
    else
      var rest := FirstPresent(assets, keys[1..]);
      assert forall i :: 1 <= i < |keys| ==> keys[i] == keys[1..][i - 1];
      if rest.Some? then
        ghost var i :| 0 <= i < |keys[1..]| && keys[1..][i] in assets && assets[keys[1..][i]] == rest.value
                                           && forall j :: 0 <= j < i ==> keys[1..][j] !in assets;
        assert keys[i + 1] in assets && assets[keys[i + 1]] == rest.value;
        rest
      else rest
  }

  /** `band['href']` rewritten onto the bucket; an asset without `href`
      raises KeyError. */
  function HrefPath(band: Asset): Result<string>
  {
    if "href" in band.fields then Ok(ToBucketPath(band.fields["href"])) else Err(KeyError("href"))
  }

  /** The selection rule stated as a table lookup and a search: the 4th id
      character picks the list of keys, the first key present wins, and when
      none is, the lookup of the last one raises. `message` is the text of the
      NotImplementedError in front of the first three id characters. */
  function SelectByTable(metadata: Item, message: string): Result<string>
  {
    if |metadata.id| < 4 then Err(IndexError)
    else
      var keys := BandKeys(metadata.id[3]);
      if keys == [] then Err(NotImplementedError(message + metadata.id[..3]))
      else
        match FirstPresent(metadata.assets, keys)
        case None => Err(KeyError(keys[|keys| - 1]))
        case Some(band) => HrefPath(band)
  }

  /** `get_lc2_path`: the band asset for the platform in the 4th character of
      the id, its href moved onto the bucket. */
  function GetLc2Path(metadata: Item): (r: Result<string>)
    ensures r == SelectByTable(metadata, NotAvailable)
  {
    if |metadata.id| < 4 then Err(IndexError)
    else
      var platform := metadata.id[3];
      var band :=
        if platform in ['4', '5'] then
          if "B2.TIF" in metadata.assets then Ok(metadata.assets["B2.TIF"])
          else if "green" in metadata.assets then Ok(metadata.assets["green"])
          else Err(KeyError("green"))
        else if platform in ['7', '8', '9'] then
          if "B8.TIF" in metadata.assets then Ok(metadata.assets["B8.TIF"])
          else if "pan" in metadata.assets then Ok(metadata.assets["pan"])
          else Err(KeyError("pan"))
        else Err(NotImplementedError(NotAvailable + metadata.id[..3]));
      match band
      case Err(e) => Err(e)
      case Ok(b) => HrefPath(b)
  }

  /** Only the 4th character is read: an id shorter than four characters
      raises IndexError, and nothing else does. */
  lemma ShortIdFails(metadata: Item)
    ensures GetLc2Path(metadata) == Err(IndexError) <==> |metadata.id| < 4
  {
  }

  /** A platform other than 4, 5, 7, 8 and 9 raises NotImplementedError naming
      the first three id characters, whatever the assets are. */
  lemma UnsupportedPlatform(metadata: Item)
    requires |metadata.id| >= 4
    ensures GetLc2Path(metadata).Err? && GetLc2Path(metadata).error.NotImplementedError?
        <==> metadata.id[3] !in ['4', '5', '7', '8', '9']
    ensures metadata.id[3] !in ['4', '5', '7', '8', '9'] ==>
              GetLc2Path(metadata) == Err(NotImplementedError(NotAvailable + metadata.id[..3]))
  {
  }

  /** The primary band is used whenever present, even when the fallback is
      there as well; the fallback only when the primary is absent; with
      neither present the fallback lookup raises KeyError. */
  lemma BandPreference(metadata: Item)
    requires |metadata.id| >= 4
    requires BandKeys(metadata.id[3]) != []
    ensures var keys := BandKeys(metadata.id[3]);
      && (keys[0] in metadata.assets ==> GetLc2Path(metadata) == HrefPath(metadata.assets[keys[0]]))
      && (keys[0] !in metadata.assets && keys[1] in metadata.assets ==>
            GetLc2Path(metadata) == HrefPath(metadata.assets[keys[1]]))
      && (keys[0] !in metadata.assets && keys[1] !in metadata.assets ==>
            GetLc2Path(metadata) == Err(KeyError(keys[1])))
  {
    var keys := BandKeys(metadata.id[3]);
    if keys[0] !in metadata.assets {
      assert keys[1..][0] == keys[1];
    }
  }

  /** A successful lookup returns the href of one of the platform's band
      assets with every data URL in it moved onto the bucket. */
  lemma ResultIsBandHref(metadata: Item)
    requires GetLc2Path(metadata).Ok?
    ensures |metadata.id| >= 4
    ensures exists key :: key in BandKeys(metadata.id[3]) && key in metadata.assets
              && "href" in metadata.assets[key].fields
              && GetLc2Path(metadata).value == ToBucketPath(metadata.assets[key].fields["href"])
  {
    var keys := BandKeys(metadata.id[3]);
    var band := FirstPresent(metadata.assets, keys);
    var i :| 0 <= i < |keys| && keys[i] in metadata.assets && metadata.assets[keys[i]] == band.value;
    assert keys[i] in keys;
  }

  // ----- Product name -----

  /** `get_product_name`: `LANDSAT_{start}_{end}` with the dashes of both
      dates dropped. */
  function GetProductName(startDate: string, endDate: string): (name: string)
    ensures |name| >= 9 && name[..8] == "LANDSAT_"
    ensures '-' !in name
  {
    var start := Text.StripDashes(startDate);
    var end := Text.StripDashes(endDate);
    Text.StripDashesNoDash(startDate);
    Text.StripDashesNoDash(endDate);
    var name := "LANDSAT_" + start + "_" + end;
    assert name[..8] == "LANDSAT_";
    assert forall i :: 0 <= i < |name| ==> name[i] != '-' by {
      forall i | 0 <= i < |name|
        ensures name[i] != '-'
      {
        if 8 <= i < 8 + |start| {
          assert name[i] == start[i - 8];
        } else if 9 + |start| <= i {
          assert name[i] == end[i - 9 - |start|];
        }
      }
    }
    name
  }

  /** The name keeps every non-dash character of the dates, in order. */
  lemma ProductNameKeepsDigits(startDate: string, endDate: string)
    ensures GetProductName(startDate, endDate)
         == "LANDSAT_" + Text.Without(startDate, '-') + "_" + Text.Without(endDate, '-')
  {
    Text.StripDashesIsWithout(startDate);
    Text.StripDashesIsWithout(endDate);
  }

  /** Dates without dashes go in unchanged, and dashes make no difference:
      the name of the dash-stripped dates is the same name. */
  lemma ProductNameIgnoresDashes(startDate: string, endDate: string)
    ensures GetProductName(Text.StripDashes(startDate), Text.StripDashes(endDate))
         == GetProductName(startDate, endDate)
    ensures '-' !in startDate && '-' !in endDate ==>
              GetProductName(startDate, endDate) == "LANDSAT_" + startDate + "_" + endDate
  {
    Text.StripDashesIdempotent(startDate);
    Text.StripDashesIdempotent(endDate);
    if '-' !in startDate && '-' !in endDate {
      Text.StripDashesUnchanged(startDate);
      Text.StripDashesUnchanged(endDate);
    }
  }

  /** The two examples the tests state. */
  lemma ProductNameShortExample()
    ensures GetProductName("1", "2") == "LANDSAT_1_2"
  {
    Text.StripDashesUnchanged("1");
    Text.StripDashesUnchanged("2");
  }

  /** The dates of the second example keep their digits. */
  lemma ExampleDates(startDate: string, endDate: string)
    requires startDate == "1990-01-01" && endDate == "1991-01-01"
    ensures Text.StripDashes(startDate) == "19900101"
    ensures Text.StripDashes(endDate) == "19910101"
  {
    var one := "01";
    assert startDate == "1990" + "-" + one + "-" + one;
    assert endDate == "1991" + "-" + one + "-" + one;
    Text.StripDashesDate(startDate, "1990", one, one);
    Text.StripDashesDate(endDate, "1991", one, one);
    assert "1990" + one + one == "19900101";
    assert "1991" + one + one == "19910101";
  }

  lemma ProductNameDateExample()
    ensures GetProductName("1990-01-01", "1991-01-01") == "LANDSAT_" + "19900101" + "_" + "19910101"
  {
    ExampleDates("1990-01-01", "1991-01-01");
  }

  // ----- The per-item translate loop -----

  /** One `gdal.Translate(destination, source)` call. */
  datatype Translation = Translation(destination: string, source: string)

  /** What happened to one item. */
  datatype Outcome =
    | LookupFailed(error: Error)                       // get_lc2_path raised
    | Translated(call: Translation)                    // the translate call succeeded
    | Skipped(call: Translation, warning: string)      // the S3 key was missing: warned
    | TranslateFailed(call: Translation, error: Error) // any other translate error: re-raised

  /** What the loop did: the translate calls in order, the warnings it
      issued, and the exception that ended it, if any. */
  datatype Run = Run(translations: seq<Translation>, warnings: seq<string>, failure: Option<Error>)

  /** `url.split('/')[-1]`, the local file name. */
  function FileName(url: string): (filename: string)
    ensures '/' !in filename
  {
    Text.LastSegment(url)
  }

  /** The warning for a skipped item. */
  function MissingFileWarning(filename: string): string
  {
    "The S3 bucket does not have the file " + filename
  }

  /** Whether the text of a translate error contains the missing-key message. */
  predicate IsMissingKey(message: string)
  {
    Text.Contains(message, NoSuchKey)
  }

  /** The body of the loop for one item. `lookup` is the href lookup the
      loop calls (GetLc2Path); `translate` stands for GDAL: for a destination
      and a source it succeeds (None) or raises RuntimeError with a message. */
  function TranslateItem<I>(lookup: I -> Result<string>, item: I, productName: string,
                         translate: (string, string) -> Option<string>): (o: Outcome)
    ensures o.LookupFailed? <==> lookup(item).Err?
    ensures o.LookupFailed? ==> o.error == lookup(item).error
    ensures !o.LookupFailed? ==>
              && o.call.source == lookup(item).value
              && o.call.destination == productName + "/" + FileName(o.call.source)
    ensures o.Translated? <==> !o.LookupFailed? && translate(o.call.destination, o.call.source).None?
    ensures o.Skipped? ==> && translate(o.call.destination, o.call.source).Some?
                           && IsMissingKey(translate(o.call.destination, o.call.source).value)
                           && o.warning == MissingFileWarning(FileName(o.call.source))
    ensures o.TranslateFailed? ==> && translate(o.call.destination, o.call.source).Some?
                                   && !IsMissingKey(translate(o.call.destination, o.call.source).value)
                                   && o.error == RuntimeError(translate(o.call.destination, o.call.source).value)
  {
    match lookup(item)
    case Err(e) => LookupFailed(e)
    case Ok(url) =>
      var filename := FileName(url);
      var productPath := productName + "/" + filename;
      var call := Translation(productPath, url);
      match translate(productPath, url)
      case None => Translated(call)
      case Some(message) =>
        if IsMissingKey(message) then Skipped(call, MissingFileWarning(filename))
        else TranslateFailed(call, RuntimeError(message))
  }

  /** The loop over the items, as a recursion: it ends at the first exception. */
  function Gather<I>(lookup: I -> Result<string>, items: seq<I>, productName: string, translate: (string, string) -> Option<string>): Run
    decreases |items|
  {
    if items == [] then Run([], [], None)
    else
      var rest := Gather(lookup, items[1..], productName, translate);
      match TranslateItem(lookup, items[0], productName, translate)
      case LookupFailed(e) => Run([], [], Some(e))
      case TranslateFailed(call, e) => Run([call], [], Some(e))
      case Translated(call) => Run([call] + rest.translations, rest.warnings, rest.failure)
      case Skipped(call, warning) => Run([call] + rest.translations, [warning] + rest.warnings, rest.failure)
  }

  /** What has been done so far, followed by the rest of the loop. */
  function Continue(done: Run, rest: Run): Run
  {
    Run(done.translations + rest.translations, done.warnings + rest.warnings, rest.failure)
  }

  /** The loop of `process_gather_landsat`: each item in turn, its translate
      call recorded, a missing S3 key warned about and skipped, every other
      exception ending the loop. */
  method TranslateItems(items: seq<Item>, productName: string, translate: (string, string) -> Option<string>)
    returns (translations: seq<Translation>, warnings: seq<string>, failure: Option<Error>)
    ensures Run(translations, warnings, failure) == Gather(GetLc2Path, items, productName, translate)
  {
    translations, warnings, failure := [], [], None;
    var i := 0;
    while i < |items|
      invariant 0 <= i <= |items|
      invariant Gather(GetLc2Path, items, productName, translate)
             == Continue(Run(translations, warnings, None), Gather(GetLc2Path, items[i..], productName, translate))
    {
      assert items[i..][0] == items[i] && items[i..][1..] == items[i + 1..];
      GatherStep(GetLc2Path, items[i..], productName, translate);
      ghost var rest := Gather(GetLc2Path, items[i + 1..], productName, translate);
      var outcome := TranslateItem(GetLc2Path, items[i], productName, translate);
      match outcome {
        case LookupFailed(e) =>
          failure := Some(e);
          return;
        case TranslateFailed(call, e) =>
          translations := translations + [call];
          failure := Some(e);
          return;
        case Translated(call) =>
          ContinueAssoc(translations, [call], rest.translations, warnings, [], rest.warnings);
          translations := translations + [call];
        case Skipped(call, warning) =>
          ContinueAssoc(translations, [call], rest.translations, warnings, [warning], rest.warnings);
          translations := translations + [call];
          warnings := warnings + [warning];
      }
      i := i + 1;
    }
    assert items[i..] == [];
  }

  /** One turn of the loop, outcome by outcome. */
  lemma GatherStep<I>(lookup: I -> Result<string>, items: seq<I>, productName: string,
                      translate: (string, string) -> Option<string>)
    requires items != []
    ensures var o := TranslateItem(lookup, items[0], productName, translate);
      var r := Gather(lookup, items, productName, translate);
      var rest := Gather(lookup, items[1..], productName, translate);
      && (o.LookupFailed? ==> r == Run([], [], Some(o.error)))
      && (o.TranslateFailed? ==> r == Run([o.call], [], Some(o.error)))
      && (o.Translated? ==> r == Run([o.call] + rest.translations, rest.warnings, rest.failure))
      && (o.Skipped? ==> r == Run([o.call] + rest.translations, [o.warning] + rest.warnings, rest.failure))
  {
  }

  lemma ContinueAssoc(t0: seq<Translation>, t1: seq<Translation>, t2: seq<Translation>,
                      w0: seq<string>, w1: seq<string>, w2: seq<string>)
    ensures t0 + (t1 + t2) == t0 + t1 + t2
    ensures w0 + (w1 + w2) == w0 + w1 + w2
  {
  }

  /** Every translate call writes `{productName}/{filename}`, where the
      filename is the last `/`-segment of the rewritten href of the item in
      the same position, so it contains no `/`. */
  lemma {:induction false} GatherDestinations<I>(lookup: I -> Result<string>, items: seq<I>, productName: string,
                                              translate: (string, string) -> Option<string>)
    ensures var r := Gather(lookup, items, productName, translate);
      && |r.translations| <= |items|
      && forall k :: 0 <= k < |r.translations| ==>
           && lookup(items[k]).Ok?
           && r.translations[k].source == lookup(items[k]).value
           && r.translations[k].destination == productName + "/" + FileName(r.translations[k].source)
    decreases |items|
  {
    if items != [] {
      var r := Gather(lookup, items, productName, translate);
      var rest := Gather(lookup, items[1..], productName, translate);
      GatherDestinations(lookup, items[1..], productName, translate);
      var o := TranslateItem(lookup, items[0], productName, translate);
      if o.Translated? || o.Skipped? {
        forall k | 1 <= k < |r.translations|
          ensures r.translations[k] == rest.translations[k - 1] && items[k] == items[1..][k - 1]
        {
        }
      }
    }
  }

  /** A run without an exception translated every item, one call per item;
      a run with one stopped at the item that raised it: either its lookup
      raised before any call, or its translate call, the last one, raised an
      error other than the missing key. */
  lemma {:induction false} GatherStops<I>(lookup: I -> Result<string>, items: seq<I>, productName: string,
                                       translate: (string, string) -> Option<string>)
    ensures var r := Gather(lookup, items, productName, translate);
      && (r.failure.None? ==> |r.translations| == |items|)
      && (r.failure.Some? ==>
            || (|r.translations| < |items|
                && TranslateItem(lookup, items[|r.translations|], productName, translate) == LookupFailed(r.failure.value))
            || (0 < |r.translations| <= |items|
                && TranslateItem(lookup, items[|r.translations| - 1], productName, translate)
                   == TranslateFailed(r.translations[|r.translations| - 1], r.failure.value)))
    decreases |items|
  {
    if items != [] {
      var r := Gather(lookup, items, productName, translate);
      var rest := Gather(lookup, items[1..], productName, translate);
      var o := TranslateItem(lookup, items[0], productName, translate);
      if o.Translated? || o.Skipped? {
        GatherStops(lookup, items[1..], productName, translate);
        var n := |rest.translations|;
        assert |r.translations| == n + 1;
        if r.failure.Some? {
          if n < |items[1..]| && TranslateItem(lookup, items[1..][n], productName, translate) == LookupFailed(r.failure.value) {
            assert items[1..][n] == items[n + 1];
          } else {
            assert items[1..][n - 1] == items[n] && r.translations[n] == rest.translations[n - 1];
          }
        }
      }
    }
  }

  /** The calls of a run that succeeded. */
  function Passed(calls: seq<Translation>, translate: (string, string) -> Option<string>): seq<Translation>
  {
    if calls == [] then []
    else (if translate(calls[0].destination, calls[0].source).None? then [calls[0]] else [])
         + Passed(calls[1..], translate)
  }

  /** The warning each failed call of a run leaves, in call order. */
  function Warned(calls: seq<Translation>, translate: (string, string) -> Option<string>): seq<string>
  {
    if calls == [] then []
    else (if translate(calls[0].destination, calls[0].source).Some? then [MissingFileWarning(FileName(calls[0].source))] else [])
         + Warned(calls[1..], translate)
  }

  /** When no item's lookup raises and no translate call the loop makes raises
      anything but the missing-key error, the loop finishes: every item is
      translated in order, each failed call leaves the warning that names its
      file, in the same order, and every call either passed or warned. */
  lemma {:induction false} MissingKeysAreSkipped<I>(lookup: I -> Result<string>, items: seq<I>, productName: string,
                                                 translate: (string, string) -> Option<string>)
    requires forall k :: 0 <= k < |items| ==>
               TranslateItem(lookup, items[k], productName, translate).Translated?
               || TranslateItem(lookup, items[k], productName, translate).Skipped?
    ensures var r := Gather(lookup, items, productName, translate);
      && r.failure.None?
      && |r.translations| == |items|
      && (forall k :: 0 <= k < |items| ==> r.translations[k] == TranslateItem(lookup, items[k], productName, translate).call)
      && r.warnings == Warned(r.translations, translate)
      && |r.warnings| + |Passed(r.translations, translate)| == |items|
    decreases |items|
  {
    if items != [] {
      var r := Gather(lookup, items, productName, translate);
      var rest := Gather(lookup, items[1..], productName, translate);
      var o := TranslateItem(lookup, items[0], productName, translate);
      assert forall k :: 0 <= k < |items[1..]| ==> items[1..][k] == items[k + 1];
      MissingKeysAreSkipped(lookup, items[1..], productName, translate);
      assert r.translations == [o.call] + rest.translations;
      assert r.translations[1..] == rest.translations;
      forall k | 1 <= k < |items|
        ensures r.translations[k] == TranslateItem(lookup, items[k], productName, translate).call
      {
        assert r.translations[k] == rest.translations[k - 1];
        assert items[1..][k - 1] == items[k];
      }
    }
  }
}
