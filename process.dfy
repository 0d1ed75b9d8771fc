/** The second copy of the band-asset lookup, the one the tests exercise. It
    differs from GatherLandsat's only in the text of its NotImplementedError. */
module Process {
  import opened Exceptions
  import opened GatherLandsat

  /** The text in front of the first three characters of an unsupported id. */
  const NotAvailableHere: string := "autoRIFT processing not available for this platform. "

  /** `get_lc2_path` of the processing module. */
  function GetLc2Path(metadata: Item): (r: Result<string>)
    ensures r == SelectByTable(metadata, NotAvailableHere)
  {
    if |metadata.id| < 4 then Err(IndexError)
    else
      var platform := metadata.id[3];
      var band :=
        if platform in ['4', '5'] then
          if "B2.TIF" in metadata.assets then Ok(metadata.assets["B2.TIF"])
          else if "green" in metadata.assets then Ok(metadata.assets["green"])
          else Err(KeyError("green"))
        else if platform in ['7', '8', '9'] then
          if "B8.TIF" in metadata.assets then Ok(metadata.assets["B8.TIF"])
          else if "pan" in metadata.assets then Ok(metadata.assets["pan"])
          else Err(KeyError("pan"))
        else Err(NotImplementedError(NotAvailableHere + metadata.id[..3]));
      match band
      case Err(e) => Err(e)
      case Ok(b) => HrefPath(b)
  }

  /** The two copies agree on every item: the same href, or the same
      exception; only an unsupported platform gives each its own message,
      over the same first three id characters. */
  lemma AgreesWithGatherLandsat(metadata: Item)
    ensures var here := GetLc2Path(metadata);
      var there := GatherLandsat.GetLc2Path(metadata);
      && (here.Ok? <==> there.Ok?)
      && (here.Ok? ==> here == there)
      && (here.Err? && !here.error.NotImplementedError? ==> here == there)
      && (here.Err? && here.error.NotImplementedError? <==> there.Err? && there.error.NotImplementedError?)
      && (here.Err? && here.error.NotImplementedError? ==>
            && here.error.message == NotAvailableHere + metadata.id[..3]
            && there.error.message == NotAvailable + metadata.id[..3])
  {
  }

  /** An href without the data URL comes back as it is. */
  lemma FooUnchanged()
    ensures ToBucketPath("foo") == "foo"
  {
    ToBucketPathUnchanged("foo");
  }

  /** The four cases of the tests: a Landsat 5 id with only `B2.TIF` or only
      `green`, a Landsat 8 id with only `B8.TIF` or only `pan`, each asset's
      href being `foo`. */
  lemma TestVectors()
    ensures GetLc2Path(Item("L--5", map["B2.TIF" := Asset(map["href" := "foo"])])) == Ok("foo")
    ensures GetLc2Path(Item("L--5", map["green" := Asset(map["href" := "foo"])])) == Ok("foo")
    ensures GetLc2Path(Item("L--8", map["B8.TIF" := Asset(map["href" := "foo"])])) == Ok("foo")
    ensures GetLc2Path(Item("L--8", map["pan" := Asset(map["href" := "foo"])])) == Ok("foo")
  {
    FooUnchanged();
  }
}
