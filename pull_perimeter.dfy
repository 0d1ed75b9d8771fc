/** Offset pagination of an OGC API - Features collection
    (`iter_features_offset`) and the perimeter output name (`get_name`).

    The remote collection is a total function from a request to its response.
    A request is the collection id plus the query the code builds: the
    caller's filters, each lifted to `Filter(v)`, with `limit` and, on page
    requests, `offset` written over them as `Number(n)`. */
module PullPerimeter {
  import opened Exceptions
  import Text

  /** A call `w.collection_items(collection_id, **query)`: the caller's
      filters, the `limit` and, on page requests, the `offset`. */
  datatype Request<P> = Request(collection: string, filters: map<string, P>, limit: int, offset: Option<int>)

  /** A value in the keyword dict of a call: one of the caller's, or a number
      the function sets itself. */
  datatype Arg<P> = Filter(value: P) | Number(n: int)

  /** The two fields of a response page the code reads; either may be absent. */
  datatype Response<F> = Response(numberMatched: Option<int>, features: Option<seq<F>>)

  /** All features gathered and every request issued, in order. */
  datatype Fetch<P, F> = Fetch(features: seq<F>, requests: seq<Request<P>>)

  function Then<P, F>(a: Fetch<P, F>, b: Fetch<P, F>): Fetch<P, F>
  {
    Fetch(a.features + b.features, a.requests + b.requests)
  }

  /** `meta.get('numberMatched', 0)` */
  function NumberMatched<F>(r: Response<F>): int
  {
    match r.numberMatched
    case None => 0
    case Some(n) => n
  }

  /** `page.get('features', [])` */
  function FeaturesOf<F>(r: Response<F>): seq<F>
  {
    match r.features
    case None => []
    case Some(fs) => fs
  }

  /** The keyword dict a request sends: `dict(params)` with `limit` and then
      `offset` written over it. */
  function Query<P>(r: Request<P>): map<string, Arg<P>>
  {
    var q := (map key | key in r.filters :: Filter(r.filters[key]))["limit" := Number(r.limit)];
    match r.offset
    case None => q
    case Some(offset) => q["offset" := Number(offset)]
  }

  /** The probe: the caller's filters with `limit` set to 1. */
  function ProbeRequest<P>(collection: string, params: map<string, P>): Request<P>
  {
    Request(collection, params, 1, None)
  }

  /** Page `i`: the caller's filters with `limit = pageSize` and
      `offset = i * pageSize`. */
  function PageRequest<P>(collection: string, params: map<string, P>, pageSize: int, i: nat): Request<P>
  {
    Request(collection, params, pageSize, Some(i * pageSize))
  }

  /** Every call goes to the caller's collection and sends the caller's
      filters unchanged, plus `limit` (1 on the probe, `pageSize` on pages)
      and, on page `i`, `offset = i * pageSize`; nothing else is added. */
  lemma RequestQueries<P>(collection: string, params: map<string, P>, pageSize: int, i: nat)
    ensures var probe := ProbeRequest(collection, params);
      var q := Query(probe);
      && probe.collection == collection
      && q.Keys == params.Keys + {"limit"}
      && q["limit"] == Number(1)
      && (forall key :: key in params && key != "limit" ==> q[key] == Filter(params[key]))
    ensures var page := PageRequest(collection, params, pageSize, i);
      var q := Query(page);
      && page.collection == collection
      && q.Keys == params.Keys + {"limit", "offset"}
      && q["limit"] == Number(pageSize)
      && q["offset"] == Number(i * pageSize)
      && (forall key :: key in params && key != "limit" && key != "offset" ==> q[key] == Filter(params[key]))
  {
  }

  /** `math.ceil(total / page_size)` for a page size other than 0. */
  function CeilDiv(total: int, pageSize: int): (c: int)
    requires pageSize != 0
    ensures pageSize > 0 ==> (c - 1) * pageSize < total <= c * pageSize
    ensures pageSize < 0 ==> c * pageSize <= total < (c - 1) * pageSize
  {
    if pageSize > 0 then
      var q := (-total) / pageSize;
      assert q * pageSize <= -total < q * pageSize + pageSize;
      -q
    else
      var q := total / (-pageSize);
      assert q * (-pageSize) <= total < q * (-pageSize) + (-pageSize);
      assert -q * pageSize == q * (-pageSize);
      assert (-q - 1) * pageSize == q * (-pageSize) + (-pageSize);
      -q
  }

  /** A page index lies below the ceiling exactly when its offset lies below
      the total. */
  lemma BelowCeil(total: int, pageSize: int, i: int)
    requires pageSize > 0
    ensures i < CeilDiv(total, pageSize) <==> i * pageSize < total
  {
    var c := CeilDiv(total, pageSize);
    assert (c - 1) * pageSize < total <= c * pageSize;
    if i < c {
      MulMonotone(i, c - 1, pageSize);
    } else {
      MulMonotone(c, i, pageSize);
    }
  }

  /** `max_pages` is truthy: given and not zero. */
  predicate Capped(maxPages: Option<int>)
  {
    maxPages.Some? && maxPages.value != 0
  }

  /** The number of pages the loop runs over: the ceiling, unless a truthy
      `max_pages` is smaller. */
  function PageCount(total: int, pageSize: int, maxPages: Option<int>): (pages: int)
    requires pageSize != 0
    ensures pages <= CeilDiv(total, pageSize)
    ensures Capped(maxPages) && maxPages.value < CeilDiv(total, pageSize) ==> pages == maxPages.value
    ensures !(Capped(maxPages) && maxPages.value < CeilDiv(total, pageSize)) ==> pages == CeilDiv(total, pageSize)
  {
    var pages := CeilDiv(total, pageSize);
    if Capped(maxPages) && maxPages.value < pages then maxPages.value else pages
  }

  /** The page loop from page `i` on: fetch page `i`, stop after a short page,
      otherwise go on until `pages` pages have been fetched. */
  function FetchPages<P, F>(server: Request<P> -> Response<F>, collection: string, params: map<string, P>,
                            pageSize: int, pages: int, i: nat): Fetch<P, F>
    decreases pages - i
  {
    if pages <= i then Fetch([], [])
    else
      var request := PageRequest(collection, params, pageSize, i);
      var features := FeaturesOf(server(request));
      if |features| < pageSize then Fetch(features, [request])
      else Then(Fetch(features, [request]), FetchPages(server, collection, params, pageSize, pages, i + 1))
  }

  /** What `iter_features_offset` returns, with the requests it issues; a
      page size of 0 with a non-zero count raises ZeroDivisionError. */
  function Paginate<P, F>(server: Request<P> -> Response<F>, collection: string, params: map<string, P>,
                          pageSize: int, maxPages: Option<int>): Result<Fetch<P, F>>
  {
    var probe := ProbeRequest(collection, params);
    var total := NumberMatched(server(probe));
    if total == 0 then Ok(Fetch([], [probe]))
    else if pageSize == 0 then Err(ZeroDivisionError)
    else Ok(Then(Fetch([], [probe]), FetchPages(server, collection, params, pageSize, PageCount(total, pageSize, maxPages), 0)))
  }

  /** `iter_features_offset`: probe for the count, then fetch page after page
      into a growing list, leaving the loop at the first short page. */
  method IterFeaturesOffset<P, F>(server: Request<P> -> Response<F>, collection: string, params: map<string, P>,
                                  pageSize: int, maxPages: Option<int>)
    returns (r: Result<Fetch<P, F>>)
    ensures r == Paginate(server, collection, params, pageSize, maxPages)
  {
    var probe := Request(collection, params, 1, None);
    var meta := server(probe);
    var log := [probe];
    var total := NumberMatched(meta);
    if total == 0 {
      return Ok(Fetch([], log));
    }
    if pageSize == 0 {
      return Err(ZeroDivisionError);
    }
    var pages := CeilDiv(total, pageSize);
    if maxPages.Some? && maxPages.value != 0 && maxPages.value < pages {
      pages := maxPages.value;
    }
    assert pages == PageCount(total, pageSize, maxPages);
    var allFeatures := [];
    var i: nat := 0;
    while i < pages
      invariant Paginate(server, collection, params, pageSize, maxPages)
             == Ok(Then(Fetch(allFeatures, log), FetchPages(server, collection, params, pageSize, pages, i)))
      decreases pages - i
    {
      var offset := i * pageSize;
      var request := Request(collection, params, pageSize, Some(offset));
      var page := server(request);
      var features := FeaturesOf(page);
      ghost var before := Fetch(allFeatures, log);
      ghost var rest := FetchPages(server, collection, params, pageSize, pages, i + 1);
      FetchPagesUnfold(server, collection, params, pageSize, pages, i);
      ThenAssoc(before, Fetch(features, [request]), rest);
      log := log + [request];
      allFeatures := allFeatures + features;
      if |features| < pageSize {
        break;
      }
      i := i + 1;
    }
    assert Then(Fetch(allFeatures, log), Fetch([], [])) == Fetch(allFeatures, log);
    return Ok(Fetch(allFeatures, log));
  }

  // ----- Properties of the pagination -----

  /** The concatenation, in request order, of the features of the pages. */
  function ConcatPages<P, F>(server: Request<P> -> Response<F>, pagesRequested: seq<Request<P>>): seq<F>
  {
    if pagesRequested == [] then []
    else FeaturesOf(server(pagesRequested[0])) + ConcatPages(server, pagesRequested[1..])
  }

  /** One turn of the page loop, as an equation. */
  lemma FetchPagesUnfold<P, F>(server: Request<P> -> Response<F>, collection: string,
                               params: map<string, P>, pageSize: int, pages: int, i: nat)
    requires i < pages
    ensures FetchPages(server, collection, params, pageSize, pages, i)
         == var request := PageRequest(collection, params, pageSize, i);
            var features := FeaturesOf(server(request));
            if |features| < pageSize then Fetch(features, [request])
            else Then(Fetch(features, [request]), FetchPages(server, collection, params, pageSize, pages, i + 1))
  {
  }

  lemma ThenAssoc<P, F>(a: Fetch<P, F>, b: Fetch<P, F>, c: Fetch<P, F>)
    ensures Then(Then(a, b), c) == Then(a, Then(b, c))
  {
    assert (a.features + b.features) + c.features == a.features + (b.features + c.features);
    assert (a.requests + b.requests) + c.requests == a.requests + (b.requests + c.requests);
  }

  /** The field-by-field form of `FetchPagesUnfold`: what one turn of the
      page loop contributes to the features and to the requests. */
  lemma FetchPagesStep<P, F>(server: Request<P> -> Response<F>, collection: string,
                             params: map<string, P>, pageSize: int, pages: int, i: nat)
    requires i < pages
    ensures var request := PageRequest(collection, params, pageSize, i);
      var features := FeaturesOf(server(request));
      var r := FetchPages(server, collection, params, pageSize, pages, i);
      var rest := FetchPages(server, collection, params, pageSize, pages, i + 1);
      && |r.requests| >= 1
      && r.requests[0] == request
      && (|features| < pageSize ==> r.features == features && r.requests == [request])
      && (|features| >= pageSize ==> r.features == features + rest.features && r.requests[1..] == rest.requests)
  {
    FetchPagesUnfold(server, collection, params, pageSize, pages, i);
  }

  /** The loop issues at most `pages - i` page requests, and at least one when
      any page is left. */
  lemma {:induction false} FetchPagesLength<P, F>(server: Request<P> -> Response<F>, collection: string,
                                                  params: map<string, P>, pageSize: int, pages: int, i: nat)
    ensures var r := FetchPages(server, collection, params, pageSize, pages, i);
      && (pages <= i ==> r.requests == [] && r.features == [])
      && (i < pages ==> 1 <= |r.requests| <= pages - i)
    decreases pages - i
  {
    if i < pages {
      FetchPagesStep(server, collection, params, pageSize, pages, i);
      FetchPagesLength(server, collection, params, pageSize, pages, i + 1);
    }
  }

  /** `requests` are the page requests `i`, `i + 1`, ... in that order. */
  ghost predicate PagesFrom<P>(requests: seq<Request<P>>, collection: string, params: map<string, P>, pageSize: int, i: nat)
  {
    forall k :: 0 <= k < |requests| ==> requests[k] == PageRequest(collection, params, pageSize, i + k)
  }

  lemma PagesFromCons<P>(requests: seq<Request<P>>, collection: string, params: map<string, P>, pageSize: int, i: nat)
    requires requests != [] && requests[0] == PageRequest(collection, params, pageSize, i)
    requires PagesFrom(requests[1..], collection, params, pageSize, i + 1)
    ensures PagesFrom(requests, collection, params, pageSize, i)
  {
    forall k | 1 <= k < |requests|
      ensures requests[k] == PageRequest(collection, params, pageSize, i + k)
    {
      assert requests[k] == requests[1..][k - 1];
      assert (i + 1) + (k - 1) == i + k;
    }
  }

  /** The `k`-th page request of the loop started at page `i` is page `i + k`. */
  lemma {:induction false} FetchPagesRequests<P, F>(server: Request<P> -> Response<F>, collection: string,
                                                    params: map<string, P>, pageSize: int, pages: int, i: nat)
    ensures PagesFrom(FetchPages(server, collection, params, pageSize, pages, i).requests, collection, params, pageSize, i)
    decreases pages - i
  {
    if i < pages {
      var r := FetchPages(server, collection, params, pageSize, pages, i);
      FetchPagesStep(server, collection, params, pageSize, pages, i);
      FetchPagesRequests(server, collection, params, pageSize, pages, i + 1);
      var request := PageRequest(collection, params, pageSize, i);
      if |FeaturesOf(server(request))| < pageSize {
        assert r.requests[1..] == [];
      }
      PagesFromCons(r.requests, collection, params, pageSize, i);
    }
  }

  /** The features gathered are those of the pages requested, in order. */
  lemma {:induction false} FetchPagesFeatures<P, F>(server: Request<P> -> Response<F>, collection: string,
                                                    params: map<string, P>, pageSize: int, pages: int, i: nat)
    ensures var r := FetchPages(server, collection, params, pageSize, pages, i);
      r.features == ConcatPages(server, r.requests)
    decreases pages - i
  {
    if i < pages {
      var r := FetchPages(server, collection, params, pageSize, pages, i);
      FetchPagesStep(server, collection, params, pageSize, pages, i);
      FetchPagesFeatures(server, collection, params, pageSize, pages, i + 1);
      assert r.requests == [r.requests[0]] + r.requests[1..];
      if |r.requests| == 1 {
        assert r.requests[1..] == [];
      }
    }
  }

  /** Every page but the last was full; the loop ends early only on a short
      page. */
  lemma {:induction false} FetchPagesFull<P, F>(server: Request<P> -> Response<F>, collection: string,
                                                params: map<string, P>, pageSize: int, pages: int, i: nat)
    ensures var r := FetchPages(server, collection, params, pageSize, pages, i);
      && (forall k :: 0 <= k < |r.requests| - 1 ==> |FeaturesOf(server(r.requests[k]))| >= pageSize)
      && (0 < |r.requests| < pages - i ==> |FeaturesOf(server(r.requests[|r.requests| - 1]))| < pageSize)
    decreases pages - i
  {
    if i < pages {
      var r := FetchPages(server, collection, params, pageSize, pages, i);
      var rest := FetchPages(server, collection, params, pageSize, pages, i + 1);
      FetchPagesStep(server, collection, params, pageSize, pages, i);
      FetchPagesLength(server, collection, params, pageSize, pages, i + 1);
      FetchPagesFull(server, collection, params, pageSize, pages, i + 1);
      var features := FeaturesOf(server(r.requests[0]));
      if |features| >= pageSize {
        forall k | 1 <= k < |r.requests| - 1
          ensures |FeaturesOf(server(r.requests[k]))| >= pageSize
        {
          assert r.requests[k] == rest.requests[k - 1];
        }
        if 0 < |r.requests| < pages - i {
          assert r.requests[|r.requests| - 1] == rest.requests[|rest.requests| - 1];
        }
      }
    }
  }

  /** The probe comes first and always; with a count other than 0, a page
      size of 0 raises ZeroDivisionError, and any other page size returns. */
  lemma PaginateFails<P, F>(server: Request<P> -> Response<F>, collection: string, params: map<string, P>,
                            pageSize: int, maxPages: Option<int>)
    ensures var total := NumberMatched(server(ProbeRequest(collection, params)));
      var r := Paginate(server, collection, params, pageSize, maxPages);
      && (r.Err? <==> total != 0 && pageSize == 0)
      && (r.Err? ==> r.error == ZeroDivisionError)
      && (total == 0 ==> r == Ok(Fetch([], [ProbeRequest(collection, params)])))
  {
  }

  /** The first request is the `limit=1` probe; request `k >= 1` is page `k-1`,
      with `limit = pageSize` and `offset = (k-1) * pageSize`, so offsets grow
      by `pageSize` from request to request. No request carries anything but
      the caller's filters, `limit` and `offset`. */
  lemma RequestsIssued<P, F>(server: Request<P> -> Response<F>, collection: string, params: map<string, P>,
                             pageSize: int, maxPages: Option<int>)
    requires pageSize != 0
    ensures Paginate(server, collection, params, pageSize, maxPages).Ok?
    ensures var r := Paginate(server, collection, params, pageSize, maxPages).value;
      && |r.requests| >= 1
      && r.requests[0] == ProbeRequest(collection, params)
      && (forall k :: 1 <= k < |r.requests| ==> r.requests[k] == PageRequest(collection, params, pageSize, k - 1))
      && (forall k :: 1 <= k < |r.requests| ==> r.requests[k].offset == Some((k - 1) * pageSize))
  {
    var probe := ProbeRequest(collection, params);
    var total := NumberMatched(server(probe));
    if total != 0 {
      var pages := PageCount(total, pageSize, maxPages);
      FetchPagesRequests(server, collection, params, pageSize, pages, 0);
      var r := Paginate(server, collection, params, pageSize, maxPages).value;
      var rest := FetchPages(server, collection, params, pageSize, pages, 0);
      assert r.requests == [probe] + rest.requests;
      forall k | 1 <= k < |r.requests|
        ensures r.requests[k] == PageRequest(collection, params, pageSize, k - 1)
      {
        assert r.requests[k] == rest.requests[k - 1];
      }
    }
  }

  /** Beyond the probe at most `PageCount` pages are requested, and at least
      one when `PageCount` is positive. */
  lemma PageRequestBound<P, F>(server: Request<P> -> Response<F>, collection: string, params: map<string, P>,
                               pageSize: int, maxPages: Option<int>)
    requires pageSize != 0
    ensures var total := NumberMatched(server(ProbeRequest(collection, params)));
      var r := Paginate(server, collection, params, pageSize, maxPages);
      && r.Ok?
      && (total != 0 ==> |r.value.requests| - 1 <= (if PageCount(total, pageSize, maxPages) <= 0 then 0 else PageCount(total, pageSize, maxPages)))
      && (total != 0 && PageCount(total, pageSize, maxPages) > 0 ==> |r.value.requests| >= 2)
  {
    var probe := ProbeRequest(collection, params);
    var total := NumberMatched(server(probe));
    if total != 0 {
      FetchPagesLength(server, collection, params, pageSize, PageCount(total, pageSize, maxPages), 0);
    }
  }

  /** The result is the features of the fetched pages, concatenated in request
      order; a page without `features` contributes nothing. */
  lemma ResultIsConcatenation<P, F>(server: Request<P> -> Response<F>, collection: string, params: map<string, P>,
                                    pageSize: int, maxPages: Option<int>)
    requires pageSize != 0
    ensures Paginate(server, collection, params, pageSize, maxPages).Ok?
    ensures var r := Paginate(server, collection, params, pageSize, maxPages).value;
      |r.requests| >= 1 && r.features == ConcatPages(server, r.requests[1..])
  {
    var probe := ProbeRequest(collection, params);
    var total := NumberMatched(server(probe));
    var r := Paginate(server, collection, params, pageSize, maxPages).value;
    if total != 0 {
      var pages := PageCount(total, pageSize, maxPages);
      FetchPagesFeatures(server, collection, params, pageSize, pages, 0);
      assert r.requests[1..] == FetchPages(server, collection, params, pageSize, pages, 0).requests;
    } else {
      assert r.requests[1..] == [];
    }
  }

  /** No page is requested after a short one: every page but the last was
      full, and when fewer pages than `PageCount` were fetched, the last one
      was short. */
  lemma ShortPageEndsLoop<P, F>(server: Request<P> -> Response<F>, collection: string, params: map<string, P>,
                                pageSize: int, maxPages: Option<int>)
    requires pageSize != 0
    ensures Paginate(server, collection, params, pageSize, maxPages).Ok?
    ensures var total := NumberMatched(server(ProbeRequest(collection, params)));
      var r := Paginate(server, collection, params, pageSize, maxPages).value;
      && (forall k :: 1 <= k < |r.requests| - 1 ==> |FeaturesOf(server(r.requests[k]))| >= pageSize)
      && (total != 0 && |r.requests| - 1 < PageCount(total, pageSize, maxPages) ==>
            |r.requests| >= 2 && |FeaturesOf(server(r.requests[|r.requests| - 1]))| < pageSize)
  {
    var probe := ProbeRequest(collection, params);
    var total := NumberMatched(server(probe));
    var r := Paginate(server, collection, params, pageSize, maxPages).value;
    if total != 0 {
      var pages := PageCount(total, pageSize, maxPages);
      var rest := FetchPages(server, collection, params, pageSize, pages, 0);
      FetchPagesLength(server, collection, params, pageSize, pages, 0);
      FetchPagesFull(server, collection, params, pageSize, pages, 0);
      assert r.requests == [probe] + rest.requests;
      forall k | 1 <= k < |r.requests| - 1
        ensures |FeaturesOf(server(r.requests[k]))| >= pageSize
      {
        assert r.requests[k] == rest.requests[k - 1];
      }
    }
  }

  // ----- Completeness against a server that serves slices of a fixed list -----

  function Min(a: int, b: int): int
  {
    if a <= b then a else b
  }

  /** `items[offset : offset + limit]` for a non-negative offset and limit. */
  function Window<F>(items: seq<F>, offset: nat, limit: nat): (w: seq<F>)
    ensures |w| <= limit
    ensures offset + limit <= |items| ==> w == items[offset..offset + limit]
    ensures offset <= |items| < offset + limit ==> w == items[offset..]
  {
    if |items| <= offset then [] else items[offset..Min(offset + limit, |items|)]
  }

  /** The server holds `items`, reports their number as `numberMatched` on the
      probe, and answers page `i` with the slice at offset `i * pageSize`. */
  ghost predicate ServesSlices<P, F>(server: Request<P> -> Response<F>, collection: string, params: map<string, P>,
                                     pageSize: nat, items: seq<F>)
  {
    && NumberMatched(server(ProbeRequest(collection, params))) == |items|
    && forall i: nat :: FeaturesOf(server(PageRequest(collection, params, pageSize, i))) == Window(items, i * pageSize, pageSize)
  }

  lemma MulMonotone(i: int, j: int, pageSize: int)
    requires pageSize > 0 && i <= j
    ensures i * pageSize <= j * pageSize
  {
    assert (j - i) * pageSize >= 0;
  }

  lemma MulNext(i: int, pageSize: int)
    ensures (i + 1) * pageSize == i * pageSize + pageSize
  {
  }

  /** Page `i` of a slice server, below the end of the items. */
  lemma ServedPage<P, F>(server: Request<P> -> Response<F>, collection: string, params: map<string, P>,
                         pageSize: nat, items: seq<F>, i: nat)
    requires pageSize > 0
    requires ServesSlices(server, collection, params, pageSize, items)
    requires i * pageSize < |items|
    ensures FeaturesOf(server(PageRequest(collection, params, pageSize, i)))
         == items[i * pageSize..Min(i * pageSize + pageSize, |items|)]
  {
  }

  lemma SliceConcat<F>(items: seq<F>, a: nat, b: nat, c: nat)
    requires a <= b <= c <= |items|
    ensures items[a..b] + items[b..c] == items[a..c]
  {
  }

  lemma {:induction false} FetchSlices<P, F>(server: Request<P> -> Response<F>, collection: string, params: map<string, P>,
                                             pageSize: nat, items: seq<F>, pages: int, i: nat)
    requires pageSize > 0
    requires ServesSlices(server, collection, params, pageSize, items)
    requires i <= pages <= CeilDiv(|items|, pageSize)
    ensures i * pageSize <= pages * pageSize
    ensures FetchPages(server, collection, params, pageSize, pages, i).features
         == items[Min(i * pageSize, |items|)..Min(pages * pageSize, |items|)]
    ensures |FetchPages(server, collection, params, pageSize, pages, i).requests| == pages - i
    decreases pages - i
  {
    var n := |items|;
    var here := i * pageSize;
    var end := pages * pageSize;
    assert here <= end by { MulMonotone(i, pages, pageSize); }
    if i < pages {
      var next := (i + 1) * pageSize;
      assert next == here + pageSize by { MulNext(i, pageSize); }
      assert here < n by { BelowCeil(n, pageSize, i); }
      var features := FeaturesOf(server(PageRequest(collection, params, pageSize, i)));
      ServedPage(server, collection, params, pageSize, items, i);
      assert features == items[here..Min(next, n)];
      FetchPagesStep(server, collection, params, pageSize, pages, i);
      var r := FetchPages(server, collection, params, pageSize, pages, i);
      var rest := FetchPages(server, collection, params, pageSize, pages, i + 1);
      if i + 1 < pages {
        assert next < n by { BelowCeil(n, pageSize, i + 1); }
        FetchSlices(server, collection, params, pageSize, items, pages, i + 1);
        assert rest.features == items[next..Min(end, n)];
        assert r.features == features + rest.features;
        SliceConcat(items, here, next, Min(end, n));
      } else {
        assert end == next;
        if |features| >= pageSize {
          FetchPagesLength(server, collection, params, pageSize, pages, i + 1);
        }
        assert r.features == features;
      }
    }
  }

  /** Against a server holding N items, with no effective cap, the call
      returns all N items in server order after `ceil(N / pageSize)` page
      requests; with a cap `0 < k < ceil(N / pageSize)` it returns the first
      `k * pageSize` items after `k` page requests; a negative cap, which is
      truthy, leaves only the probe and returns nothing. */
  lemma Completeness<P, F>(server: Request<P> -> Response<F>, collection: string, params: map<string, P>,
                           pageSize: nat, maxPages: Option<int>, items: seq<F>)
    requires pageSize > 0
    requires ServesSlices(server, collection, params, pageSize, items)
    ensures Paginate(server, collection, params, pageSize, maxPages).Ok?
    ensures var r := Paginate(server, collection, params, pageSize, maxPages).value;
      var pages := CeilDiv(|items|, pageSize);
      && (!(Capped(maxPages) && maxPages.value < pages) ==> r.features == items && |r.requests| == 1 + pages)
      && (Capped(maxPages) && 0 < maxPages.value < pages ==>
            && maxPages.value * pageSize < |items|
            && r.features == items[..maxPages.value * pageSize]
            && |r.requests| == 1 + maxPages.value)
      && (maxPages.Some? && maxPages.value < 0 ==> r.features == [] && r.requests == [ProbeRequest(collection, params)])
  {
    var n := |items|;
    var pages := CeilDiv(n, pageSize);
    if n == 0 {
      BelowCeil(n, pageSize, 0);
      BelowCeil(n, pageSize, -1);
      assert pages == 0;
    } else {
      var count := PageCount(n, pageSize, maxPages);
      if count > 0 {
        FetchSlices(server, collection, params, pageSize, items, count, 0);
        if count == pages {
          BelowCeil(n, pageSize, pages - 1);
          assert n <= pages * pageSize;
        } else {
          BelowCeil(n, pageSize, count);
          assert count * pageSize < n;
        }
      } else {
        BelowCeil(n, pageSize, 0);
        assert FetchPages(server, collection, params, pageSize, count, 0) == Fetch([], []);
      }
    }
  }

  /** A server that serves `items` by reading `limit` and `offset` from the
      keyword dict (an absent offset counts as 0, an absent limit as
      "everything"). */
  function SliceServer<P, F>(items: seq<F>): Request<P> -> Response<F>
  {
    (request: Request<P>) =>
      var q := Query(request);
      var offset := if "offset" in q && q["offset"].Number? && q["offset"].n >= 0 then q["offset"].n else 0;
      var limit := if "limit" in q && q["limit"].Number? && q["limit"].n >= 0 then q["limit"].n else |items|;
      Response(Some(|items|), Some(Window(items, offset, limit)))
  }

  /** SliceServer is such a server, whatever filters the caller passes. */
  lemma SliceServerServesSlices<P, F>(collection: string, params: map<string, P>, pageSize: nat, items: seq<F>)
    requires pageSize > 0
    ensures ServesSlices(SliceServer(items), collection, params, pageSize, items)
  {
    forall i: nat
      ensures FeaturesOf(SliceServer(items)(PageRequest(collection, params, pageSize, i)))
           == Window(items, i * pageSize, pageSize)
    {
      var q := Query(PageRequest(collection, params, pageSize, i));
      assert q["offset"] == Number(i * pageSize) && q["limit"] == Number(pageSize);
    }
  }

  // ----- Output name of the perimeter file -----

  function Abs(x: real): real
  {
    if x < 0.0 then -x else x
  }

  /** Python's `round(x)`: the nearest integer, ties to the even one. */
  function RoundHalfEven(x: real): (r: int)
    ensures x - 0.5 <= r as real <= x + 0.5
    ensures (r as real - x == 0.5 || x - r as real == 0.5) ==> r % 2 == 0
    ensures x >= 0.0 ==> r >= 0
  {
    var f := x.Floor;
    var d := x - f as real;
    if d < 0.5 then f
    else if d > 0.5 then f + 1
    else if f % 2 == 0 then f else f + 1
  }

  /** A compass label: the letter comes from the sign of the unrounded value,
      the number is the rounded magnitude. */
  function Label(x: real, positive: char, negative: char): string
  {
    [if x >= 0.0 then positive else negative] + Text.DecimalString(RoundHalfEven(Abs(x)))
  }

  function LonLabel(lon: real): string
  {
    Label(lon, 'E', 'W')
  }

  function LatLabel(lat: real): string
  {
    Label(lat, 'N', 'S')
  }

  /** `get_name`: the extent is `[min_lon, min_lat, max_lon, max_lat]`; fewer
      than four values raise IndexError. */
  function GetName(extent: seq<real>, start: string, end: string): (r: Result<string>)
    ensures |extent| < 4 <==> r == Err(IndexError)
    ensures |extent| >= 4 ==> r == Ok("FIRE_PERIMETER_"
                                      + LonLabel(extent[0]) + "_" + LonLabel(extent[2]) + "_"
                                      + LatLabel(extent[1]) + "_" + LatLabel(extent[3]) + "_"
                                      + Text.StripDashes(start) + "_" + Text.StripDashes(end) + ".json")
  {
    if |extent| < 4 then Err(IndexError)
    else
      var name := "FIRE_PERIMETER";
      var lons := [LonLabel(extent[0]), LonLabel(extent[2])];
      var lats := [LatLabel(extent[1]), LatLabel(extent[3])];
      var strextent := Text.Join(lons + lats, "_");
      var nstart := Text.StripDashes(start);
      var nend := Text.StripDashes(end);
      var full := name + "_" + strextent + "_" + nstart + "_" + nend + ".json";
      assert lons + lats == [lons[0], lons[1], lats[0], lats[1]];
      assert name + "_" == "FIRE_PERIMETER_";
      NameLayout(name + "_", lons[0], lons[1], lats[0], lats[1], nstart, nend);
      Ok(full)
  }

  /** Flattening the joined extent into the surrounding name. */
  lemma NameLayout(prefix: string, a: string, b: string, c: string, d: string, s: string, e: string)
    ensures prefix + Text.Join([a, b, c, d], "_") + "_" + s + "_" + e + ".json"
         == prefix + a + "_" + b + "_" + c + "_" + d + "_" + s + "_" + e + ".json"
  {
    Text.JoinFour(a, b, c, d, "_");
    Text.AppendAssoc(prefix, a + "_" + b + "_" + c + "_", d);
    Text.AppendAssoc(prefix, a + "_" + b + "_" + c, "_");
    Text.AppendAssoc(prefix, a + "_" + b + "_", c);
    Text.AppendAssoc(prefix, a + "_" + b, "_");
    Text.AppendAssoc(prefix, a + "_", b);
    Text.AppendAssoc(prefix, a, "_");
  }

  /** A label reads back as its direction letter followed by the decimal
      digits of the rounded magnitude. */
  lemma LabelReadsBack(x: real, positive: char, negative: char)
    ensures var l := Label(x, positive, negative);
      && |l| >= 2
      && l[0] == (if x >= 0.0 then positive else negative)
      && (forall i :: 1 <= i < |l| ==> Text.IsDigit(l[i]))
      && Text.DecimalValue(l[1..]) == RoundHalfEven(Abs(x))
  {
    var l := Label(x, positive, negative);
    assert l[1..] == Text.DecimalString(RoundHalfEven(Abs(x)));
  }

  /** The direction comes from the unrounded value: a latitude in [-0.5, 0)
      rounds to 0 yet is labelled south. */
  lemma SmallNegativeIsSouth(lat: real)
    requires -0.5 <= lat < 0.0
    ensures LatLabel(lat) == "S0"
  {
    var m := RoundHalfEven(Abs(lat));
    assert m == 0;
  }

  /** The labels of the example extent below. */
  lemma ExampleLabels()
    ensures LonLabel(-1.2) == "W1" && LonLabel(4.7) == "E5"
    ensures LatLabel(-0.1) == "S0" && LatLabel(5.8) == "N6"
  {
    assert RoundHalfEven(Abs(-1.2)) == 1;
    assert RoundHalfEven(Abs(-0.1)) == 0;
    assert RoundHalfEven(Abs(4.7)) == 5;
    assert RoundHalfEven(Abs(5.8)) == 6;
  }

  /** The dates of the example below lose their dashes. */
  lemma ExampleDates(start: string, end: string)
    requires start == "0000-00-00" && end == "1111-11-11"
    ensures Text.StripDashes(start) == "00000000" && Text.StripDashes(end) == "11111111"
  {
    var zeros, ones := "00", "11";
    assert start == zeros + zeros + "-" + zeros + "-" + zeros;
    assert end == ones + ones + "-" + ones + "-" + ones;
    Text.StripDashesDate(start, zeros + zeros, zeros, zeros);
    Text.StripDashesDate(end, ones + ones, ones, ones);
    assert zeros + zeros + zeros + zeros == "00000000";
    assert ones + ones + ones + ones == "11111111";
  }

  lemma GetNameExample()
    ensures GetName([-1.2, -0.1, 4.7, 5.8], "0000-00-00", "1111-11-11")
         == Ok("FIRE_PERIMETER_" + "W1" + "_" + "E5" + "_" + "S0" + "_" + "N6" + "_"
               + "00000000" + "_" + "11111111" + ".json")
  {
    ExampleLabels();
    ExampleDates("0000-00-00", "1111-11-11");
  }
}
