/** `fetchInstitutions` of app.js: offset pagination over the sport-etudes
    dataset, then the drop of records without usable coordinates. The HTTP
    endpoint is a catalogue: a function from the requested offset to the
    parsed page, or NotOk when the response status is not ok. */
module Institutions {
  import opened Common

  /** The JSON values a coordinate can hold, enough for JavaScript truthiness. */
  datatype JsValue = Undefined | Null | Bool(b: bool) | Number(n: real) | NaN | Str(s: string)

  /** The falsy values of JavaScript, as far as JsValue reaches. */
  const Falsy: set<JsValue> := {Undefined, Null, NaN, Bool(false), Number(0.0), Str("")}

  /** JavaScript truthiness: a value is truthy exactly when it is not one of
      `undefined`, `null`, `NaN`, `false`, `0` and `""`. */
  predicate Truthy(v: JsValue)
    ensures Truthy(v) <==> v !in Falsy
  {
    match v
    case Undefined => false
    case Null => false
    case NaN => false
    case Bool(b) => b
    case Number(n) => n != 0.0
    case Str(s) => s != ""
  }

  datatype Position = Position(lat: JsValue, lon: JsValue)

  /** One dataset record. Only `position` is read by the logic modelled here;
      the remaining fields are carried along untouched. */
  datatype Institution = Institution(fields: map<string, JsValue>, position: Option<Position>)

  /** `item.position?.lat && item.position?.lon` */
  predicate HasCoordinates(x: Institution)
    ensures HasCoordinates(x) <==>
              x.position.Some? && x.position.value.lat !in Falsy && x.position.value.lon !in Falsy
  {
    x.position.Some? && Truthy(x.position.value.lat) && Truthy(x.position.value.lon)
  }

  /** DATASET_PAGE_SIZE */
  const PageSize: nat := 100

  /** One page answer: `total_count` is an integer or missing/null (None),
      `results` an array or missing/null (None). */
  datatype PageResponse = NotOk | Page(totalCount: Option<int>, results: Option<seq<Institution>>)

  type Catalogue = nat -> PageResponse

  /** `data.total_count || 0` */
  function ReportedTotal(p: PageResponse): (total: int)
    ensures p.Page? && p.totalCount.Some? ==> total == p.totalCount.value
    ensures total != 0 ==> p.Page? && p.totalCount == Some(total)
  {
    if p.Page? && p.totalCount.Some? then p.totalCount.value else 0
  }

  /** `data.results || []` */
  function PageItems(p: PageResponse): (items: seq<Institution>)
    ensures p.Page? && p.results.Some? ==> items == p.results.value
    ensures items != [] ==> p.Page? && p.results == Some(items)
  {
    if p.Page? && p.results.Some? then p.results.value else []
  }

  /** Every total the catalogue reports stays below `bound`; without such a
      bound the loop of `fetchInstitutions` need not terminate. */
  ghost predicate TotalsBounded(source: Catalogue, bound: int) {
    forall offset: nat :: ReportedTotal(source(offset)) <= bound
  }

  /** The requests made by the loop, in order, and what it produced. */
  datatype Run = Run(offsets: seq<nat>, records: Result<seq<Institution>>)

  /** The loop of `fetchInstitutions` from the moment it requests `offset`:
      one request, then the next page only while the page was non-empty and
      `offset + PageSize` is still below the total that page reported. */
  function PagesFrom(source: Catalogue, offset: nat, ghost bound: int): (run: Run)
    requires TotalsBounded(source, bound)
    ensures |run.offsets| >= 1 && run.offsets[0] == offset
    decreases bound - offset
  {
    var page := source(offset);
    if page.NotOk? then Run([offset], Err(InstitutionsLoadFailed))
    else
      var items := PageItems(page);
      var next := offset + PageSize;
      if items != [] && next < ReportedTotal(page) then
        var rest := PagesFrom(source, next, bound);
        Run([offset] + rest.offsets,
            if rest.records.Ok? then Ok(items + rest.records.value) else rest.records)
      else
        Run([offset], Ok(items))
  }

  /** The shape of a run: requests at `offset`, `offset + PageSize`, ...;
      a single request exactly when the first page fails, is empty or
      reports a total within reach; an error exactly when the last request
      failed, every earlier one having answered with a page. */
  lemma {:induction false} PagesFromShape(source: Catalogue, offset: nat, bound: int)
    requires TotalsBounded(source, bound)
    ensures var run := PagesFrom(source, offset, bound);
      && (forall i :: 0 <= i < |run.offsets| ==> run.offsets[i] == offset + PageSize * i)
      && (|run.offsets| == 1 <==>
            (source(offset).NotOk? || PageItems(source(offset)) == []
             || ReportedTotal(source(offset)) <= offset + PageSize))
      && (run.records.Err? <==> source(run.offsets[|run.offsets| - 1]).NotOk?)
      && (forall i :: 0 <= i < |run.offsets| - 1 ==> source(run.offsets[i]).Page?)
      && (run.records.Err? ==> run.records.error == InstitutionsLoadFailed)
    decreases bound - offset
  {
    var page := source(offset);
    var next := offset + PageSize;
    if page.Page? && PageItems(page) != [] && next < ReportedTotal(page) {
      PagesFromShape(source, next, bound);
      var rest := PagesFrom(source, next, bound);
      var run := PagesFrom(source, offset, bound);
      assert run.offsets == [offset] + rest.offsets;
      assert forall i :: 1 <= i < |run.offsets| ==> run.offsets[i] == rest.offsets[i - 1];
    }
  }

  /** `allResults.filter((item) => item.position?.lat && item.position?.lon)`:
      each record with coordinates keeps its multiplicity, every other record is gone. */
  function KeepPositioned(s: seq<Institution>): (r: seq<Institution>)
    ensures |r| <= |s|
    ensures forall x :: multiset(r)[x] == if HasCoordinates(x) then multiset(s)[x] else 0
  {
    if s == [] then []
    else
      var rest := KeepPositioned(s[1..]);
      assert s == [s[0]] + s[1..];
      if HasCoordinates(s[0]) then [s[0]] + rest else rest
  }

  /** The filter keeps the original order: it distributes over concatenation. */
  lemma {:induction false} KeepPositionedAppend(a: seq<Institution>, b: seq<Institution>)
    ensures KeepPositioned(a + b) == KeepPositioned(a) + KeepPositioned(b)
    decreases |a|
  {
    if a == [] {
      assert a + b == b;
    } else {
      assert (a + b)[1..] == a[1..] + b;
      KeepPositionedAppend(a[1..], b);
    }
  }

  /** A latitude of exactly 0 is falsy, so the record is dropped. */
  lemma ZeroLatitudeDropped(s: seq<Institution>, x: Institution)
    requires x.position.Some? && x.position.value.lat == Number(0.0)
    ensures x !in KeepPositioned(s)
  {
    assert multiset(KeepPositioned(s))[x] == 0;
  }

  /** What `fetchInstitutions` resolves to, or the error it throws. */
  function FetchedInstitutions(source: Catalogue, ghost bound: int): (r: Result<seq<Institution>>)
    requires TotalsBounded(source, bound)
    ensures r.Err? <==> PagesFrom(source, 0, bound).records.Err?
    ensures r.Ok? ==> forall i :: 0 <= i < |r.value| ==> HasCoordinates(r.value[i])
    ensures r.Ok? ==> r.value == KeepPositioned(PagesConcat(source, PagesFrom(source, 0, bound).offsets))
  {
    var run := PagesFrom(source, 0, bound);
    if run.records.Err? then Err(run.records.error)
    else
      RecordsArePagesInRequestOrder(source, 0, bound);
      var kept := KeepPositioned(run.records.value);
      assert forall i :: 0 <= i < |kept| ==> multiset(kept)[kept[i]] > 0;
      Ok(kept)
  }

  /** The concatenation of the pages at `offsets`, in that order. */
  function PagesConcat(source: Catalogue, offsets: seq<nat>): seq<Institution> {
    if offsets == [] then [] else PageItems(source(offsets[0])) + PagesConcat(source, offsets[1..])
  }

  /** Pages are accumulated in request order, nothing added and nothing lost. */
  lemma {:induction false} RecordsArePagesInRequestOrder(source: Catalogue, offset: nat, bound: int)
    requires TotalsBounded(source, bound)
    ensures var run := PagesFrom(source, offset, bound);
              run.records.Ok? ==> run.records.value == PagesConcat(source, run.offsets)
    decreases bound - offset
  {
    var page := source(offset);
    var next := offset + PageSize;
    if page.Page? && PageItems(page) != [] && next < ReportedTotal(page) {
      RecordsArePagesInRequestOrder(source, next, bound);
      var rest := PagesFrom(source, next, bound);
      assert ([offset] + rest.offsets)[1..] == rest.offsets;
    }
  }

  /** A catalogue that always reports `total` and never serves an empty page. */
  ghost predicate SteadyCatalogue(source: Catalogue, total: int) {
    forall offset: nat :: source(offset).Page? && source(offset).totalCount == Some(total)
                          && PageItems(source(offset)) != []
  }

  /** From any offset below the total, a steady catalogue is read to its end
      in ceil((total - offset) / PageSize) requests, without error. */
  lemma {:induction false} SteadyCatalogueRequestCount(source: Catalogue, total: int, offset: nat)
    requires SteadyCatalogue(source, total) && offset < total
    ensures TotalsBounded(source, total)
    ensures var run := PagesFrom(source, offset, total);
              |run.offsets| == (total - offset + PageSize - 1) / PageSize && run.records.Ok?
    decreases total - offset
  {
    assert TotalsBounded(source, total);
    var next := offset + PageSize;
    if next < total {
      SteadyCatalogueRequestCount(source, total, next);
    }
  }

  /** With a steady total T > 0, `fetchInstitutions` issues exactly ceil(T / 100)
      requests, at offsets 0, 100, 200, ... */
  lemma FetchRequestCount(source: Catalogue, total: int)
    requires SteadyCatalogue(source, total) && total > 0
    ensures TotalsBounded(source, total)
    ensures var run := PagesFrom(source, 0, total);
              |run.offsets| == (total + PageSize - 1) / PageSize
              && (forall i :: 0 <= i < |run.offsets| ==> run.offsets[i] == PageSize * i)
  {
    SteadyCatalogueRequestCount(source, total, 0);
    PagesFromShape(source, 0, total);
  }

  /** A reported total of 120 means two requests, at offsets 0 and 100. */
  lemma TotalOf120TakesTwoRequests(source: Catalogue)
    requires SteadyCatalogue(source, 120)
    ensures TotalsBounded(source, 120)
    ensures PagesFrom(source, 0, 120).offsets == [0, 100]
  {
    FetchRequestCount(source, 120);
  }

  /** `totalCount` of the loop: `Infinity` before the first page, then the
      last reported total. */
  datatype Limit = Unbounded | AtMost(n: int)

  predicate Below(offset: nat, limit: Limit) {
    limit.Unbounded? || offset < limit.n
  }

  /** `requested` and `acc` prefixed to a run that continues them. */
  function Extend(requested: seq<nat>, acc: seq<Institution>, run: Run): Run {
    Run(requested + run.offsets,
        if run.records.Ok? then Ok(acc + run.records.value) else run.records)
  }

  /** One turn of the loop that goes on to the next page. */
  lemma ExtendContinues(source: Catalogue, bound: int, offset: nat, requested: seq<nat>, acc: seq<Institution>)
    requires TotalsBounded(source, bound)
    requires source(offset).Page? && PageItems(source(offset)) != []
    requires offset + PageSize < ReportedTotal(source(offset))
    ensures Extend(requested, acc, PagesFrom(source, offset, bound))
            == Extend(requested + [offset], acc + PageItems(source(offset)), PagesFrom(source, offset + PageSize, bound))
  {
    var rest := PagesFrom(source, offset + PageSize, bound);
    assert requested + ([offset] + rest.offsets) == requested + [offset] + rest.offsets;
    if rest.records.Ok? {
      var items := PageItems(source(offset));
      assert acc + (items + rest.records.value) == acc + items + rest.records.value;
    }
  }

  /** One turn of the loop after which it ends, normally or by `break`. */
  lemma ExtendEnds(source: Catalogue, bound: int, offset: nat, requested: seq<nat>, acc: seq<Institution>)
    requires TotalsBounded(source, bound)
    requires source(offset).Page?
    requires PageItems(source(offset)) == [] || ReportedTotal(source(offset)) <= offset + PageSize
    ensures Extend(requested, acc, PagesFrom(source, offset, bound))
            == Run(requested + [offset], Ok(acc + PageItems(source(offset))))
  {
  }

  /** `fetchInstitutions()`: `requested` lists the offsets of the page
      requests in the order they were made. */
  method FetchInstitutions(source: Catalogue, ghost bound: int)
    returns (requested: seq<nat>, result: Result<seq<Institution>>)
    requires TotalsBounded(source, bound)
    ensures requested == PagesFrom(source, 0, bound).offsets
    ensures result == FetchedInstitutions(source, bound)
  {
    var offset: nat := 0;
    var totalCount := Unbounded;
    var allResults: seq<Institution> := [];
    requested := [];
    ghost var whole := PagesFrom(source, 0, bound);
    assert [] + whole.offsets == whole.offsets;
    assert whole.records.Ok? ==> [] + whole.records.value == whole.records.value;
    while Below(offset, totalCount)
      invariant offset == PageSize * |requested|
      invariant totalCount.AtMost? ==> totalCount.n <= bound
      invariant Below(offset, totalCount) ==>
                  whole == Extend(requested, allResults, PagesFrom(source, offset, bound))
      invariant !Below(offset, totalCount) ==> whole == Run(requested, Ok(allResults))
      decreases totalCount.Unbounded?, bound + PageSize - offset
    {
      var response := source(offset);
      if response.NotOk? {
        requested := requested + [offset];
        result := Err(InstitutionsLoadFailed);
        return;
      }
      var pageResults := PageItems(response);
      if pageResults != [] && offset + PageSize < ReportedTotal(response) {
        ExtendContinues(source, bound, offset, requested, allResults);
      } else {
        ExtendEnds(source, bound, offset, requested, allResults);
      }
      requested := requested + [offset];
      totalCount := AtMost(ReportedTotal(response));
      allResults := allResults + pageResults;
      offset := offset + PageSize;
      if pageResults == [] {
        break;
      }
    }
    result := Ok(KeepPositioned(allResults));
  }
}
