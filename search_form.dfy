/** The search form of app.js: the module-level state `selectedPlace`,
    `latestSuggestionRequest` and `inputDebounceTimer`, the `input`,
    `change` and `submit` listeners, `fetchAddressSuggestions` and
    `getUserPosition`. Timers and network answers arrive as events: a
    debounce timer that fires, a lookup that settles. */
module SearchForm {
  import opened Common
  import opened JsString
  import opened AddressSearch
  import opened Institutions
  import opened Ranking
  import opened Escaping

  /** AUTOCOMPLETE_MIN_CHARS */
  const AutocompleteMinChars: nat := 3

  /** A suggestion request issued by `fetchAddressSuggestions`. */
  datatype Lookup = Lookup(requestId: nat, query: string)

  /** How a submit ends, one case per status message. */
  datatype SubmitOutcome =
    | AddressMissing
    | Failed(error: AppError)
    | NoInstitutions
    | Shown(nearest: seq<Ranked>, positionLabel: string)

  /** The first place labelled `text`: the option `querySelector` finds. */
  function FirstWithLabel(places: seq<Place>, text: string): (r: Option<Place>)
    ensures r.None? <==> forall i :: 0 <= i < |places| ==> places[i].labelText != text
    ensures r.Some? ==> exists i :: 0 <= i < |places| && places[i] == r.value
                                    && r.value.labelText == text
                                    && forall j :: 0 <= j < i ==> places[j].labelText != text
  {
    if places == [] then None
    else if places[0].labelText == text then Some(places[0])
    else
      var r := FirstWithLabel(places[1..], text);
      if r.Some? then
        ghost var i :| 0 <= i < |places[1..]| && places[1..][i] == r.value && r.value.labelText == text
                       && forall j :: 0 <= j < i ==> places[1..][j].labelText != text;
        assert places[i + 1] == r.value;
        r
      else r
  }

  class AddressController {
    var selectedPlace: Option<Place>
    var latestSuggestionRequest: nat
    /** The query of the debounce timer that is scheduled and not cleared. */
    var pendingQuery: Option<string>
    /** The options of the suggestion list, in order. */
    var suggestions: seq<Place>
    /** The highest request number whose answer has been rendered. */
    ghost var renderedRequest: nat

    ghost predicate Valid()
      reads this
    {
      renderedRequest <= latestSuggestionRequest
    }

    constructor ()
      ensures Valid()
      ensures selectedPlace == None && latestSuggestionRequest == 0
      ensures pendingQuery == None && suggestions == []
    {
      selectedPlace := None;
      latestSuggestionRequest := 0;
      pendingQuery := None;
      suggestions := [];
      renderedRequest := 0;
    }

    /** The `input` listener: forget the selection, clear the pending timer,
        then either clear the list (short query) or schedule a lookup. */
    method OnInput(value: string)
      requires Valid()
      modifies this
      ensures Valid()
      ensures selectedPlace == None
      ensures latestSuggestionRequest == old(latestSuggestionRequest)
      ensures renderedRequest == old(renderedRequest)
      ensures |Trim(value)| < AutocompleteMinChars ==> pendingQuery == None && suggestions == []
      ensures |Trim(value)| >= AutocompleteMinChars ==>
                pendingQuery == Some(Trim(value)) && suggestions == old(suggestions)
    {
      selectedPlace := None;
      var query := Trim(value);
      pendingQuery := None;
      if |query| < AutocompleteMinChars {
        suggestions := [];
        return;
      }
      pendingQuery := Some(query);
    }

    /** The debounce timer fires: `fetchAddressSuggestions(query)` takes the
        next request number and sends its search. */
    method OnTimerFired() returns (lookup: Lookup)
      requires Valid() && pendingQuery.Some?
      modifies this
      ensures Valid()
      ensures latestSuggestionRequest == old(latestSuggestionRequest) + 1
      ensures lookup == Lookup(latestSuggestionRequest, old(pendingQuery).value)
      ensures pendingQuery == None
      ensures selectedPlace == old(selectedPlace) && suggestions == old(suggestions)
      ensures renderedRequest == old(renderedRequest)
    {
      latestSuggestionRequest := latestSuggestionRequest + 1;
      lookup := Lookup(latestSuggestionRequest, pendingQuery.value);
      pendingQuery := None;
    }

    /** The search of an issued lookup settles. An answer is rendered only
        when its request is still the latest; a failure clears the list
        (the `.catch` of the timer callback), whichever request it was. */
    method OnLookupSettled(lookup: Lookup, search: SearchProvider)
      requires Valid() && lookup.requestId <= latestSuggestionRequest
      modifies this
      ensures Valid()
      ensures var answer := SearchNominatim(search, lookup.query, AutocompleteLimit);
                suggestions == if answer.Err? then []
                               else if lookup.requestId == latestSuggestionRequest then answer.value
                               else old(suggestions)
      ensures var answer := SearchNominatim(search, lookup.query, AutocompleteLimit);
                renderedRequest == if answer.Ok? && lookup.requestId == latestSuggestionRequest
                                   then lookup.requestId else old(renderedRequest)
      ensures renderedRequest >= old(renderedRequest)
      ensures selectedPlace == old(selectedPlace) && pendingQuery == old(pendingQuery)
      ensures latestSuggestionRequest == old(latestSuggestionRequest)
    {
      var answer := SearchNominatim(search, lookup.query, AutocompleteLimit);
      if answer.Err? {
        suggestions := [];
      } else if lookup.requestId == latestSuggestionRequest {
        suggestions := answer.value;
        renderedRequest := lookup.requestId;
      }
    }

    /** The `change` listener: the suggestion matched by the selector
        `option[value="…"]` built from the escaped, trimmed input becomes
        the selected place; with no match there is none. */
    method OnChange(value: string)
      modifies this`selectedPlace
      ensures Trim(value) == [] ==> selectedPlace == None
      ensures Trim(value) != [] && NoCssNewline(Trim(value)) ==>
                selectedPlace == FirstWithLabel(suggestions, Trim(value))
      ensures selectedPlace.Some? ==> selectedPlace.value in suggestions
    {
      var selectedLabel := Trim(value);
      if selectedLabel == [] {
        selectedPlace := None;
        return;
      }
      var selector := SelectedValue(CssEscapeString(selectedLabel));
      if NoCssNewline(selectedLabel) {
        EscapedStringSelectsLabel(selectedLabel);
      }
      if selector.None? {
        selectedPlace := None;
        return;
      }
      selectedPlace := FirstWithLabel(suggestions, selector.value);
    }

    /** `getUserPosition(address)`: the selected place if there is one,
        otherwise the first result of a one-place search. */
    method GetUserPosition(address: string, search: SearchProvider) returns (r: Result<Place>)
      ensures selectedPlace.Some? ==> r == Ok(selectedPlace.value)
      ensures selectedPlace.None? ==> r == GeocodeAddress(search, address)
    {
      if selectedPlace.Some? {
        return Ok(selectedPlace.value);
      }
      r := GeocodeAddress(search, address);
    }

    /** The `submit` listener: resolve the position, load the institutions,
        rank them. */
    method OnSubmit(value: string, search: SearchProvider, catalogue: Catalogue, ghost bound: int,
                    distanceKm: DistanceKm)
      returns (outcome: SubmitOutcome)
      requires TotalsBounded(catalogue, bound)
      ensures Trim(value) == "" ==> outcome == AddressMissing
      ensures Trim(value) != "" ==>
                var position := if selectedPlace.Some? then Ok(selectedPlace.value)
                                else GeocodeAddress(search, Trim(value));
                var loaded := FetchedInstitutions(catalogue, bound);
                outcome == if position.Err? then Failed(position.error)
                           else if loaded.Err? then Failed(loaded.error)
                           else if loaded.value == [] then NoInstitutions
                           else Shown(Nearest(loaded.value, position.value, distanceKm),
                                      position.value.labelText)
    {
      var address := Trim(value);
      if address == "" {
        return AddressMissing;
      }
      var userPosition := GetUserPosition(address, search);
      if userPosition.Err? {
        return Failed(userPosition.error);
      }
      var requested, institutions := FetchInstitutions(catalogue, bound);
      if institutions.Err? {
        return Failed(institutions.error);
      }
      if institutions.value == [] {
        return NoInstitutions;
      }
      var nearest := Nearest(institutions.value, userPosition.value, distanceKm);
      outcome := Shown(nearest, userPosition.value.labelText);
    }
  }

  const Pari: string := "Pari"
  const Paris: string := "Paris"
  const Pa: string := "Pa"

  /** "Pari" then "Paris" are looked up and the answer for "Pari" arrives
      last: the list still shows the answer for "Paris". */
  method LaterLookupWins(early: seq<Place>, late: seq<Place>) returns (shown: seq<Place>)
    ensures shown == late
  {
    TrimOfTrimmed(Pari);
    TrimOfTrimmed(Paris);
    var form := new AddressController();
    form.OnInput(Pari);
    var first := form.OnTimerFired();
    form.OnInput(Paris);
    var second := form.OnTimerFired();
    assert first.query == Pari && second.query == Paris && Pari != Paris;
    var search: SearchProvider := (q, n) => if q == Pari then Some(early) else Some(late);
    form.OnLookupSettled(second, search);
    form.OnLookupSettled(first, search);
    shown := form.suggestions;
  }

  /** A lookup already sent is not withdrawn when the input becomes too
      short: its answer, if still the latest, fills the list cleared meanwhile. */
  method ShortInputKeepsSentLookup(places: seq<Place>) returns (shown: seq<Place>)
    ensures shown == places
  {
    TrimOfTrimmed(Paris);
    TrimOfTrimmed(Pa);
    var form := new AddressController();
    form.OnInput(Paris);
    var sent := form.OnTimerFired();
    form.OnInput(Pa);
    assert form.suggestions == [];
    var search: SearchProvider := (q, n) => Some(places);
    form.OnLookupSettled(sent, search);
    shown := form.suggestions;
  }

  /** A stale lookup that fails still empties the list rendered by the latest one. */
  method StaleFailureClearsList(late: seq<Place>) returns (shown: seq<Place>)
    ensures shown == []
  {
    TrimOfTrimmed(Pari);
    TrimOfTrimmed(Paris);
    var form := new AddressController();
    form.OnInput(Pari);
    var first := form.OnTimerFired();
    form.OnInput(Paris);
    var second := form.OnTimerFired();
    assert first.query == Pari && second.query == Paris && Pari != Paris;
    var search: SearchProvider := (q, n) => if q == Pari then None else Some(late);
    form.OnLookupSettled(second, search);
    assert form.suggestions == late;
    form.OnLookupSettled(first, search);
    shown := form.suggestions;
  }
}
