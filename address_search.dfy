/** The geocoding side of app.js: `searchNominatim` and `geocodeAddress`.
    The HTTP exchange with the provider is a parameter: a function from the
    query and the requested limit to the parsed answer, None when the
    response is not ok. */
module AddressSearch {
  import opened Common

  /** `{ lat, lon, label }` (`label` is a Dafny keyword, hence `labelText`) as `searchNominatim` builds it from one provider entry. */
  datatype Place = Place(lat: real, lon: real, labelText: string)

  /** The provider's answer to `(query, limit)`: None for a non-ok status,
      otherwise the entries in the provider's order. */
  type SearchProvider = (string, nat) -> Option<seq<Place>>

  /** Number of suggestions requested per autocomplete lookup. */
  const AutocompleteLimit: nat := 5

  /** `searchNominatim(query, limit)`: a non-ok response is an error, any
      other answer is passed on unchanged. */
  function SearchNominatim(search: SearchProvider, query: string, limit: nat): (r: Result<seq<Place>>)
    ensures r.Err? <==> search(query, limit).None?
    ensures r.Err? ==> r.error == AddressSearchFailed
    ensures r.Ok? ==> r.value == search(query, limit).value
  {
    match search(query, limit)
    case None => Err(AddressSearchFailed)
    case Some(places) => Ok(places)
  }

  /** `geocodeAddress(address)`: the first place of a one-result search. */
  function GeocodeAddress(search: SearchProvider, address: string): (r: Result<Place>)
    ensures r == Err(AddressNotFound) <==> search(address, 1) == Some([])
    ensures r == Err(AddressSearchFailed) <==> search(address, 1).None?
    ensures r.Ok? <==> (search(address, 1).Some? && search(address, 1).value != [])
    ensures r.Ok? ==> r.value == search(address, 1).value[0]
  {
    match SearchNominatim(search, address, 1)
    case Err(e) => Err(e)
    case Ok(places) => if places == [] then Err(AddressNotFound) else Ok(places[0])
  }
}
