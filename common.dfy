/** Small shared vocabulary: optional values, results and the errors the
    client script reports to the user. */
module Common {

  datatype Option<+T> = None | Some(value: T)

  datatype Result<+T> = Ok(value: T) | Err(error: AppError)

  /** The failures app.js turns into a status message. */
  datatype AppError =
    | AddressSearchFailed     // the geocoding provider answered with a non-ok status
    | AddressNotFound         // the geocoding search returned no place
    | InstitutionsLoadFailed  // a dataset page answered with a non-ok status
}
