/** Values for the places where the script raises, exits, or finds nothing. */
module Outcomes {

  datatype Option<T> = None | Some(value: T)

  /** Why a step of the script stops instead of producing a value. */
  datatype Error =
    | UnknownCurrency          // get_results exits with status 1 for anything but USD or EUR
    | MissingTable(year: int)  // CSV.read of a year file that was never written raises
    | MissingCell              // row[column] is nil, so calling split on it raises
    | MalformedCell            // no fractional field after the comma, so rest.size raises on nil
    | EmptyWindow              // the average divides by a zero count
    | FetchFailed(year: int)   // downloading that year's archive raised
    | ZeroRate                 // the salary is divided by an average of zero

  datatype Outcome<T> = Ok(value: T) | Fail(error: Error)
}
