/** Types shared by the Haram view models: optional values, results of
    repository calls and the app's error type. */
module HaramTypes {

  datatype Option<+T> = None | Some(value: T)

  datatype Result<+R, +E> = Success(value: R) | Failure(error: E)

  /** The app-wide error type. Only the cases the modelled view models name
      are spelled out; every other case the server side can report is
      `Service`, carrying the case's name. */
  datatype HaramError =
    | MaxReservationCount
    | NonConsecutiveReservations
    | NoUserID
    | NoPWD
    | Service(name: string)

  /** What a failing repository call delivers to a subscriber: a `HaramError`,
      or some other error, which the view models drop after the failed
      `as? HaramError` cast. */
  datatype RepoFailure = Haram(error: HaramError) | Foreign

  /** An ASCII decimal digit, as the phone pattern's `\d` and the decimal
      text of an integer use it. */
  predicate IsDigit(c: char)
  {
    '0' <= c <= '9'
  }

  predicate Digits(s: string)
  {
    forall k :: 0 <= k < |s| ==> IsDigit(s[k])
  }
}
