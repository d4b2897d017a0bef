/** Value types shared by the services: an optional value, and what an outbound
    call came back with, seen only through the fields the services read. */
module Outcomes {

  datatype Option<+T> = None | Some(value: T)

  /** The result of an HTTP call as a service sees it: the call threw, or it
      returned a status that is successful or not, and a JSON body in which the
      path the service reads is either present (`Some`) or missing or null. */
  datatype CallOutcome<+T> =
    | Threw
    | Responded(successful: bool, payload: Option<T>)
  {
    /** The call succeeded and the body held the value the service looks for. */
    predicate Delivered() {
      Responded? && successful && payload.Some?
    }
  }
}
