/** The event record the pages read from and send to the store. */
module EventModel {

  /** A JSON value that may be `null`. */
  datatype Option<T> = None | Some(value: T)

  /** An instant. Only the order of two instants is ever used, so it is kept abstract. */
  type Time = int

  /** An event as stored. `otherFields` holds whatever further properties the store
      returned; the edit form copies them through unchanged. */
  datatype Event = Event(
    id: string,
    title: string,
    description: string,
    image: Option<string>,
    startTime: Time,
    endTime: Time,
    location: string,
    categories: seq<string>,
    organizer: string,
    organizerImage: Option<string>,
    otherFields: map<string, string>)
}
