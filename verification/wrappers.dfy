/** The optional value used for a nullable identifier (`editMessageId`) and for
    the request a client transition may or may not send. */
module Wrappers {

  datatype Option<+T> = None | Some(value: T)
}
