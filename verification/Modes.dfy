/** Modes of operation, shared by server and client. */
module Modes {
  datatype Mode = Idle | Movie
}
