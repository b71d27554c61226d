/** The datastore client as the commands see it. Its calls are not modelled
    beyond their outcome: each either answers or fails with an error, and a
    command gives up at the first failure. */
module Client {

  /** The client call, counted from 0 within one command, that fails, and
      its error text. */
  datatype Failure = Failure(at: nat, error: string)
}
