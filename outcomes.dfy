/** The exceptions the client can throw, and a result type that carries them
    so that `:-` propagates a failure the way an exception unwinds. */
module Outcomes {

  datatype Error =
    | UnsupportedCharacter(c: char)   // TypeText: no key mapping for `c`
    | ImageLengthInvalid              // SetImage: buffer is not 40960 bytes
    | NotIPv4                         // SetConfig: address is not IPv4
    | NotInKmBoxSubnet                // SetConfig: address outside 192.168.2.*
    | ListenerAlreadyRunning          // ReportListener.Start: already started
    | ListenerNotStopped              // CreateReportListener: last one still running
    | MacCharacterOverflow            // MacToUInt: a character above 255
    | MacIndexOutOfRange              // MacToUInt: more than 16 hex pairs

  datatype Result<T> = Success(value: T) | Failure(error: Error)
  {
    predicate IsFailure() {
      Failure?
    }

    function PropagateFailure<U>(): Result<U>
      requires Failure?
    {
      Failure(error)
    }

    function Extract(): T
      requires Success?
    {
      value
    }
  }

  datatype Option<T> = None | Some(value: T)
}
