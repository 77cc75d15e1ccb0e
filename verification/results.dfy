/** Failure-carrying values shared by the model of the ACTS Android device
    controller: an Option for Python's `None`, and a Result whose failure side
    is one of the exceptions the controller raises or lets through. */
module Results {

  datatype Option<+T> = None | Some(value: T)

  /** What a missing-object error refers to. */
  datatype Missing = SessionId(uid: int) | DeviceSerial(serial: string)

  /** Why a `ControllerError` was raised. */
  datatype ControllerCause =
    | MissingSerial
    | AttributeExists(name: string, serial: string)
    | Sl4aStartFailed(serial: string)

  /** Why an `AndroidDeviceError` (other than `DoesNotExistError`) was raised. */
  datatype DeviceCause =
    | EmptyDispatcherKey
    | NoMatch
    | SeveralMatched(serials: seq<string>)

  /** The exceptions of the controller, one constructor per exception class. */
  datatype Error =
    | ControllerError(cause: ControllerCause)   // acts.signals.ControllerError
    | DoesNotExist(what: Missing)               // DoesNotExistError
    | DeviceError(reason: DeviceCause)          // AndroidDeviceError
    | DuplicateSession(uid: int)                // android.SL4AException
    | AgentFailure                              // any exception out of the sl4a client
    | IndexOutOfRange                           // IndexError
    | NoneAttribute                             // AttributeError on a None value

  datatype Result<+T> = Ok(value: T) | Err(error: Error)
}
