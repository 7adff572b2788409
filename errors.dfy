/** The error taxonomy of the battery interface and the classification of
    failures to open the serial device. */
module Errors {

  /** The platform's classification of an I/O failure (`std::io::ErrorKind`),
      kept abstract: the model only carries it from where it arises to the caller. */
  datatype IoKind = IoKind(code: nat)

  /** The kind of a failure to open the serial device, as the serial library
      reports it. */
  datatype SerialErrorKind = NoDevice | InvalidInput | Unknown | Io(io: IoKind)

  /** A failure to open the serial device: its kind and the library's text. */
  datatype SerialError = SerialError(kind: SerialErrorKind, description: string)

  /** Every failure the battery interface reports to its caller. */
  datatype Error =
    | Timeout
    | NoDevice(description: string)
    | InvalidInput(description: string)
    | Unknown(description: string)
    | Io(kind: IoKind)

  /** What an operation ends in: the source's `Ok`/`Err` result, or `Panic`
      when one of its `assert!`s fails and the caller unwinds instead of returning. */
  datatype Outcome<+T> = Ok(value: T) | Err(error: Error) | Panic
  {
    predicate IsFailure() {
      !Ok?
    }

    function PropagateFailure<U>(): (r: Outcome<U>)
      requires !Ok?
      ensures r.Err? <==> Err?
      ensures Err? ==> r.error == error
      ensures r.Panic? <==> Panic?
    {
      if Err? then Err(error) else Panic
    }

    function Extract(): T
      requires Ok?
    {
      value
    }
  }

  /** The error `Port::new` returns when the serial device cannot be opened:
      each serial error kind becomes the `Error` variant of the same name,
      an I/O failure keeping its platform kind and the others the library's text. */
  function ClassifyOpenError(e: SerialError): (r: Error)
    ensures r.NoDevice? <==> e.kind.NoDevice?
    ensures r.InvalidInput? <==> e.kind.InvalidInput?
    ensures r.Unknown? <==> e.kind.Unknown?
    ensures r.Io? <==> e.kind.Io?
    ensures !r.Timeout?
    ensures r.Io? ==> r.kind == e.kind.io
    ensures !r.Io? ==> r.description == e.description
  {
    match e.kind
    case Io(kind) => Error.Io(kind)
    case NoDevice => Error.NoDevice(e.description)
    case InvalidInput => Error.InvalidInput(e.description)
    case Unknown => Error.Unknown(e.description)
  }

  /** The classification loses no kind: two open failures classified alike
      were of the same kind. */
  lemma ClassifyOpenErrorKeepsKind(a: SerialError, b: SerialError)
    requires ClassifyOpenError(a) == ClassifyOpenError(b)
    ensures a.kind == b.kind
  {
  }
}
