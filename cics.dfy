/**
 * Vocabulary shared by the model of the JCICS API and by the samples built on it:
 * optional values, results, the CICS conditions a call can raise, and the
 * unchecked exceptions the samples throw when they give up.
 */
module Cics {

  datatype Option<+T> = None | Some(value: T)

  /** The outcome of a call: a value, or the error it raised. */
  datatype Result<+T, +E> = Ok(value: T) | Err(error: E)

  /** The CICS conditions (JCICS `CicsConditionException` subclasses) the modelled calls raise. */
  datatype Condition =
    | DuplicateRecord              // DUPREC
    | RecordNotFound               // NOTFND
    | EndOfFile                    // ENDFILE
    | InvalidRequest(resp2: int)   // INVREQ, with its RESP2 reason code
    | ItemError                    // ITEMERR
    | QueueIdError                 // QIDERR: the queue does not exist
    | CcsidError                   // CCSIDERR
    | ChannelError                 // CHANNELERR
    | CodePageError                // CODEPAGEERR
    | ContainerError               // CONTAINERERR
    | EndOfChainIndicator          // EOC: a terminal receive delivered the last element of a chain
    | OtherCondition(name: string) // any other condition: NOTOPEN, IOERR, NOSPACE, ...

  /** RESP2 of INVREQ when the resource definition does not allow the requested operation. */
  const RESP2_NOT_PERMITTED: int := 20

  /** RESP2 of INVREQ for a REWRITE or DELETE that no READ UPDATE prepared (a model constant). */
  const RESP2_NO_READ_UPDATE: int := 30

  /** The group of operations a sample names when it reports that they are not permitted. */
  datatype Operations = Add | ReadOrUpdate | Read | Browse | Delete | ReadUpdateOrDelete

  /** What a sample prints about a condition before it rethrows it. */
  datatype Report =
    | NotPermitted(operations: Operations)
    | DuplicateReported
    | NotFoundReported
    | Unreported

  /** The unchecked exceptions the samples let escape. */
  datatype Failure =
    | RuntimeFailure(cause: Condition, report: Report) // new RuntimeException(cce)
    | IllegalArgument(count: int)                      // new ArrayList<>(count) with count < 0
    | BufferUnderflow(length: nat)                     // ByteBuffer.getInt() with fewer than four bytes
}
