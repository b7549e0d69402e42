/** How an assembly run ends when it does not produce a module, and the
    warnings it reports along the way. */
module Errors {
  import opened Encoders

  datatype Result<T> = Ok(value: T) | Err(error: Error)

  /** Every way the assembler stops without output.  The ones marked
      "returns 1" are reported and handled; the others are Python exceptions
      that escape the assembler. */
  datatype Error =
    | UnknownDirective(line: nat, name: string)                     // returns 1
    | NoLabel(line: nat)                                            // returns 1
    | UnknownInstruction(line: nat, inLabel: string, name: string)  // returns 1
    | MissingEntryPoint(name: string)                               // returns 1
    | IncludeMissingPath(line: nat)        // IndexError: `#include` without a path
    | IncludeNotFound(path: string)        // the included file does not exist
    | EncoderFailed(line: nat, cause: EncodeError)
    | ExtendNone(line: nat)                // TypeError: `code.extend(None)`
    | TooManyLabels(count: nat)            // OverflowError: label count beyond 2 bytes
    | RecordOutOfRange(name: string)       // struct.error: id or address beyond `>hi`
    | UnresolvedLabel(name: string)        // KeyError: a jump to an undeclared label
    | IdOutOfRange(name: string)           // OverflowError: a label id beyond 2 bytes
    | EntryOutOfRange(addr: nat)           // OverflowError: entry address beyond 4 bytes
    | StepLimit                            // the model's bound on scan steps ran out
  {
    /** The errors the assembler reports itself and answers with exit status 1. */
    predicate ReturnsOne() {
      UnknownDirective? || NoLabel? || UnknownInstruction? || MissingEntryPoint?
    }
  }

  /** The warnings, without their wording. */
  datatype Warning =
    | RedefinedLabel(name: string)     // the old code under that label is unreachable
    | MissingIncludeId(path: string)   // the included file has no `#ID` first line
    | AutoMain                         // the first instruction precedes every label
    | UnusedLabel(name: string)        // no jump refers to the label and it is not the entry point
}
