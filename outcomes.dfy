/** Values that may be absent and operations that may throw.

    Every `throw` of the compiler becomes a `Fail` carrying the kind of the
    error; the message text and the source line it is reported at are not
    part of the model. */
module Outcomes {

  /** JS `undefined`/`null` versus a present value. */
  datatype Option<+T> = None | Some(value: T)

  /** Kinds of error the compile-time half can raise. */
  datatype ErrorKind =
    | DuplicateParam          // a parameter of that name is already declared
    | DuplicateDeclaration    // the identifier already exists in the current directory
    | UndeclaredIdentifier    // not found in any searched directory
    | NotAFunction            // a function was expected
    | TypeMismatch            // the symbol does not have the expected type
    | UndeclaredMember        // `foo.bar`: `bar` is not a member of `foo`
    | MemberOfFunction        // `foo.bar` where `foo` is a function
    | TooManyArguments        // a call passes more arguments than declared
    | ArgumentTypeMismatch    // an argument's type differs from its parameter's
    | TooFewArguments         // a call passes fewer arguments than declared
    | ReturnTypeMismatch      // a return value of the wrong type
    | InvalidOperator         // an operator symbol the generator does not know
    | UntranslatedOperator    // an operator without an opcode (a load-time check)
    | UnusedOperator          // an operator missing from a compatibility table (a load-time check)
    | TooManyVariables        // an address range overflowed
    | GlobalDirectoryTwice    // the global directory may be set only once
    | TypeError               // JS TypeError: a property read on `undefined`
    | ReferenceError          // JS ReferenceError: an undeclared name in the error path

  /** The result of an operation that returns a value or throws. */
  datatype Result<+T> = Ok(value: T) | Err(error: ErrorKind)

  /** The result of an operation that returns nothing or throws. */
  datatype Outcome = Pass | Fail(error: ErrorKind)
}
