/** Failure-carrying values: the engine's exceptions become `Err`/`Fail` results. */
module Wrappers {

  datatype Option<+T> = None | Some(value: T)

  datatype Result<+T, +E> = Ok(value: T) | Err(error: E)

  datatype Outcome<+E> = Pass | Fail(error: E)

  /** The runtime errors the engine throws, one constructor per `throw` site. */
  datatype Error =
    | UnmatchedLeftParen           // shunting-yard: a "(" left on the operator stack
    | MissingUnaryOperand          // tree builder: "_NEG_" with an empty node stack
    | MissingOperands(op: string)  // tree builder: binary operator with fewer than two nodes
    | Malformed                    // tree builder: final node stack size other than 1
    | DivByZero                    // calculateOp: "/" with a zero right operand
    | TreeNotBuilt                 // calculate on an empty tree
    | InvalidOperand(text: string) // stod found no number in the operand text

  /** The message text each error carries. */
  function Message(e: Error): string
  {
    match e
    case UnmatchedLeftParen => "Error: Unmatched left parenthesis."
    case MissingUnaryOperand => "Missing operand for unary -"
    case MissingOperands(op) => "Missing operands for " + op
    case Malformed => "Error: Malformed expression."
    case DivByZero => "Div by zero"
    case TreeNotBuilt => "Tree not built."
    case InvalidOperand(_) => "stod"
  }
}
