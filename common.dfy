/**
 * Small shared vocabulary: an optional value (Java's nullable reference)
 * and the outcome of an event handler, which either completes or stops the
 * parse with the Java exception the handler would have thrown.
 */
module Common {

  datatype Option<+T> = None | Some(value: T)

  /** The unchecked Java exceptions that the event handlers can raise. */
  datatype JavaError =
    | NullPointer      // a handler dereferences a `null` current record
    | EmptyStack       // `java.util.Stack.pop`/`peek` on an empty stack
    | NumberFormat     // `Integer.parseInt` refuses the text it is given

  /** The result of handling one event: either it completes, or it throws and the parse aborts. */
  datatype Outcome = Pass | Fail(error: JavaError)
}
