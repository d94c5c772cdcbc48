/** Failure kinds of the routing core and the Result type that carries them.
    Each kind stands for the exception entropic's code raises at that point. */
module Outcomes {

  /** The exceptions the core raises. */
  datatype Failure =
    | KeyError         // missing dict key, or a node name absent from the graph
    | IndexError       // list index out of range
    | ValueError       // max() of an empty list, islice bound out of range
    | TypeError        // a keyword argument that repeats a named parameter
    | ZeroDivisionError
    | NodeNotFound     // networkx: source or target is not a node of the graph
    | NoPath           // networkx: source and target are not connected

  datatype Result<+T> = Ok(value: T) | Err(error: Failure)
}
