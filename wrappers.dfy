/** Option and Result values standing for the library's nullable values and exceptions. */
module Wrappers {

  datatype Option<+T> = None | Some(value: T) {
    function GetOr(default: T): T {
      match this
      case Some(v) => v
      case None => default
    }
  }

  /** The exceptions the algorithm suite throws, one constructor per throw site kind. */
  datatype Error =
    | SourceNotInGraph       // ArgumentException "Source Vertex is not in the given Graph"
    | DestinationNotInGraph  // ArgumentException "Destination Vertex is not in the given Graph"
    | NoPath                 // ArgumentException "There is no path from source to destination vertex ..."
    | NegativeEdges          // ArgumentException "Graph contains negative edges"
    | DuplicateKey           // ArgumentException from Dictionary.Add on a key already present
    | NegativeCycle          // NegativeCycleException
    | GraphIsNotDag          // GraphIsNotDAGException

  datatype Result<+T> = Ok(value: T) | Err(error: Error)
}
