/** Failure values shared by the grid-correction pipeline. */
module Outcomes {

  /** Message of the Error thrown for two parallel grid lines. */
  const LinesDoNotIntersect: string := "lines do not intersect"

  /** Message of the Error thrown when the boundary polygon has fewer than four vertices ("grid boundary unclear"). */
  const BoundaryUnclear: string := "網格邊界不清楚"

  datatype Failure =
    | Thrown(message: string)  // an Error the pipeline throws itself
    | UndefinedCorner          // a coordinate read from a corner slot that sortCorners left empty (a TypeError)
    | RegionOutOfRange         // OpenCV refuses a region of interest that does not lie inside the image
    | NoContour                // no contour was found, so there is no largest one to approximate

  datatype Result<T> = Ok(value: T) | Err(error: Failure)

  datatype Option<T> = None | Some(value: T) {
    function GetOr(default: T): T {
      match this
      case Some(v) => v
      case None => default
    }
  }
}
