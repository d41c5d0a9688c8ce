/** The ways the suppression entry points fail, and the result type they return. */
module Errors {

  /** Every failure the model tells apart, named after the check or the read that fails. */
  datatype NmsError =
    | BoxesShape           // nms: boxes is not an (n, 4) array
    | ScoresShape          // nms: scores is not a one-dimensional vector
    | IouThresholdRange    // nms: iou_threshold outside [0, 1]
    | ScoreThresholdRange  // nms: score_threshold outside [0, 1]
    | EmptyReduction       // _nms: the minimum of the empty array of coordinate deltas
    | NotOriented          // _nms: some box has x1 <= x0 or y1 <= y0
    | MaskLengthMismatch   // _nms: a boolean score mask whose length differs from the box count
    | IndexOutOfRange      // _nms: a position of the score order read past the filtered mask

  datatype Result<T> = Ok(value: T) | Err(error: NmsError)

  datatype Option<T> = None | Some(value: T)
}
