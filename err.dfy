/** The recoverable game errors of `src/err.rs`. */
module GameErrors {

  datatype GameError =
    | BoardFull          // declared, but never returned by the engine modelled here
    | AxisFull           // the chosen drop column has no empty cell
    | TooFewDimensions   // a board needs at least two axes
}
