/** The ways the simulation loop stops with an uncaught exception. */
module Outcomes {

  datatype Fault =
    | ZeroLengthNormalize  // `normalize` of the zero vector raises ValueError
    | NoPendingBody        // the charge formula runs while there is no buffer body
    | MaxOfEmpty           // `max` over an empty list of bodies

  datatype Outcome<+T> = Ok(value: T) | Fail(fault: Fault)
}
