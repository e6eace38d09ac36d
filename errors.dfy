/** Failure values shared by every layer: each exception the library raises
    becomes an `Err` carrying one of these kinds. */
module Errors {

  datatype Error =
    | DivisionByZero        // dividing by the additive identity of the field
    | NotInvertible         // the modular inverse does not exist (composite modulus)
    | ZeroDivisor           // polynomial division by the zero polynomial
    | InexactDivision       // `/` on polynomials with a non-zero remainder
    | EmptyInput            // an element is read from an empty list
    | LengthMismatch        // interpolation inputs of different lengths
    | NotPowerOfTwo         // has_order_po2 called with a non power of two
    | IdentityCoordinate    // a coordinate of the point at infinity is used
    | NegativeMultiplicity  // a finite point carries a negative multiplicity
    | NotImplemented        // the Hensel-lifting branch (multiplicity > 1)
    | NotPrincipal          // the witness is asked for a non-principal divisor

  datatype Result<T> = Ok(value: T) | Err(error: Error)

  datatype Option<T> = None | Some(value: T)
}
