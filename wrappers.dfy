/** Error results standing for the exceptions the library throws. */
module Wrappers {

  datatype Option<T> = None | Some(value: T)

  /** The exceptions the library raises, one constructor per cause. */
  datatype Error =
    | IndexOutOfBounds          // List.get, subList or substring past the end
    | BinomialName              // identity: "Cannot resolve a binomial name."
    | NotRecognized(name: string) // decode_enharmonic: "Note name %s not recognized."
    | TargetNotNatural          // encode_enharmonic: "Target note name must be from the naturals."
    | CannotResolveBinomial     // encode_scientific_enharmonic: value in neither range
    | UnknownPosition(position: string)
    | UnableToResolve(name: string)

  datatype Result<T> = Ok(value: T) | Err(error: Error)
}
