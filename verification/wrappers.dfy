/** Failure-compatible wrappers shared by every module. */
module Wrappers {

  /** A value that may be absent: Java's `null`. */
  datatype Option<+T> = None | Some(value: T)

  /** The outcome of an operation that may throw. */
  datatype Result<+R, +E> = Success(value: R) | Failure(error: E)
}

/** The exceptions the services raise, one constructor per kind the callers can tell apart. */
module Exceptions {

  datatype Error =
    | InvalidDate        // InvalidDateException
    | WeatherApiFailure  // WeatherApiException: the weather collaborator failed
    | NoWeatherData      // RuntimeException("No weather data available")
    | NullUnboxing       // NullPointerException: a null Double unboxed to a primitive double
    | IndexOutOfBounds   // ArrayIndexOutOfBoundsException: a word table read past its end
}
