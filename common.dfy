/** Values shared by every part of the configuration model: optional values (Java's
    nullable references), results of the accessors, and the kinds of failure the
    configuration raises. */
module Common {

  /** A Java reference that may be null. */
  datatype Option<+T> = None | Some(value: T)

  /** The failures the configuration class throws, one constructor per kind. */
  datatype Error =
    | InvalidConfigurationKey(key: string)   // the key is not in the store (and getLong's fall-through)
    | KeyNotInteger(key: string)             // Integer.parseInt rejected the resolved value
    | KeyNotBoolean(key: string)             // neither "true" nor "false", ignoring case
    | KeyNotBytes(key: string)               // the size parser rejected the resolved value
    | NullArgument                           // Preconditions.checkArgument on a null argument
    | EmptySeparator                         // Guava's Splitter refuses an empty separator
    | NoEnumConstant(name: string)           // Enum.valueOf found no constant of that name
    | InvalidBufferBytes(bytes: int)         // the user file buffer size does not fit in an int
    | WorkerPortSet(key: string)             // a worker port given as a system property with many workers per host
    | DefaultPropertiesMissing               // the default property file could not be loaded
    | StackOverflow                          // placeholder resolution recursed without bound

  /** The outcome of an accessor: a value or the failure it throws. */
  datatype Result<+T> = Ok(value: T) | Err(error: Error)

  /** The outcome of an operation that returns nothing in the source. */
  datatype Status = Pass | Fail(error: Error)

  const MinInt: int := -0x8000_0000
  const MaxInt: int := 0x7FFF_FFFF
  const MinLong: int := -0x8000_0000_0000_0000
  const MaxLong: int := 0x7FFF_FFFF_FFFF_FFFF

  /** Java's int and long. */
  type Int32 = x: int | MinInt <= x <= MaxInt
  type Long = x: int | MinLong <= x <= MaxLong
}
