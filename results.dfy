/** The exceptions the list operations let escape, and a result type that carries them. */
module Results {

  /** DuplicateKey: `ToDictionary` met a key twice (an ArgumentException in .NET).
      IndexOutOfRange: a row was indexed past its last field (an IndexOutOfRangeException). */
  datatype Fault = DuplicateKey(key: string) | IndexOutOfRange

  datatype Result<+T> = Ok(value: T) | Err(fault: Fault)
}
