/** Outcomes of the modelled operations: the failures the Java code signals
    with `assert`, `H2O.fail()` or a null store lookup become error values. */
module Results {

  datatype Error =
    | MissingChunk     // no value under the derived chunk key
    | BindConflict     // a fetched chunk is bound to a different start row
    | ReadOnlyChunk    // mutation attempted on a compressed chunk
    | NoNextChunk      // the chunk asked about is the vector's last

  datatype Result<T> = Ok(value: T) | Err(error: Error)
}
