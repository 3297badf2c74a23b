/** Option and Result values for lookups that may find nothing and for
    operations that reject (a rejected JavaScript promise becomes `Err`). */
module Results {

  datatype Option<+T> = None | Some(value: T)

  datatype Result<+T, +E> = Ok(value: T) | Err(error: E)
}
