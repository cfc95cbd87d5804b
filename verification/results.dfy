/** Optional values and fallible results. A Python `None` becomes `None`; a raised
    exception becomes `Err` carrying the exception's message (`str(e)`). */
module Results {

  datatype Option<+T> = None | Some(value: T)

  datatype Result<+T> = Ok(value: T) | Err(error: string)
}
