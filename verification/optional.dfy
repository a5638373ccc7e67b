/** A value that may be missing. In the catalog a missing number stands for
    pandas' NaN: an empty CSV cell, or text that numeric coercion could not parse. */
module Optional {

  datatype Option<+T> = None | Some(value: T)
}
