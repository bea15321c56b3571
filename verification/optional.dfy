/** Optional values: the model's replacement for the `null` that every field parser returns
    when a value is absent. */
module Optional {

  datatype Option<+T> = None | Some(value: T)
}
