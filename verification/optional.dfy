/**
  A value the source may fail to produce: `parseInt` gives `NaN` when it
  finds no digits, and `autoDst` gives `null` for a transmission type it
  does not recognise.
 */
module Optional {

  datatype Option<T> = None | Some(value: T)
}
