/** The optional value used wherever the page can end up with "no number":
    JavaScript's `NaN` from `parseInt` of an empty string becomes `None`. */
module Options {

  datatype Option<+T> = None | Some(value: T)

}
