/** The optional value used wherever the JavaScript source tolerates a
    missing (`undefined`) field or produces `NaN`. */
module Options {

  datatype Option<+T> = None | Some(value: T)

}
