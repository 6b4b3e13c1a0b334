/** Small shared vocabulary: an optional value, used for pandas NaN and Python None. */
module Common {

  datatype Option<+T> = None | Some(value: T)
}
