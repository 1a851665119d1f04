/** Small shared vocabulary: an optional value, standing in for the
    `T | null` and `T | undefined` values of the organizer. */
module Common {

  datatype Option<+T> = None | Some(value: T)

}
