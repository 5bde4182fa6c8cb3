/** The conventional Some/None datatype, used for values the detector may lack:
    a landmark the pose model did not return, or a frame without a pose. */
module Wrappers {

  datatype Option<+T> = None | Some(value: T)
}
