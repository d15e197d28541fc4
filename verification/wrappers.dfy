/** The optional value used for the detector's last blink time and for the
    blink (if any) that one frame reports. */
module Wrappers {

  datatype Option<+T> = None | Some(value: T)

}
