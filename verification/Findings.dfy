/** The status every audit finding carries. */
module Findings {

  datatype Status = Pass | Warn | Fail | Unknown | Skip
}
