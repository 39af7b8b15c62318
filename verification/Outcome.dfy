/** What a call comes to when the original may stop the machine instead of returning. */
module Outcome {
  datatype Outcome<+T> = Panic | Returned(value: T)
}
