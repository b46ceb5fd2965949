/** The text `str(e)` gives for each fault: what a report carries under
    its "error" key. */
module Errors {
  import Numbers
  import opened Outcomes

  /** `str(e)` of a fault: what ends up under the "error" key of a report.
      (`NotAFloat` quotes the field the way `repr` does for printable text
      without quotes or backslashes.) */
  function ErrorText(f: Fault): (text: string)
    ensures f.Raised? ==> text == f.message
    ensures !f.Raised? ==> |text| > 0
  {
    match f
    case Raised(m) => m
    case NotEnoughValues(got) =>
      "not enough values to unpack (expected 2, got " + Numbers.NatToString(got) + ")"
    case TooManyValues => "too many values to unpack (expected 2)"
    case NotAFloat(field) => "could not convert string to float: '" + field + "'"
  }

}
