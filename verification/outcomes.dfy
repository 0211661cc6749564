/**
  Optional values, results, and the Python exceptions the grading script can
  raise while it computes. A raised exception ends the operation that raised
  it; the model returns `Err` with the constructor naming the raising site.
 */
module Outcomes {

  datatype Option<+T> = None | Some(value: T)

  /** One constructor per kind of exception the modelled code raises. */
  datatype Error =
    /** `url.split('?')[1]` on a link without '?': IndexError. */
    | NoQueryString(url: string)
    /** `dict(param.split('=') ...)` on a parameter without exactly one '=': ValueError. */
    | MalformedParam(param: string)
    /** `params['attempt']` or `params['slot']` on a missing key: KeyError. */
    | MissingParam(name: string)
    /** `int(slot)` on text that is not an integer literal: ValueError. */
    | NotAnInteger(text: string)
    /** `float(max_mark)` on text that is not a number: ValueError. */
    | NotANumber(text: string)
    /** `input['value']` on a matching form input that has no value attribute: KeyError. */
    | MissingValue(marker: string)

  datatype Result<+T> = Ok(value: T) | Err(error: Error)
}
