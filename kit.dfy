/** What a SvelteKit page handler can hand back, and what a form field holds. */
module Kit {

  /** The outcome of a `load` function or a form action:
      - Ok: a plain object returned to the page;
      - Fail: `fail(status, { … })`, an expected validation or store failure;
      - Error: `throw error(status, message)`, or an exception no handler caught
        (SvelteKit answers those with status 500 and "Internal Error");
      - Redirect: `redirect(status, location)`. */
  datatype Response<+T> =
    | Ok(data: T)
    | Fail(status: int, message: string)
    | Error(status: int, message: string)
    | Redirect(status: int, location: string)

  /** The value of `formData.get(field)`: null when the field is absent,
      a string, or an uploaded File. */
  datatype FormValue = Absent | Text(s: string) | Upload

  /** JavaScript truthiness of a form value: null and "" are falsy, any other
      string and any File object are truthy. */
  predicate Truthy(v: FormValue) {
    match v
    case Absent => false
    case Text(s) => s != ""
    case Upload => true
  }

  /** `a || b` on form values. */
  function Or(a: FormValue, b: FormValue): FormValue {
    if Truthy(a) then a else b
  }
}
