/** Optional values, the exceptions the scraper throws, and results that carry them. */
module Results {

  /** A value or JavaScript's `null`. */
  datatype Option<+T> = None | Some(value: T)

  /** One constructor per `throw new Error(...)` site of the extraction core. */
  datatype Error =
    | TooManyWeekdays            // weekday list longer than five
    | NoWordsInName              // toCamelCase / stringToCamelCase on a string without \w
    | NoWordsInValue             // firstWord / stripValue on a string without \w
    | HeaderPatternMismatch      // course-information h2 does not match the name-with-code pattern
    | SmallLabelTooFewChildren   // small label element with fewer than two child nodes
    | SmallLabelNotText          // second child of a small label is not a text node
    | BreadthPatternMismatch     // breadth label without "Category X"
    | LocationPatternMismatch    // provided course link carries no campus location
    | CourseIdPatternMismatch    // accepted "More Details" link without the _digits_digits id
    | SubjectOptionNoFirstChild  // subject <option> without a first child
    | SubjectOptionNoData        // first child of a subject <option> has no `data`
    | InvalidSubject             // subject key missing from the subject mapping
    | ScheduleTableNotFound      // no table sibling after an offering header
    | OfferingHeaderMismatch     // offering header without subject, number and suffix

  /** A returned value, or the error that was thrown instead. */
  datatype Result<+T> = Ok(value: T) | Err(error: Error) {
    predicate IsFailure() { Err? }

    function PropagateFailure<U>(): Result<U>
      requires Err?
    {
      Err(error)
    }

    function Extract(): T
      requires Ok?
    {
      value
    }
  }
}
