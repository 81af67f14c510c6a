/**
  The record a user form emits to its container, and the record sent to the
  backend on submission.
 */
module Models {

  datatype Option<+T> = None | Some(value: T)

  /** Form identities are allocated by the container from a counter that starts at 1. */
  type Id = nat

  /** The three fields of a form; also the keys of the error-message map. */
  datatype Field = Country | Username | Birthdate

  /**
    The value of the birthdate control: the empty string, or a calendar day.
    Days are counted from an arbitrary epoch; day granularity is what the
    future-date validator compares at.
   */
  datatype DateInput = NoDate | Day(day: int)

  /** The snapshot a form emits on every change. */
  datatype UserForm = UserForm(
    id: Id,
    country: string,
    username: string,
    birthdate: DateInput,
    isValid: bool,
    errors: map<Field, string>)

  /** One element of the submit request: the snapshot without `isValid` and `errors`. */
  datatype Submission = Submission(id: Id, country: string, username: string, birthdate: DateInput)

  function Strip(f: UserForm): Submission
  {
    Submission(f.id, f.country, f.username, f.birthdate)
  }
}
