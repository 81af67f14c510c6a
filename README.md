# Multi-form entry: forms container and user form

This project models the two components of an Angular multi-form data entry
screen that carry behaviour:

- **the forms container** (`FormsContainer.FormsContainerComponent`). It holds an
  ordered list of live form ids, a table from id to the latest `UserForm`
  snapshot each form emitted, an id counter, and a cached count of the invalid
  snapshots. It also runs a five-second countdown that ends in one bulk
  submission of the valid snapshots. The class keeps these invariants: ids are
  distinct and below the counter, each snapshot sits under its own id, and
  the countdown stays within 0..5 and is at least 1 while it runs. Separate
  predicates state that the cached count agrees with the table and that
  every stored snapshot belongs to a live form.
- **the user form** (`UserFormRules` for the pure logic,
  `UserFormUnit.UserFormComponent` for the stateful component). It covers the
  `required` and future-date validators, the guard on the username
  availability check, how the `taken` error is merged into the username
  control's errors, the error-message map and snapshot that each change emits,
  and the case-insensitive country filter.

Modelling choices:

- A control is its value, a set of error keys, and its dirty and touched flags.
  Angular's `null` errors are the empty set. The source never stores an empty
  error object: it passes `null` instead (`user-form.component.ts:109`).
- Dates are day numbers (`DateInput = NoDate | Day(day)`). "Today" is a
  parameter wherever a validator runs. The snapshot and the submit record
  carry the `DateInput` in place of the date string.
- Ids are natural numbers, the only ids the container allocates. For such keys
  JavaScript's `Object.values` lists entries in ascending key order. So the
  submit payload lists the valid snapshots by ascending id.
- `countdownInterval` is the flag `intervalActive`. One firing of the interval
  callback is the method `Tick`. A cleared interval does not fire, so `Tick`
  does nothing when no interval is registered.
- Events that a component emits are the values its methods return. The two
  backend calls are outcomes passed to the methods. `RequestUsernameCheck`
  says whether a check is issued. `ApplyUsernameCheck` takes the availability
  answer. `OnSubmitSuccess` and `OnSubmitError` are the two outcomes of a
  submission, and neither has a precondition on the submission flags.
- `toLowerCase` is ASCII lowercasing. The static country list is the
  constructor parameter `countries`.
- A unit test (`forms-container.component.spec.ts:105`) expects the submitted
  record with `isValid` and `errors` still in it. The code strips both, and
  the model follows the code (`PayloadOfOneValidForm`).

## Model

| member | source | states |
|---|---|---|
| `Collections.Without` | src/app/components/forms-container/forms-container.component.ts:48 | the filter keeps exactly the ids different from the removed one, in their order; an absent id leaves the list as it is; distinct ids stay distinct |
| `Collections.WithoutOccurrences` | src/app/components/forms-container/forms-container.component.ts:48 | every occurrence of the removed id is dropped and every other id is kept as often as it occurs |
| `Collections.Ascending` | src/app/components/forms-container/forms-container.component.ts:84 | the integer keys of the table in the order `Object.values` visits them: each key once, strictly increasing |
| `UserFormRules.RequiredText` | src/app/components/user-form/user-form.component.ts:67-68 | `required` on a text field fails exactly on the empty string, and reports nothing else |
| `UserFormRules.FutureDateValidator` | src/app/components/user-form/user-form.component.ts:73-86 | no error for an empty value; `futureDate` exactly when the day lies strictly after today, so the same day is accepted |
| `UserFormRules.BirthdateErrors` | src/app/components/user-form/user-form.component.ts:69 | the birthdate's merged validators: `required` exactly for an empty value, `futureDate` exactly for a later day, and no error exactly for a day up to today |
| `UserFormRules.NewTextControl` | src/app/components/user-form/user-form.component.ts:67-68 | a new country or username control is empty, pristine, untouched, and fails `required` |
| `UserFormRules.NewBirthdateControl` | src/app/components/user-form/user-form.component.ts:69 | a new birthdate control is empty, pristine and untouched, and its errors are what its validators give on any day |
| `UserFormRules.Utf16Length` | src/app/components/user-form/user-form.component.ts:93 | `length` counts UTF-16 code units: at least one and at most two per character |
| `UserFormRules.Utf16LengthInBmp` | src/app/components/user-form/user-form.component.ts:93 | on text inside the Basic Multilingual Plane, `length` is the number of characters |
| `UserFormRules.ShouldCheckUsername` | src/app/components/user-form/user-form.component.ts:93-98 | a username is sent for checking exactly when its `length` in UTF-16 code units is at least 3; so always with 3 or more characters, and never with fewer than 2 |
| `UserFormRules.TwoAstralCharactersAreChecked` | src/app/components/user-form/user-form.component.ts:93-98 | two characters outside the Basic Multilingual Plane (four code units) are enough for a check |
| `UserFormRules.MergeTaken` | src/app/components/user-form/user-form.component.ts:105-110 | a non-empty unavailable value gets `taken` added to its errors; otherwise `taken` is removed, and errors without `taken` stay the same; no other key ever changes |
| `UserFormRules.MergeTakenIdempotent` | src/app/components/user-form/user-form.component.ts:105-110 | applying the same availability answer twice equals applying it once |
| `UserFormRules.IsControlInvalid` | src/app/components/user-form/user-form.component.ts:137-140 | a control shows as invalid only when it has an error, and never before the user has edited or touched it |
| `UserFormRules.FormValid` | src/app/components/user-form/user-form.component.ts:165 | a valid form has no control showing as invalid and no `taken` username |
| `UserFormRules.ErrorMessages` | src/app/components/user-form/user-form.component.ts:146-160 | country and birthdate messages are present exactly when their control shows as invalid; the username message also when `taken` is set; each key carries its fixed message |
| `UserFormRules.Snapshot` | src/app/components/user-form/user-form.component.ts:162-167 | the emitted record has the form's id and field values; `isValid` holds exactly when no control has an error; a valid record has no messages |
| `UserFormRules.ValidFormHasNoMessages` | src/app/components/user-form/user-form.component.ts:146-165 | a valid form emits an empty error-message map |
| `UserFormRules.FreshFormInvalidButSilent` | src/app/components/user-form/user-form.component.ts:65-71 | a freshly built form is invalid, yet emits no message, since no control has been touched |
| `UserFormRules.TakenIsReported` | src/app/components/user-form/user-form.component.ts:154-156 | a `taken` username makes the snapshot invalid and always carries the username message |
| `UserFormRules.Lower` | src/app/components/user-form/user-form.component.ts:125 | the result has the same length and no upper-case ASCII letter; each upper-case letter becomes its lower-case letter and every other character is kept |
| `UserFormRules.LowerIdempotent` | src/app/components/user-form/user-form.component.ts:125-127 | lowercasing twice equals lowercasing once |
| `UserFormRules.Includes` | src/app/components/user-form/user-form.component.ts:127 | `String.prototype.includes`; `IncludesIsSubstring` states its meaning |
| `UserFormRules.OccursShift` | src/app/components/user-form/user-form.component.ts:127 | an occurrence in the tail of a string is an occurrence in the string one index later, and back |
| `UserFormRules.IncludesIsSubstring` | src/app/components/user-form/user-form.component.ts:127 | `includes` holds exactly when the needle occurs in the string at some index |
| `UserFormRules.MatchingCountries` | src/app/components/user-form/user-form.component.ts:124-129 | exactly the countries whose lowercase name contains the lowercase query, in list order, each kept as often as the list holds it |
| `UserFormRules.EmptyQueryKeepsAll` | src/app/components/user-form/user-form.component.ts:124-129 | an empty query returns the whole list |
| `UserFormRules.QueryCaseIgnored` | src/app/components/user-form/user-form.component.ts:125-127 | the filter's result does not depend on the case of the query |
| `UserFormUnit.UserFormComponent.constructor` | src/app/components/user-form/user-form.component.ts:41-46 | after `initForm`, all three controls are empty, pristine and failing `required`, the form is invalid, the dropdown lists every country, and no check is running |
| `UserFormUnit.UserFormComponent.EmitFormChange` | src/app/components/user-form/user-form.component.ts:146-171 | the emitted record is the snapshot of the current controls, under this form's id |
| `UserFormUnit.UserFormComponent.OnRemove` | src/app/components/user-form/user-form.component.ts:142-144 | the removal request carries exactly this form's id |
| `UserFormUnit.UserFormComponent.FilterCountries` | src/app/components/user-form/user-form.component.ts:124-129 | the dropdown list becomes the matching countries; nothing else changes |
| `UserFormUnit.UserFormComponent.SelectCountry` | src/app/components/user-form/user-form.component.ts:131-135 | the country control takes the chosen value and its `required` result, the dropdown closes, and the form emits its new snapshot; the other controls are unchanged |
| `UserFormUnit.UserFormComponent.EditUsername` | src/app/components/user-form/user-form.component.ts:116-122 | a username edit makes the control dirty and re-runs `required`, which drops any `taken`; the form emits its snapshot |
| `UserFormUnit.UserFormComponent.EditBirthdate` | src/app/components/user-form/user-form.component.ts:116-122 | a birthdate edit makes the control dirty and re-runs both birthdate validators for that day; the form emits its snapshot |
| `UserFormUnit.UserFormComponent.RequestUsernameCheck` | src/app/components/user-form/user-form.component.ts:92-98 | a check is issued exactly when the guard allows it, and issuing one raises `checkingUsername`; the controls are unchanged |
| `UserFormUnit.UserFormComponent.ApplyUsernameCheck` | src/app/components/user-form/user-form.component.ts:101-113 | the answer lowers `checkingUsername` and merges or removes `taken` on the username errors only; an unavailable non-empty name yields an invalid snapshot carrying the username message |
| `FormsContainer.InvalidCount` | src/app/components/forms-container/forms-container.component.ts:59-60 | the number of stored snapshots that are not valid; `ValidAndInvalidPartition`, `InvalidCountZeroIffAllValid`, `InvalidCountAfterStore` and `InvalidCountAfterDelete` state its properties |
| `FormsContainer.ValidAndInvalidPartition` | src/app/components/forms-container/forms-container.component.ts:59-60 | the valid and the invalid snapshots together are the whole table |
| `FormsContainer.InvalidCountZeroIffAllValid` | src/app/components/forms-container/forms-container.component.ts:33-35 | the invalid count is zero exactly when every stored snapshot is valid |
| `FormsContainer.InvalidCountAfterStore` | src/app/components/forms-container/forms-container.component.ts:53-61 | storing a snapshot changes the invalid count by the validity of the entry replaced and of the entry stored |
| `FormsContainer.InvalidCountAfterDelete` | src/app/components/forms-container/forms-container.component.ts:47-51 | deleting a key lowers the invalid count by one exactly when its snapshot was invalid |
| `Models.Strip` | src/app/components/forms-container/forms-container.component.ts:86-88 | a snapshot reduced to id, country, username and birthdate; `StripEachAt` and `SubmitPayloadSpec` state what the payload holds |
| `FormsContainer.StripEachAt` | src/app/components/forms-container/forms-container.component.ts:86-88 | the i-th element of the projection is the i-th key's snapshot reduced to id, country, username and birthdate |
| `FormsContainer.SubmitPayload` | src/app/components/forms-container/forms-container.component.ts:84-88 | the stripped valid snapshots in ascending id order; `SubmitPayloadSpec`, `InvalidSnapshotNotSent` and `PayloadOfOneValidForm` state its properties |
| `FormsContainer.SubmitPayloadSpec` | src/app/components/forms-container/forms-container.component.ts:84-88 | the payload holds every valid snapshot and nothing else, each stripped; its length is the table size minus the invalid count; ids are strictly increasing |
| `FormsContainer.PayloadContents` | src/app/components/forms-container/forms-container.component.ts:84-88 | projecting the valid keys in ascending order yields exactly the stripped valid snapshots, ordered by id |
| `FormsContainer.StripEachAgrees` | src/app/components/forms-container/forms-container.component.ts:86-88 | the projection depends only on the snapshots stored under the listed keys |
| `FormsContainer.InvalidSnapshotNotSent` | src/app/components/forms-container/forms-container.component.ts:84-88 | storing an invalid snapshot sends the same payload as having no snapshot under that id |
| `FormsContainer.OnlyValidFormSent` | src/app/components/forms-container/forms-container.component.ts:84-88 | a table of one valid and one invalid snapshot sends exactly the valid one, stripped |
| `FormsContainer.PayloadOfOneValidForm` | src/app/components/forms-container/forms-container.component.ts:84-88 | a single valid snapshot is sent without `isValid` and `errors` |
| `FormsContainer.FormsContainerComponent.constructor` | src/app/components/forms-container/forms-container.component.ts:19-27 | the initial state: no forms, no snapshots, counter 1, count 0, countdown 5 and idle |
| `FormsContainer.FormsContainerComponent.NgOnInit` | src/app/components/forms-container/forms-container.component.ts:29-31 | initialisation appends one form with the counter's id, so a new container holds `[1]` with counter 2 |
| `FormsContainer.FormsContainerComponent.CanSubmit` | src/app/components/forms-container/forms-container.component.ts:33-35 | with an accurate cache, submission is allowed exactly when the table is non-empty and every snapshot in it is valid |
| `FormsContainer.FormsContainerComponent.AddForm` | src/app/components/forms-container/forms-container.component.ts:41-45 | appends exactly the counter's id and increments the counter; table, count, flags and `CanSubmit` are unchanged; ids stay distinct and below the counter |
| `FormsContainer.FormsContainerComponent.UpdateInvalidFormsCount` | src/app/components/forms-container/forms-container.component.ts:58-61 | the cached count becomes the number of invalid snapshots in the table |
| `FormsContainer.FormsContainerComponent.RemoveForm` | src/app/components/forms-container/forms-container.component.ts:47-51 | the id leaves the list, and the others keep their order; its key leaves the table and no other key changes; an absent id changes neither; the count stays accurate |
| `FormsContainer.FormsContainerComponent.OnFormChange` | src/app/components/forms-container/forms-container.component.ts:53-56 | the snapshot is stored under its id and no other key changes; the count is accurate and moves by the validity of the replaced and the new entry |
| `FormsContainer.FormsContainerComponent.StartSubmitCountdown` | src/app/components/forms-container/forms-container.component.ts:63-68 | nothing happens while counting down or submitting; otherwise the countdown starts at 5 with the interval registered; the data is untouched |
| `FormsContainer.FormsContainerComponent.SubmitForms` | src/app/components/forms-container/forms-container.component.ts:81-88 | the submission is marked under way and sends the payload of the current table |
| `FormsContainer.FormsContainerComponent.Tick` | src/app/components/forms-container/forms-container.component.ts:69-78 | a firing lowers the countdown by one, which stays within 0..5; the firing that reaches 0, and no earlier one, stops the countdown and starts the submission with its payload; a cleared interval does nothing |
| `FormsContainer.FormsContainerComponent.OnSubmitSuccessAsWritten` | src/app/components/forms-container/forms-container.component.ts:91-101 | as written: a truthy result resets to `[1]`, an empty table and counter 2, but keeps the old invalid count, which is then accurate only if it was zero |
| `FormsContainer.FormsContainerComponent.OnSubmitSuccess` | src/app/components/forms-container/forms-container.component.ts:91-101 | a truthy result resets to `[1]`, an empty table, counter 2 and an accurate count of 0; without a result only `isSubmitting` drops and all data is kept |
| `FormsContainer.FormsContainerComponent.OnSubmitError` | src/app/components/forms-container/forms-container.component.ts:103-107 | only `isSubmitting` drops; forms, table, counter and count are kept for a retry |
| `FormsContainer.FormsContainerComponent.CancelSubmit` | src/app/components/forms-container/forms-container.component.ts:111-117 | the interval is cleared, both flags drop, and the countdown is back at 5; forms, table, counter and count are untouched |
| `FormsContainer.CountdownSubmitsOnFifthTick` | src/app/components/forms-container/forms-container.component.ts:63-79 | from idle, the first four firings send nothing and the fifth sends the payload of the unchanged table |
| `FormsContainer.EditDuringCountdown` | src/app/components/forms-container/forms-container.component.ts:53-79 | a snapshot emitted after the fourth firing is stored, the count stays accurate, and the fifth firing sends the payload of the table that holds it |
| `FormsContainer.StaleCountAfterReset` | src/app/components/forms-container/forms-container.component.ts:96-100 | a concrete run in which form 2 turns invalid during the countdown: the fifth firing sends form 1 only, and the as-written reset then leaves a cached count of 1 over an empty table |

## Findings

| source | as written | input that shows it | evidently intended | confidence | as-written member | corrected member |
|---|---|---|---|---|---|---|
| src/app/components/forms-container/forms-container.component.ts:96-100 | the success reset empties `formValues` but never calls `updateInvalidFormsCount`, so `invalidFormsCount` keeps its old value | forms 1 and 2; form 1 emits a valid snapshot; the countdown starts; form 2 emits an invalid snapshot after the fourth tick, while the countdown runs; the fifth tick sends form 1 only; the response is `{result: "nice job"}`. The table is then empty, but the cached count is 1 | the reset leaves an accurate count of 0, like every other operation that changes the table | not executed; medium: the effect lasts until the next form emits, and what the template does with the count is not part of this model | `FormsContainer.FormsContainerComponent.OnSubmitSuccessAsWritten` (shown by `FormsContainer.StaleCountAfterReset`) | `FormsContainer.FormsContainerComponent.OnSubmitSuccess` |

## Left out

- The RxJS timing of the username check: `debounceTime`, `distinctUntilChanged`, the cancellation done by `switchMap`, and `takeUntil`. This is stream scheduling. The model keeps only the guard and the step that applies the answer.
- The real `setInterval`/`clearInterval` timer. It is replaced by the explicit `Tick` and the `intervalActive` flag.
- The HTTP service (`src/app/services/user.service.ts`) and the module wiring (`src/app/app.module.ts`). The two backend calls are inputs and outcomes.
- Angular change detection, `EventEmitter` plumbing, the document click listener that closes the dropdown, `alert` and `console.error`.
- Blur events. Nothing in the model sets a control's `touched` flag, although the flag is part of each control and takes part in every rule about it.
- JavaScript date parsing, time zones and the `maxDate` string. Unparseable date strings are not modelled. Dates are day numbers.
- The static country list (the `COUNTRIES` module imported from `src/app/shared/enum/country` is not part of this model). It is a parameter.
- Unicode case folding. `Lower` folds ASCII letters only. Lengths, by contrast, follow JavaScript: `ShouldCheckUsername` counts UTF-16 code units (`Utf16Length`).
- `formTrackBy` (`forms-container.component.ts:37-39`). It is a rendering hint only.
