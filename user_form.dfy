/**
  One user form as a stateful component: three controls, the country dropdown
  state and the "checking username" indicator. Every change that Angular's
  `valueChanges` or the availability answer reports ends with `emitFormChange`,
  whose emitted snapshot is the value the methods return.
 */
module UserFormUnit {
  import opened Models
  import opened Collections
  import opened UserFormRules

  class UserFormComponent {
    const formId: Id
    /** The static country list the filter draws from. */
    const countries: seq<string>

    var country: Control<string>
    var username: Control<string>
    var birthdate: Control<DateInput>
    var showCountryDropdown: bool
    var filteredCountries: seq<string>
    var checkingUsername: bool
    /** The day on which the birthdate validators last ran. */
    ghost var validatedOn: int

    /**
      Each control's errors are what its validators last computed; the username
      control may in addition carry `taken`, and only while it holds a value.
      The dropdown lists countries of the static list, in list order.
     */
    ghost predicate Valid()
      reads this
    {
      && country.errors == RequiredText(country.value)
      && username.errors - {Taken} == RequiredText(username.value)
      && (Taken in username.errors ==> username.value != "")
      && birthdate.errors == BirthdateErrors(birthdate.value, validatedOn)
      && IsSubsequence(filteredCountries, countries)
    }

    /** The component after `ngOnInit` has built its form with `initForm`. */
    constructor (formId: Id, countries: seq<string>)
      ensures Valid()
      ensures this.formId == formId && this.countries == countries
      ensures country == NewTextControl() && username == NewTextControl()
      ensures birthdate == NewBirthdateControl()
      ensures filteredCountries == countries
      ensures !showCountryDropdown && !checkingUsername
      ensures !FormValid(country, username, birthdate)
    {
      this.formId := formId;
      this.countries := countries;
      country := NewTextControl();
      username := NewTextControl();
      birthdate := NewBirthdateControl();
      showCountryDropdown := false;
      filteredCountries := countries;
      checkingUsername := false;
      validatedOn := 0;
      SubsequenceReflexive(countries);
    }

    /** `emitFormChange`: the snapshot of the form's current state. */
    method EmitFormChange() returns (emitted: UserForm)
      ensures emitted == Snapshot(formId, country, username, birthdate)
      ensures emitted.id == formId
    {
      emitted := Snapshot(formId, country, username, birthdate);
    }

    /** `onRemove`: the removal request names this form. */
    method OnRemove() returns (id: Id)
      ensures id == formId
    {
      id := formId;
    }

    /** `filterCountries`: the dropdown lists the countries matching the typed query. */
    method FilterCountries(query: string)
      requires Valid()
      modifies this
      ensures Valid()
      ensures filteredCountries == MatchingCountries(query, countries)
      ensures country == old(country) && username == old(username) && birthdate == old(birthdate)
      ensures showCountryDropdown == old(showCountryDropdown) && checkingUsername == old(checkingUsername)
    {
      filteredCountries := MatchingCountries(query, countries);
    }

    /**
      `selectCountry`: the country control takes the chosen name (its validator
      re-runs), the dropdown closes, and the form emits its new snapshot.
     */
    method SelectCountry(c: string) returns (emitted: UserForm)
      requires Valid()
      modifies this
      ensures Valid()
      ensures country.value == c && country.errors == RequiredText(c)
      ensures country.dirty == old(country.dirty) && country.touched == old(country.touched)
      ensures !showCountryDropdown
      ensures username == old(username) && birthdate == old(birthdate)
      ensures filteredCountries == old(filteredCountries) && checkingUsername == old(checkingUsername)
      ensures emitted == Snapshot(formId, country, username, birthdate) && emitted.country == c
    {
      country := Control(c, RequiredText(c), country.dirty, country.touched);
      showCountryDropdown := false;
      emitted := EmitFormChange();
    }

    /**
      The user edits the username: the control turns dirty, its validator
      re-runs (which replaces any earlier `taken`), and the form emits.
     */
    method EditUsername(v: string) returns (emitted: UserForm)
      requires Valid()
      modifies this
      ensures Valid()
      ensures username == Control(v, RequiredText(v), true, old(username.touched))
      ensures Taken !in username.errors
      ensures country == old(country) && birthdate == old(birthdate)
      ensures showCountryDropdown == old(showCountryDropdown) && filteredCountries == old(filteredCountries)
      ensures checkingUsername == old(checkingUsername)
      ensures emitted == Snapshot(formId, country, username, birthdate)
    {
      username := Control(v, RequiredText(v), true, username.touched);
      emitted := EmitFormChange();
    }

    /**
      The user edits the birthdate on day `today`: the control turns dirty, the
      required and future-date validators re-run, and the form emits.
     */
    method EditBirthdate(d: DateInput, today: int) returns (emitted: UserForm)
      requires Valid()
      modifies this
      ensures Valid()
      ensures birthdate == Control(d, BirthdateErrors(d, today), true, old(birthdate.touched))
      ensures country == old(country) && username == old(username)
      ensures showCountryDropdown == old(showCountryDropdown) && filteredCountries == old(filteredCountries)
      ensures checkingUsername == old(checkingUsername)
      ensures emitted == Snapshot(formId, country, username, birthdate)
    {
      birthdate := Control(d, BirthdateErrors(d, today), true, birthdate.touched);
      validatedOn := today;
      emitted := EmitFormChange();
    }

    /**
      The guard in the availability pipeline: a debounced username value is
      checked only when it has at least three characters, and issuing the check
      raises the "checking" indicator.
     */
    method RequestUsernameCheck(name: string) returns (issued: bool)
      requires Valid()
      modifies this
      ensures Valid()
      ensures issued == ShouldCheckUsername(name)
      ensures checkingUsername == if issued then true else old(checkingUsername)
      ensures country == old(country) && username == old(username) && birthdate == old(birthdate)
      ensures showCountryDropdown == old(showCountryDropdown) && filteredCountries == old(filteredCountries)
    {
      issued := ShouldCheckUsername(name);
      if issued {
        checkingUsername := true;
      }
    }

    /**
      The availability answer arrives: the indicator drops, `taken` is merged
      into or removed from the username control's errors, and the form emits.
     */
    method ApplyUsernameCheck(isAvailable: bool) returns (emitted: UserForm)
      requires Valid()
      modifies this
      ensures Valid()
      ensures !checkingUsername
      ensures username.value == old(username.value)
      ensures username.dirty == old(username.dirty) && username.touched == old(username.touched)
      ensures username.errors == MergeTaken(old(username.value), old(username.errors), isAvailable)
      ensures country == old(country) && birthdate == old(birthdate)
      ensures showCountryDropdown == old(showCountryDropdown) && filteredCountries == old(filteredCountries)
      ensures emitted == Snapshot(formId, country, username, birthdate)
      ensures old(username.value) != "" && !isAvailable ==> !emitted.isValid && Username in emitted.errors
    {
      checkingUsername := false;
      username := username.(errors := MergeTaken(username.value, username.errors, isAvailable));
      emitted := EmitFormChange();
    }
  }
}
