/**
  The pure logic of one user form: the field validators, the guard on the
  username availability check, the merge of the `taken` error into the
  username control's errors, the error-message map and snapshot it emits, and
  the case-insensitive country filter.

  A control is its value, its set of error keys, and its dirty and touched
  flags. Angular stores "no errors" as `null`; here that is the empty set (the
  source never stores an empty error object: it passes `null` instead).
 */
module UserFormRules {
  import opened Models
  import opened Collections

  /** The error keys the form's validators and the availability check set. */
  datatype ErrorKey = Required | FutureDate | Taken

  datatype Control<T> = Control(value: T, errors: set<ErrorKey>, dirty: bool, touched: bool)

  const CountryMessage := "Please select a country"
  const UsernameMessage := "Please provide a correct Username"
  const BirthdateMessage := "Please provide a valid date"

  /** Names shorter than this are never sent to the availability check. */
  const MinCheckedLength := 3

  // ---------------------------------------------------------------------------
  // Validators

  /** `Validators.required` on a text control: only the empty string fails. */
  function RequiredText(value: string): (e: set<ErrorKey>)
    ensures e <= {Required}
    ensures Required in e <==> value == ""
  {
    if value == "" then {Required} else {}
  }

  /**
    The future-date validator: an empty value passes (that case is left to
    `required`); a day is rejected exactly when it lies strictly after today.
   */
  function FutureDateValidator(value: DateInput, today: int): (e: set<ErrorKey>)
    ensures e <= {FutureDate}
    ensures FutureDate in e <==> value.Day? && value.day > today
    ensures value == NoDate ==> e == {}
  {
    match value
    case NoDate => {}
    case Day(d) => if d > today then {FutureDate} else {}
  }

  /** The birthdate control's validators, `required` and future-date, merged. */
  function BirthdateErrors(value: DateInput, today: int): (e: set<ErrorKey>)
    ensures e <= {Required, FutureDate}
    ensures Required in e <==> value == NoDate
    ensures FutureDate in e <==> value.Day? && value.day > today
    ensures e == {} <==> value.Day? && value.day <= today
  {
    (if value == NoDate then {Required} else {}) + FutureDateValidator(value, today)
  }

  /** A text control as `initForm` builds it: empty, pristine, untouched. */
  function NewTextControl(): (c: Control<string>)
    ensures c.value == "" && !c.dirty && !c.touched
    ensures c.errors == RequiredText(c.value)
  {
    Control("", {Required}, false, false)
  }

  /** The birthdate control as `initForm` builds it; `required` fails whatever today is. */
  function NewBirthdateControl(): (c: Control<DateInput>)
    ensures c.value == NoDate && !c.dirty && !c.touched
    ensures forall today :: c.errors == BirthdateErrors(c.value, today)
  {
    Control(NoDate, {Required}, false, false)
  }

  // ---------------------------------------------------------------------------
  // Username availability

  /**
    `String.prototype.length`: the number of UTF-16 code units, where a
    character outside the Basic Multilingual Plane takes two.
   */
  function Utf16Length(s: string): (n: nat)
    ensures |s| <= n <= 2 * |s|
  {
    if s == [] then 0 else (if s[0] as int >= 0x1_0000 then 2 else 1) + Utf16Length(s[1..])
  }

  /** On text inside the Basic Multilingual Plane, code units and characters coincide. */
  lemma {:induction false} Utf16LengthInBmp(s: string)
    requires forall i :: 0 <= i < |s| ==> s[i] as int < 0x1_0000
    ensures Utf16Length(s) == |s|
  {
    if s != [] {
      Utf16LengthInBmp(s[1..]);
    }
  }

  /** Whether a (debounced, distinct) username value is sent to the availability check. */
  function ShouldCheckUsername(username: string): (issue: bool)
    ensures issue <==> Utf16Length(username) >= MinCheckedLength
    ensures |username| >= MinCheckedLength ==> issue
    ensures |username| < 2 ==> !issue
  {
    !(username == "" || Utf16Length(username) < MinCheckedLength)
  }

  /** Two characters outside the Basic Multilingual Plane are four code units, enough for a check. */
  lemma TwoAstralCharactersAreChecked()
    ensures ShouldCheckUsername("\U{1F600}\U{1F600}")
  {
    assert Utf16Length("\U{1F600}\U{1F600}") == 4;
  }

  /**
    The username control's errors after an availability answer: `taken` is
    added when the control holds a value that is not available; otherwise a
    `taken` key is removed. No other key is ever touched.
   */
  function MergeTaken(value: string, errors: set<ErrorKey>, isAvailable: bool): (r: set<ErrorKey>)
    ensures value != "" && !isAvailable ==> r == errors + {Taken}
    ensures !(value != "" && !isAvailable) ==> Taken !in r
    ensures Taken !in errors ==> (Taken in r <==> value != "" && !isAvailable)
    ensures r - {Taken} == errors - {Taken}
  {
    if value != "" && !isAvailable then errors + {Taken}
    else if Taken in errors then errors - {Taken}
    else errors
  }

  /** Applying the same availability answer twice is the same as applying it once. */
  lemma MergeTakenIdempotent(value: string, errors: set<ErrorKey>, isAvailable: bool)
    ensures MergeTaken(value, MergeTaken(value, errors, isAvailable), isAvailable)
         == MergeTaken(value, errors, isAvailable)
  {
  }

  // ---------------------------------------------------------------------------
  // Error messages and the emitted snapshot

  /** `isControlInvalid`: the control has an error and the user has interacted with it. */
  function IsControlInvalid<T>(c: Control<T>): (r: bool)
    ensures r ==> c.errors != {}
    ensures !c.dirty && !c.touched ==> !r
  {
    c.errors != {} && (c.dirty || c.touched)
  }

  /** `form.valid`: no control of the form carries an error. */
  function FormValid(country: Control<string>, username: Control<string>, birthdate: Control<DateInput>): (r: bool)
    ensures r ==> !IsControlInvalid(country) && !IsControlInvalid(username) && !IsControlInvalid(birthdate)
    ensures r ==> Taken !in username.errors
  {
    country.errors == {} && username.errors == {} && birthdate.errors == {}
  }

  /**
    The error-message map of `emitFormChange`. A field's message is shown once
    the control is invalid and dirty or touched; a `taken` username is reported
    even on a control the user has not interacted with.
   */
  function ErrorMessages(country: Control<string>, username: Control<string>, birthdate: Control<DateInput>): (m: map<Field, string>)
    ensures Country in m <==> IsControlInvalid(country)
    ensures Username in m <==> IsControlInvalid(username) || Taken in username.errors
    ensures Birthdate in m <==> IsControlInvalid(birthdate)
    ensures Country in m ==> m[Country] == CountryMessage
    ensures Username in m ==> m[Username] == UsernameMessage
    ensures Birthdate in m ==> m[Birthdate] == BirthdateMessage
  {
    var m0: map<Field, string> := map[];
    var m1 := if IsControlInvalid(country) then m0[Country := CountryMessage] else m0;
    var m2 := if IsControlInvalid(username) || Taken in username.errors then m1[Username := UsernameMessage] else m1;
    if IsControlInvalid(birthdate) then m2[Birthdate := BirthdateMessage] else m2
  }

  /** The `UserForm` that `emitFormChange` emits for form `formId`. */
  function Snapshot(formId: Id, country: Control<string>, username: Control<string>, birthdate: Control<DateInput>): (r: UserForm)
    ensures r.id == formId
    ensures r.country == country.value && r.username == username.value && r.birthdate == birthdate.value
    ensures r.isValid <==> country.errors == {} && username.errors == {} && birthdate.errors == {}
    ensures r.isValid ==> r.errors == map[]
    ensures r.errors == ErrorMessages(country, username, birthdate)
  {
    ValidFormHasNoMessages(country, username, birthdate);
    UserForm(formId, country.value, username.value, birthdate.value,
             FormValid(country, username, birthdate), ErrorMessages(country, username, birthdate))
  }

  /** A valid form shows no message at all. */
  lemma ValidFormHasNoMessages(country: Control<string>, username: Control<string>, birthdate: Control<DateInput>)
    ensures FormValid(country, username, birthdate) ==> ErrorMessages(country, username, birthdate) == map[]
  {
    var m := ErrorMessages(country, username, birthdate);
    if FormValid(country, username, birthdate) {
      forall f | f in m ensures false {
        match f
        case Country =>
        case Username =>
        case Birthdate =>
      }
    }
  }

  /**
    A freshly built form is invalid (every field fails `required`), yet it
    reports no message, because no control has been touched or edited yet.
   */
  lemma FreshFormInvalidButSilent(formId: Id)
    ensures !Snapshot(formId, NewTextControl(), NewTextControl(), NewBirthdateControl()).isValid
    ensures Snapshot(formId, NewTextControl(), NewTextControl(), NewBirthdateControl()).errors == map[]
  {
    var m := ErrorMessages(NewTextControl(), NewTextControl(), NewBirthdateControl());
    forall f | f in m ensures false {
      match f
      case Country =>
      case Username =>
      case Birthdate =>
    }
  }

  /** A username marked `taken` makes the snapshot invalid and always carries the username message. */
  lemma TakenIsReported(formId: Id, country: Control<string>, username: Control<string>, birthdate: Control<DateInput>)
    requires Taken in username.errors
    ensures !Snapshot(formId, country, username, birthdate).isValid
    ensures Snapshot(formId, country, username, birthdate).errors[Username] == UsernameMessage
  {
  }

  // ---------------------------------------------------------------------------
  // Country filter

  /** `toLowerCase`, restricted to ASCII letters. */
  function LowerChar(c: char): char
  {
    if 'A' <= c <= 'Z' then (c as int + 32) as char else c
  }

  /**
    `toLowerCase` on a string: no upper-case ASCII letter is left, each one is
    replaced by its lower-case letter, and every other character stays put.
   */
  function Lower(s: string): (r: string)
    ensures |r| == |s|
    ensures forall i :: 0 <= i < |r| ==> !('A' <= r[i] <= 'Z')
    ensures forall i :: 0 <= i < |s| && !('A' <= s[i] <= 'Z') ==> r[i] == s[i]
    ensures forall i :: 0 <= i < |s| && 'A' <= s[i] <= 'Z' ==> 'a' <= r[i] <= 'z' && r[i] as int - s[i] as int == 'a' as int - 'A' as int
  {
    seq(|s|, i requires 0 <= i < |s| => LowerChar(s[i]))
  }

  lemma LowerIdempotent(s: string)
    ensures Lower(Lower(s)) == Lower(s)
  {
  }

  /** `String.prototype.includes`: `needle` is a prefix of some suffix of `hay`. */
  predicate Includes(hay: string, needle: string)
  {
    needle <= hay || (hay != [] && Includes(hay[1..], needle))
  }

  /** `needle` occurs in `hay` starting at index `i`. */
  predicate OccursAt(hay: string, needle: string, i: nat)
  {
    i + |needle| <= |hay| && hay[i..i + |needle|] == needle
  }

  /** An occurrence in the tail of `hay` is an occurrence in `hay` one index later, and back. */
  lemma OccursShift(hay: string, needle: string, i: nat)
    requires hay != []
    ensures OccursAt(hay[1..], needle, i) <==> OccursAt(hay, needle, i + 1)
  {
    if i + 1 + |needle| <= |hay| {
      assert hay[1..][i..i + |needle|] == hay[i + 1..i + 1 + |needle|];
    }
  }

  /** `Includes` holds exactly when `needle` occurs in `hay` at some index. */
  lemma {:induction false} IncludesIsSubstring(hay: string, needle: string)
    ensures Includes(hay, needle) <==> exists i: nat :: OccursAt(hay, needle, i)
  {
    if needle <= hay {
      assert OccursAt(hay, needle, 0);
    } else if hay != [] {
      IncludesIsSubstring(hay[1..], needle);
      if Includes(hay[1..], needle) {
        var i: nat :| OccursAt(hay[1..], needle, i);
        OccursShift(hay, needle, i);
      } else {
        forall i: nat | OccursAt(hay, needle, i) ensures false {
          if i > 0 {
            OccursShift(hay, needle, i - 1);
          }
        }
      }
    }
  }

  /** `filterCountries`: the countries whose lower-case name contains the lower-case query, in list order. */
  function MatchingCountries(query: string, countries: seq<string>): (r: seq<string>)
    ensures forall c :: c in r ==> c in countries && Includes(Lower(c), Lower(query))
    ensures forall c :: c in countries && Includes(Lower(c), Lower(query)) ==> c in r
    ensures forall c :: multiset(r)[c] == if Includes(Lower(c), Lower(query)) then multiset(countries)[c] else 0
    ensures IsSubsequence(r, countries)
  {
    if countries == [] then []
    else
      var rest := MatchingCountries(query, countries[1..]);
      assert countries == [countries[0]] + countries[1..];
      if Includes(Lower(countries[0]), Lower(query)) then [countries[0]] + rest else rest
  }

  /** An empty query keeps every country. */
  lemma {:induction false} EmptyQueryKeepsAll(countries: seq<string>)
    ensures MatchingCountries("", countries) == countries
  {
    if countries != [] {
      EmptyQueryKeepsAll(countries[1..]);
      assert Includes(Lower(countries[0]), Lower(""));
    }
  }

  /** The filter ignores the case of the query. */
  lemma {:induction false} QueryCaseIgnored(query: string, countries: seq<string>)
    ensures MatchingCountries(Lower(query), countries) == MatchingCountries(query, countries)
  {
    LowerIdempotent(query);
    if countries != [] {
      QueryCaseIgnored(query, countries[1..]);
    }
  }
}
