/**
  The container of user forms: the ordered list of live form ids, the latest
  snapshot of each form, the id counter, the cached count of invalid
  snapshots, and the countdown that precedes a bulk submission.
 */
module FormsContainer {
  import opened Models
  import opened Collections

  /** Seconds of countdown before the submission starts. */
  const CountdownStart := 5

  // ---------------------------------------------------------------------------
  // The snapshot table and what is derived from it

  /** Every snapshot is stored under the id it carries, as `onFormChange` stores it. */
  ghost predicate KeyedById(values: map<Id, UserForm>)
  {
    forall k :: k in values ==> values[k].id == k
  }

  function InvalidKeys(values: map<Id, UserForm>): set<Id>
  {
    set k | k in values && !values[k].isValid
  }

  function ValidKeys(values: map<Id, UserForm>): set<Id>
  {
    set k | k in values && values[k].isValid
  }

  /** The number of stored snapshots that are not valid; never more than the table holds. */
  function InvalidCount(values: map<Id, UserForm>): nat
  {
    |InvalidKeys(values)|
  }

  /** Every snapshot is either valid or invalid. */
  lemma ValidAndInvalidPartition(values: map<Id, UserForm>)
    ensures |ValidKeys(values)| + InvalidCount(values) == |values|
  {
    assert ValidKeys(values) + InvalidKeys(values) == values.Keys;
    assert ValidKeys(values) * InvalidKeys(values) == {};
  }

  /** No invalid snapshot is counted exactly when every snapshot is valid. */
  lemma InvalidCountZeroIffAllValid(values: map<Id, UserForm>)
    ensures InvalidCount(values) == 0 <==> forall k :: k in values ==> values[k].isValid
  {
    if forall k :: k in values ==> values[k].isValid {
      assert InvalidKeys(values) == {};
    } else {
      var k :| k in values && !values[k].isValid;
      assert k in InvalidKeys(values);
    }
  }

  /** Storing a snapshot changes the count by the validity of the entry replaced and of the entry stored. */
  lemma InvalidCountAfterStore(values: map<Id, UserForm>, r: UserForm)
    ensures InvalidCount(values[r.id := r])
         == InvalidCount(values)
            - (if r.id in values && !values[r.id].isValid then 1 else 0)
            + (if r.isValid then 0 else 1)
  {
    var before := InvalidKeys(values);
    var after := InvalidKeys(values[r.id := r]);
    var others := before - {r.id};
    assert after == if r.isValid then others else others + {r.id};
    assert |others| == |before| - (if r.id in before then 1 else 0);
  }

  /** Deleting a key removes its snapshot from the count if that snapshot was invalid. */
  lemma InvalidCountAfterDelete(values: map<Id, UserForm>, id: Id)
    ensures InvalidCount(values - {id})
         == InvalidCount(values) - (if id in values && !values[id].isValid then 1 else 0)
  {
    assert InvalidKeys(values - {id}) == InvalidKeys(values) - {id};
  }

  /** `.map(...)` over the given keys: each key's snapshot stripped of `isValid` and `errors`. */
  function StripEach(values: map<Id, UserForm>, keys: seq<Id>): (p: seq<Submission>)
    requires forall k :: k in keys ==> k in values
    ensures |p| == |keys|
  {
    if keys == [] then [] else [Strip(values[keys[0]])] + StripEach(values, keys[1..])
  }

  /** The `i`-th element of the projection is the `i`-th key's snapshot, stripped. */
  lemma {:induction false} StripEachAt(values: map<Id, UserForm>, keys: seq<Id>)
    requires forall k :: k in keys ==> k in values
    ensures forall i :: 0 <= i < |keys| ==> StripEach(values, keys)[i] == Strip(values[keys[i]])
  {
    if keys != [] {
      StripEachAt(values, keys[1..]);
      var p := StripEach(values, keys);
      forall i | 0 <= i < |keys| ensures p[i] == Strip(values[keys[i]]) {
        if i > 0 {
          assert p[i] == StripEach(values, keys[1..])[i - 1];
        }
      }
    }
  }

  /**
    The body of the submit request: the valid snapshots, in ascending id order
    (the order in which `Object.values` lists integer keys), each stripped of
    `isValid` and `errors`.
   */
  function SubmitPayload(values: map<Id, UserForm>): seq<Submission>
  {
    StripEach(values, Ascending(ValidKeys(values)))
  }

  /**
    The payload holds every valid snapshot and nothing else, each stripped;
    its length is the table size minus the invalid count; ids increase.
   */
  lemma SubmitPayloadSpec(values: map<Id, UserForm>)
    ensures |SubmitPayload(values)| == |values| - InvalidCount(values)
    ensures forall k :: k in values && values[k].isValid ==> Strip(values[k]) in SubmitPayload(values)
    ensures forall s :: s in SubmitPayload(values) ==>
      exists k :: k in values && values[k].isValid && s == Strip(values[k])
    ensures KeyedById(values) ==>
      forall i, j :: 0 <= i < j < |SubmitPayload(values)| ==> SubmitPayload(values)[i].id < SubmitPayload(values)[j].id
  {
    var keys := Ascending(ValidKeys(values));
    ValidAndInvalidPartition(values);
    PayloadContents(values, keys);
  }

  /** Projecting the valid keys in ascending order gives the stripped valid snapshots, ordered by id. */
  lemma PayloadContents(values: map<Id, UserForm>, keys: seq<Id>)
    requires forall k :: k in keys <==> k in ValidKeys(values)
    requires StrictlyIncreasing(keys)
    ensures forall k :: k in values && values[k].isValid ==> Strip(values[k]) in StripEach(values, keys)
    ensures forall s :: s in StripEach(values, keys) ==>
      exists k :: k in values && values[k].isValid && s == Strip(values[k])
    ensures KeyedById(values) ==>
      forall i, j :: 0 <= i < j < |keys| ==> StripEach(values, keys)[i].id < StripEach(values, keys)[j].id
  {
    var p := StripEach(values, keys);
    StripEachAt(values, keys);
    forall k | k in values && values[k].isValid ensures Strip(values[k]) in p {
      assert k in ValidKeys(values);
      var i :| 0 <= i < |keys| && keys[i] == k;
      assert p[i] == Strip(values[k]);
    }
    forall s | s in p ensures exists k :: k in values && values[k].isValid && s == Strip(values[k]) {
      var i :| 0 <= i < |p| && p[i] == s;
      assert keys[i] in keys;
      assert keys[i] in ValidKeys(values);
    }
    if KeyedById(values) {
      forall i, j | 0 <= i < j < |keys| ensures p[i].id < p[j].id {
        assert keys[i] in keys && keys[j] in keys;
      }
    }
  }

  /** One valid snapshot is sent as that record without `isValid` and `errors`. */
  lemma PayloadOfOneValidForm(f: UserForm)
    requires f.isValid
    ensures SubmitPayload(map[f.id := f]) == [Submission(f.id, f.country, f.username, f.birthdate)]
  {
    var values := map[f.id := f];
    assert InvalidKeys(values) == {};
    SubmitPayloadSpec(values);
    var p := SubmitPayload(values);
    assert |p| == 1;
    assert p[0] in p;
  }

  /** The projection depends only on the snapshots stored under the listed keys. */
  lemma {:induction false} StripEachAgrees(v: map<Id, UserForm>, w: map<Id, UserForm>, keys: seq<Id>)
    requires forall k :: k in keys ==> k in v && k in w && v[k] == w[k]
    ensures StripEach(v, keys) == StripEach(w, keys)
  {
    if keys != [] {
      StripEachAgrees(v, w, keys[1..]);
    }
  }

  /** Storing an invalid snapshot sends the same payload as having no snapshot under that id. */
  lemma InvalidSnapshotNotSent(values: map<Id, UserForm>, f: UserForm)
    requires !f.isValid
    ensures SubmitPayload(values[f.id := f]) == SubmitPayload(values - {f.id})
  {
    var v := values[f.id := f];
    var w := values - {f.id};
    assert ValidKeys(v) == ValidKeys(w);
    StripEachAgrees(v, w, Ascending(ValidKeys(v)));
  }

  // ---------------------------------------------------------------------------
  // The component

  class FormsContainerComponent {
    var forms: seq<Id>
    var formValues: map<Id, UserForm>
    var nextId: nat
    var invalidFormsCount: nat
    var countdownValue: int
    var isCountingDown: bool
    var isSubmitting: bool
    /** Whether `countdownInterval` holds a registered interval, so that its callback keeps firing. */
    var intervalActive: bool

    /**
      Ids are distinct and all below the counter; each snapshot sits under its
      own id; the countdown stays within 0..5 and is at least 1 while it runs;
      the interval is registered exactly while the countdown runs.
     */
    ghost predicate Valid()
      reads this
    {
      && Distinct(forms)
      && (forall id :: id in forms ==> id < nextId)
      && KeyedById(formValues)
      && 0 <= countdownValue <= CountdownStart
      && (isCountingDown ==> countdownValue >= 1)
      && intervalActive == isCountingDown
    }

    /** The cached count agrees with the snapshot table. */
    ghost predicate CountCached()
      reads this
    {
      invalidFormsCount == InvalidCount(formValues)
    }

    /** Every stored snapshot belongs to a live form. */
    ghost predicate SnapshotsTracked()
      reads this
    {
      forall k :: k in formValues ==> k in forms
    }

    /** The field initialisers. */
    constructor ()
      ensures Valid() && CountCached() && SnapshotsTracked()
      ensures forms == [] && formValues == map[] && nextId == 1 && invalidFormsCount == 0
      ensures countdownValue == CountdownStart && !isCountingDown && !isSubmitting && !intervalActive
    {
      forms := [];
      formValues := map[];
      nextId := 1;
      invalidFormsCount := 0;
      countdownValue := CountdownStart;
      isCountingDown := false;
      isSubmitting := false;
      intervalActive := false;
    }

    /** `ngOnInit`: the container starts with one form. */
    method NgOnInit()
      requires Valid()
      modifies this
      ensures Valid()
      ensures forms == old(forms) + [old(nextId)] && nextId == old(nextId) + 1
      ensures formValues == old(formValues) && invalidFormsCount == old(invalidFormsCount)
      ensures countdownValue == old(countdownValue) && isCountingDown == old(isCountingDown)
      ensures isSubmitting == old(isSubmitting) && intervalActive == old(intervalActive)
      ensures old(CountCached()) ==> CountCached()
      ensures old(SnapshotsTracked()) ==> SnapshotsTracked()
    {
      AddForm();
    }

    /**
      `canSubmit`: some snapshot exists and the cached invalid count is zero.
      While the cache is accurate this means that every stored snapshot is
      valid; a form that never emitted a snapshot does not take part.
     */
    function CanSubmit(): (r: bool)
      reads this
      ensures CountCached() ==> (r <==> |formValues| > 0 && forall k :: k in formValues ==> formValues[k].isValid)
    {
      InvalidCountZeroIffAllValid(formValues);
      |formValues| > 0 && invalidFormsCount == 0
    }

    /** `addForm`: a fresh id is appended; no snapshot exists for it yet. */
    method AddForm()
      requires Valid()
      modifies this
      ensures Valid()
      ensures forms == old(forms) + [old(nextId)] && nextId == old(nextId) + 1
      ensures formValues == old(formValues) && invalidFormsCount == old(invalidFormsCount)
      ensures countdownValue == old(countdownValue) && isCountingDown == old(isCountingDown)
      ensures isSubmitting == old(isSubmitting) && intervalActive == old(intervalActive)
      ensures old(CountCached()) ==> CountCached()
      ensures old(SnapshotsTracked()) ==> SnapshotsTracked()
      ensures CanSubmit() == old(CanSubmit())
    {
      assert nextId !in forms;
      forms := forms + [nextId];
      nextId := nextId + 1;
    }

    /** The private `updateInvalidFormsCount`: recount the invalid snapshots. */
    method UpdateInvalidFormsCount()
      modifies this`invalidFormsCount
      ensures CountCached()
    {
      invalidFormsCount := InvalidCount(formValues);
    }

    /**
      `removeForm`: every entry with this id leaves the list (the others keep
      their order), its snapshot leaves the table, and the count is redone.
     */
    method RemoveForm(id: Id)
      requires Valid()
      modifies this
      ensures Valid() && CountCached()
      ensures forms == Without(old(forms), id) && id !in forms
      ensures formValues == old(formValues) - {id}
      ensures id !in old(forms) ==> forms == old(forms)
      ensures id !in old(formValues) ==> formValues == old(formValues)
      ensures old(CountCached()) ==>
        invalidFormsCount == old(invalidFormsCount) - (if id in old(formValues) && !old(formValues)[id].isValid then 1 else 0)
      ensures nextId == old(nextId)
      ensures countdownValue == old(countdownValue) && isCountingDown == old(isCountingDown)
      ensures isSubmitting == old(isSubmitting) && intervalActive == old(intervalActive)
      ensures old(SnapshotsTracked()) ==> SnapshotsTracked()
    {
      forms := Without(forms, id);
      formValues := formValues - {id};
      UpdateInvalidFormsCount();
      InvalidCountAfterDelete(old(formValues), id);
    }

    /** `onFormChange`: the snapshot replaces the one stored under its id, and the count is redone. */
    method OnFormChange(formData: UserForm)
      requires Valid()
      modifies this
      ensures Valid() && CountCached()
      ensures formValues == old(formValues)[formData.id := formData]
      ensures old(CountCached()) ==>
        invalidFormsCount == old(invalidFormsCount)
          - (if formData.id in old(formValues) && !old(formValues)[formData.id].isValid then 1 else 0)
          + (if formData.isValid then 0 else 1)
      ensures forms == old(forms) && nextId == old(nextId)
      ensures countdownValue == old(countdownValue) && isCountingDown == old(isCountingDown)
      ensures isSubmitting == old(isSubmitting) && intervalActive == old(intervalActive)
      ensures old(SnapshotsTracked()) && formData.id in forms ==> SnapshotsTracked()
    {
      formValues := formValues[formData.id := formData];
      UpdateInvalidFormsCount();
      InvalidCountAfterStore(old(formValues), formData);
    }

    /**
      `startSubmitCountdown`: ignored while a countdown or a submission is under
      way; otherwise the countdown starts from 5 and the interval is registered.
     */
    method StartSubmitCountdown()
      requires Valid()
      modifies this
      ensures Valid()
      ensures old(isCountingDown || isSubmitting) ==>
        countdownValue == old(countdownValue) && isCountingDown == old(isCountingDown) && intervalActive == old(intervalActive)
      ensures !old(isCountingDown || isSubmitting) ==>
        countdownValue == CountdownStart && isCountingDown && intervalActive
      ensures isSubmitting == old(isSubmitting)
      ensures forms == old(forms) && formValues == old(formValues) && nextId == old(nextId)
      ensures invalidFormsCount == old(invalidFormsCount)
    {
      if isCountingDown || isSubmitting {
        return;
      }
      isCountingDown := true;
      countdownValue := CountdownStart;
      intervalActive := true;
    }

    /** The private `submitForms`: the submission is marked under way and its payload computed. */
    method SubmitForms() returns (payload: seq<Submission>)
      modifies this`isSubmitting
      ensures isSubmitting
      ensures payload == SubmitPayload(formValues)
    {
      isSubmitting := true;
      payload := SubmitPayload(formValues);
    }

    /**
      One firing of the countdown interval. Nothing fires once the interval is
      cleared. Each firing lowers the countdown by one; the firing that brings
      it to 0 clears the interval, ends the countdown and starts the
      submission, whose payload is returned.
     */
    method Tick() returns (sent: Option<seq<Submission>>)
      requires Valid()
      modifies this
      ensures Valid()
      ensures !old(intervalActive) ==>
        sent == None && countdownValue == old(countdownValue) && !isCountingDown && isSubmitting == old(isSubmitting)
      ensures old(intervalActive) ==> countdownValue == old(countdownValue) - 1
      ensures old(intervalActive) && countdownValue > 0 ==>
        sent == None && isCountingDown && intervalActive && isSubmitting == old(isSubmitting)
      ensures old(intervalActive) && countdownValue == 0 ==>
        !isCountingDown && !intervalActive && isSubmitting && sent == Some(SubmitPayload(formValues))
      ensures forms == old(forms) && formValues == old(formValues) && nextId == old(nextId)
      ensures invalidFormsCount == old(invalidFormsCount)
    {
      if !intervalActive {
        sent := None;
        return;
      }
      countdownValue := countdownValue - 1;
      if countdownValue <= 0 {
        intervalActive := false;
        isCountingDown := false;
        var payload := SubmitForms();
        sent := Some(payload);
      } else {
        sent := None;
      }
    }

    /**
      The success handler exactly as the source writes it: a truthy `result`
      empties both collections and restarts with one form, but the cached
      invalid count is left as it was.
     */
    method OnSubmitSuccessAsWritten(result: Option<string>)
      requires Valid()
      modifies this
      ensures Valid() && !isSubmitting
      ensures invalidFormsCount == old(invalidFormsCount)
      ensures result.Some? && result.value != "" ==> forms == [1] && formValues == map[] && nextId == 2
      ensures !(result.Some? && result.value != "") ==>
        forms == old(forms) && formValues == old(formValues) && nextId == old(nextId)
      ensures countdownValue == old(countdownValue) && isCountingDown == old(isCountingDown)
      ensures intervalActive == old(intervalActive)
      ensures result.Some? && result.value != "" ==> (CountCached() <==> old(invalidFormsCount) == 0)
    {
      isSubmitting := false;
      if result.Some? && result.value != "" {
        forms := [];
        formValues := map[];
        nextId := 1;
        AddForm();
      }
    }

    /**
      The success handler with the reset completed: a truthy `result` empties
      both collections, restarts with one form and an accurate count of zero;
      otherwise only the submission flag drops.
     */
    method OnSubmitSuccess(result: Option<string>)
      requires Valid()
      modifies this
      ensures Valid() && !isSubmitting
      ensures result.Some? && result.value != "" ==>
        forms == [1] && formValues == map[] && nextId == 2 && invalidFormsCount == 0
        && CountCached() && SnapshotsTracked()
      ensures !(result.Some? && result.value != "") ==>
        forms == old(forms) && formValues == old(formValues) && nextId == old(nextId)
        && invalidFormsCount == old(invalidFormsCount)
      ensures old(CountCached()) ==> CountCached()
      ensures old(SnapshotsTracked()) ==> SnapshotsTracked()
      ensures countdownValue == old(countdownValue) && isCountingDown == old(isCountingDown)
      ensures intervalActive == old(intervalActive)
    {
      isSubmitting := false;
      if result.Some? && result.value != "" {
        forms := [];
        formValues := map[];
        nextId := 1;
        UpdateInvalidFormsCount();
        AddForm();
      }
    }

    /** The error handler: the submission flag drops and every form keeps its data for a retry. */
    method OnSubmitError()
      requires Valid()
      modifies this
      ensures Valid() && !isSubmitting
      ensures forms == old(forms) && formValues == old(formValues) && nextId == old(nextId)
      ensures invalidFormsCount == old(invalidFormsCount)
      ensures countdownValue == old(countdownValue) && isCountingDown == old(isCountingDown)
      ensures intervalActive == old(intervalActive)
    {
      isSubmitting := false;
    }

    /**
      `cancelSubmit`: the interval is cleared, both flags drop and the
      countdown is back at 5; the form data is untouched.
     */
    method CancelSubmit()
      requires Valid()
      modifies this
      ensures Valid()
      ensures !isCountingDown && !isSubmitting && !intervalActive && countdownValue == CountdownStart
      ensures forms == old(forms) && formValues == old(formValues) && nextId == old(nextId)
      ensures invalidFormsCount == old(invalidFormsCount)
    {
      intervalActive := false;
      isCountingDown := false;
      isSubmitting := false;
      countdownValue := CountdownStart;
    }
  }

  /**
    The countdown from idle: four firings keep counting down without
    submitting, and the fifth starts the submission with the payload of the
    table at that moment.
   */
  method CountdownSubmitsOnFifthTick(c: FormsContainerComponent)
    returns (sent: seq<Option<seq<Submission>>>)
    requires c.Valid() && !c.isCountingDown && !c.isSubmitting
    modifies c
    ensures c.Valid()
    ensures |sent| == CountdownStart
    ensures forall i :: 0 <= i < CountdownStart - 1 ==> sent[i] == None
    ensures sent[CountdownStart - 1] == Some(SubmitPayload(c.formValues))
    ensures c.isSubmitting && !c.isCountingDown && c.countdownValue == 0
    ensures c.formValues == old(c.formValues) && c.forms == old(c.forms) && c.nextId == old(c.nextId)
    ensures c.invalidFormsCount == old(c.invalidFormsCount)
  {
    c.StartSubmitCountdown();
    sent := [];
    var i := 0;
    while i < CountdownStart
      invariant 0 <= i <= CountdownStart
      invariant c.Valid() && |sent| == i
      invariant forall j :: 0 <= j < i && j < CountdownStart - 1 ==> sent[j] == None
      invariant i < CountdownStart ==> c.isCountingDown && c.countdownValue == CountdownStart - i
      invariant i == CountdownStart ==> sent[CountdownStart - 1] == Some(SubmitPayload(c.formValues))
      invariant i == CountdownStart ==> c.isSubmitting && !c.isCountingDown && c.countdownValue == 0
      invariant c.formValues == old(c.formValues) && c.forms == old(c.forms) && c.nextId == old(c.nextId)
      invariant c.invalidFormsCount == old(c.invalidFormsCount)
    {
      var s := c.Tick();
      sent := sent + [s];
      i := i + 1;
    }
  }

  /** A table of one valid and one invalid snapshot sends only the valid one. */
  lemma OnlyValidFormSent(valid: UserForm, invalid: UserForm)
    requires valid.isValid && !invalid.isValid && valid.id != invalid.id
    ensures SubmitPayload(map[valid.id := valid][invalid.id := invalid]) == [Strip(valid)]
  {
    InvalidSnapshotNotSent(map[valid.id := valid], invalid);
    assert map[valid.id := valid] - {invalid.id} == map[valid.id := valid];
    PayloadOfOneValidForm(valid);
  }

  /**
    A countdown during which one form emits a new snapshot after the fourth
    firing: the fifth firing sends the payload of the table that already holds
    the late snapshot, and the cached count stays accurate throughout.
   */
  method EditDuringCountdown(c: FormsContainerComponent, late: UserForm)
    returns (fifth: Option<seq<Submission>>)
    requires c.Valid() && c.CountCached() && !c.isCountingDown && !c.isSubmitting
    modifies c
    ensures c.Valid() && c.CountCached()
    ensures c.formValues == old(c.formValues)[late.id := late]
    ensures fifth == Some(SubmitPayload(c.formValues))
    ensures c.isSubmitting && !c.isCountingDown
    ensures c.forms == old(c.forms) && c.nextId == old(c.nextId)
  {
    c.StartSubmitCountdown();
    var t1 := c.Tick();
    var t2 := c.Tick();
    var t3 := c.Tick();
    var t4 := c.Tick();
    c.OnFormChange(late);
    fifth := c.Tick();
  }

  /**
    A run that leaves the cached count stale under the as-written success
    handler: form 2 turns invalid during the countdown, so the fifth firing
    sends form 1 only; the reset after success empties the table but keeps
    counting form 2.
   */
  method StaleCountAfterReset() returns (fifth: Option<seq<Submission>>, cached: nat, actual: nat)
    ensures fifth == Some([Submission(1, "Mexico", "Bob New", Day(0))])
    ensures cached == 1 && actual == 0
  {
    var form1 := UserForm(1, "Mexico", "Bob New", Day(0), true, map[]);
    var form2 := UserForm(2, "", "", NoDate, false, map[Country := "Please select a country"]);
    var c := new FormsContainerComponent();
    c.NgOnInit();
    c.AddForm();
    c.OnFormChange(form1);
    fifth := EditDuringCountdown(c, form2);
    OnlyValidFormSent(form1, form2);
    assert InvalidKeys(c.formValues) == {2};
    c.OnSubmitSuccessAsWritten(Some("nice job"));
    cached := c.invalidFormsCount;
    actual := InvalidCount(c.formValues);
  }
}
