/** The student intake form: a four-step wizard (personal details, subject
    selection, marks, review) whose component owns two state cells, the
    1-based `currentStep` and the `formData` record.

    The new value of each cell is computed by pure functions (record update,
    filter, append, map update); `IntakeForm` is the component itself, a class
    whose event handlers replace its two fields. `Session`, `Apply` and `Replay`
    describe what a sequence of user events does, so that properties of every
    run from the initial state can be stated. */
module StudentIntakeForm {
  import ProgressSteps

  /** The labels of the four steps (`FORM_STEPS`). */
  const FormSteps: seq<string> := ["Person Info", "Sub Selection", "Marks", "Review"]

  /** `FORM_STEPS.length`: the number of the last step. */
  const StepCount: nat := |FormSteps|

  /** The ids of the subjects offered for selection (`SUBJECTS`). */
  const SubjectIds: seq<string> := ["mathematics", "physics", "chemistry", "biology", "english", "history"]

  datatype Option<T> = None | Some(value: T)

  /** The input names that `handleInputChange` receives on step 1. */
  datatype PersonalField = FirstName | LastName | Email | Phone | School | GuardianContact

  datatype MarksField = CurrentMarks | TargetMarks

  /** One subject's marks entry. A field that has never been set is `None`:
      a new entry is built by spreading `undefined`, so only the field that
      was written exists. */
  datatype SubjectMarks = SubjectMarks(currentMarks: Option<string>, targetMarks: Option<string>)

  datatype FormData = FormData(
    firstName: string,
    lastName: string,
    email: string,
    phone: string,
    school: string,
    guardianContact: string,
    selectedSubjects: seq<string>,
    marks: map<string, SubjectMarks>)

  /** The value `formData` starts with: empty strings, no subjects, no marks. */
  const InitialFormData: FormData := FormData("", "", "", "", "", "", [], map[])

  // ---------------------------------------------------------------------------
  // Personal details

  function FieldValue(d: FormData, f: PersonalField): string
  {
    match f
    case FirstName => d.firstName
    case LastName => d.lastName
    case Email => d.email
    case Phone => d.phone
    case School => d.school
    case GuardianContact => d.guardianContact
  }

  /** `{ ...prev, [name]: value }`: the named field gets `v`, everything else stays. */
  function WithField(d: FormData, f: PersonalField, v: string): (r: FormData)
    ensures FieldValue(r, f) == v
    ensures forall g :: g != f ==> FieldValue(r, g) == FieldValue(d, g)
    ensures r.selectedSubjects == d.selectedSubjects && r.marks == d.marks
  {
    match f
    case FirstName => d.(firstName := v)
    case LastName => d.(lastName := v)
    case Email => d.(email := v)
    case Phone => d.(phone := v)
    case School => d.(school := v)
    case GuardianContact => d.(guardianContact := v)
  }

  /** Writing the value a field already holds changes nothing, and a second
      write to the same field overrides the first. */
  lemma WithFieldOverwrites(d: FormData, f: PersonalField, v: string, w: string)
    ensures WithField(d, f, FieldValue(d, f)) == d
    ensures WithField(WithField(d, f, v), f, w) == WithField(d, f, w)
  {
  }

  // ---------------------------------------------------------------------------
  // Subject selection

  /** `s.filter(x => x !== id)`: every occurrence of `id` removed, order kept. */
  function Remove(s: seq<string>, id: string): (r: seq<string>)
    ensures multiset(r) == multiset(s)[id := 0]
    ensures forall x :: x in r <==> x in s && x != id
  {
    if s == [] then []
    else
      assert s == [s[0]] + s[1..];
      if s[0] == id then Remove(s[1..], id) else [s[0]] + Remove(s[1..], id)
  }

  /** Filtering distributes over concatenation: the relative order of the
      remaining ids is that of the input. */
  lemma {:induction false} RemoveAppend(a: seq<string>, b: seq<string>, id: string)
    ensures Remove(a + b, id) == Remove(a, id) + Remove(b, id)
  {
    if a == [] {
      assert a + b == b;
    } else {
      assert (a + b)[1..] == a[1..] + b;
      RemoveAppend(a[1..], b, id);
    }
  }

  /** Filtering out an id that is not there returns the list unchanged. */
  lemma {:induction false} RemoveAbsent(s: seq<string>, id: string)
    requires id !in s
    ensures Remove(s, id) == s
  {
    if s != [] {
      RemoveAbsent(s[1..], id);
      assert s == [s[0]] + s[1..];
    }
  }

  /** No id occurs twice. */
  predicate Distinct(s: seq<string>)
  {
    forall i, j :: 0 <= i < j < |s| ==> s[i] != s[j]
  }

  lemma {:induction false} RemoveKeepsDistinct(s: seq<string>, id: string)
    requires Distinct(s)
    ensures Distinct(Remove(s, id))
  {
    if s != [] {
      assert Distinct(s[1..]) by {
        forall i, j | 0 <= i < j < |s[1..]| ensures s[1..][i] != s[1..][j] {
          assert s[1..][i] == s[i + 1] && s[1..][j] == s[j + 1];
        }
      }
      RemoveKeepsDistinct(s[1..], id);
      if s[0] != id {
        var t := Remove(s[1..], id);
        assert s[0] !in s[1..] by {
          forall k | 0 <= k < |s[1..]| ensures s[1..][k] != s[0] {
            assert s[1..][k] == s[k + 1];
          }
        }
        assert s[0] !in t;
        var r := [s[0]] + t;
        forall i, j | 0 <= i < j < |r| ensures r[i] != r[j] {
          if i == 0 {
            assert r[j] == t[j - 1];
          } else {
            assert r[i] == t[i - 1] && r[j] == t[j - 1];
          }
        }
      }
    }
  }

  /** A distinct list holds each id at most once. */
  lemma {:induction false} DistinctOccursOnce(s: seq<string>, id: string)
    requires Distinct(s)
    ensures multiset(s)[id] <= 1
  {
    if s != [] {
      assert s == [s[0]] + s[1..];
      assert Distinct(s[1..]) by {
        forall i, j | 0 <= i < j < |s[1..]| ensures s[1..][i] != s[1..][j] {
          assert s[1..][i] == s[i + 1] && s[1..][j] == s[j + 1];
        }
      }
      DistinctOccursOnce(s[1..], id);
      if s[0] == id {
        assert id !in s[1..] by {
          forall k | 0 <= k < |s[1..]| ensures s[1..][k] != id {
            assert s[1..][k] == s[k + 1];
          }
        }
      }
    }
  }

  /** `handleSubjectChange`'s new list: the id is removed if selected and
      appended at the end otherwise. */
  function Toggle(s: seq<string>, id: string): (r: seq<string>)
    ensures id in r <==> id !in s
    ensures forall x :: x != id ==> (x in r <==> x in s)
    ensures id in s ==> r == Remove(s, id)
    ensures id !in s ==> |r| == |s| + 1 && r[..|s|] == s && r[|s|] == id
  {
    if id in s then Remove(s, id) else s + [id]
  }

  /** Toggling keeps the selection free of duplicates. */
  lemma ToggleKeepsDistinct(s: seq<string>, id: string)
    requires Distinct(s)
    ensures Distinct(Toggle(s, id))
  {
    if id in s {
      RemoveKeepsDistinct(s, id);
    }
  }

  /** Selecting an unselected subject and deselecting it again restores the list exactly. */
  lemma ToggleTwiceAbsent(s: seq<string>, id: string)
    requires id !in s
    ensures Toggle(Toggle(s, id), id) == s
  {
    RemoveAppend(s, [id], id);
    RemoveAbsent(s, id);
    assert Remove([id], id) == [];
  }

  /** Deselecting a selected subject and selecting it again moves it to the
      end: same subjects, same multiplicities, the others in their old order. */
  lemma ToggleTwicePresent(s: seq<string>, id: string)
    requires Distinct(s) && id in s
    ensures Toggle(Toggle(s, id), id) == Remove(s, id) + [id]
    ensures multiset(Toggle(Toggle(s, id), id)) == multiset(s)
  {
    DistinctOccursOnce(s, id);
  }

  // ---------------------------------------------------------------------------
  // Marks

  /** `prev.marks[id]`, with a missing entry read as an entry with no fields. */
  function EntryOf(marks: map<string, SubjectMarks>, id: string): SubjectMarks
  {
    if id in marks then marks[id] else SubjectMarks(None, None)
  }

  function MarkOf(e: SubjectMarks, f: MarksField): Option<string>
  {
    match f
    case CurrentMarks => e.currentMarks
    case TargetMarks => e.targetMarks
  }

  function OtherField(f: MarksField): MarksField
  {
    match f
    case CurrentMarks => TargetMarks
    case TargetMarks => CurrentMarks
  }

  /** `handleMarksChange`'s new map: entry `id` gets field `f` set to `v`,
      creating the entry if needed. */
  function SetMark(marks: map<string, SubjectMarks>, id: string, f: MarksField, v: string): (r: map<string, SubjectMarks>)
    ensures r.Keys == marks.Keys + {id}
    ensures MarkOf(r[id], f) == Some(v)
    ensures MarkOf(r[id], OtherField(f)) == MarkOf(EntryOf(marks, id), OtherField(f))
    ensures id !in marks ==> MarkOf(r[id], OtherField(f)) == None
    ensures forall k :: k in marks && k != id ==> r[k] == marks[k]
  {
    var e := EntryOf(marks, id);
    marks[id := match f
                case CurrentMarks => e.(currentMarks := Some(v))
                case TargetMarks => e.(targetMarks := Some(v))]
  }

  /** The last write to a field wins, and writes to the two fields of one
      entry commute. */
  lemma SetMarkWrites(marks: map<string, SubjectMarks>, id: string, v: string, w: string)
    ensures SetMark(SetMark(marks, id, CurrentMarks, v), id, CurrentMarks, w) == SetMark(marks, id, CurrentMarks, w)
    ensures SetMark(SetMark(marks, id, TargetMarks, v), id, TargetMarks, w) == SetMark(marks, id, TargetMarks, w)
    ensures SetMark(SetMark(marks, id, CurrentMarks, v), id, TargetMarks, w)
         == SetMark(SetMark(marks, id, TargetMarks, w), id, CurrentMarks, v)
  {
  }

  // ---------------------------------------------------------------------------
  // Step validity

  /** JavaScript truthiness of an optional string: present and non-empty. */
  predicate Truthy(o: Option<string>)
  {
    o.Some? && o.value != ""
  }

  /** `marks[id]?.currentMarks && marks[id]?.targetMarks`. */
  predicate MarksEntered(marks: map<string, SubjectMarks>, id: string)
  {
    Truthy(EntryOf(marks, id).currentMarks) && Truthy(EntryOf(marks, id).targetMarks)
  }

  /** `subjects.every(...)`, walked from the first subject. */
  function AllMarksEntered(subjects: seq<string>, marks: map<string, SubjectMarks>): (b: bool)
    ensures b <==> forall i :: 0 <= i < |subjects| ==> MarksEntered(marks, subjects[i])
  {
    if subjects == [] then true
    else MarksEntered(marks, subjects[0]) && AllMarksEntered(subjects[1..], marks)
  }

  /** `isStepValid()` evaluated at step `step`. */
  function StepValid(d: FormData, step: int): (b: bool)
    ensures step == 1 ==>
      (b <==> d.firstName != "" && d.lastName != "" && d.email != "" && d.phone != "" && d.school != "")
    ensures step == 2 ==> (b <==> |d.selectedSubjects| > 0)
    ensures step == 3 ==>
      (b <==> forall id :: id in d.selectedSubjects ==>
                id in d.marks && Truthy(d.marks[id].currentMarks) && Truthy(d.marks[id].targetMarks))
    ensures step != 1 && step != 2 && step != 3 ==> b
  {
    if step == 1 then
      d.firstName != "" && d.lastName != "" && d.email != "" && d.phone != "" && d.school != ""
    else if step == 2 then
      |d.selectedSubjects| > 0
    else if step == 3 then
      AllMarksEntered(d.selectedSubjects, d.marks)
    else
      true
  }

  /** The guardian's contact never influences validity. */
  lemma GuardianContactIgnored(d: FormData, v: string, step: int)
    ensures StepValid(WithField(d, GuardianContact, v), step) == StepValid(d, step)
  {
  }

  /** Step 3 only looks at the entries of selected subjects. */
  lemma MarksStepIgnoresUnselected(d: FormData, marks: map<string, SubjectMarks>)
    requires forall id :: id in d.selectedSubjects ==> EntryOf(marks, id) == EntryOf(d.marks, id)
    ensures StepValid(d.(marks := marks), 3) == StepValid(d, 3)
  {
  }

  /** Entering marks for a subject that is not selected changes no step's validity. */
  lemma UnselectedMarksIrrelevant(d: FormData, id: string, f: MarksField, v: string, step: int)
    requires id !in d.selectedSubjects
    ensures StepValid(d.(marks := SetMark(d.marks, id, f, v)), step) == StepValid(d, step)
  {
  }

  /** Filling in both marks of a subject with non-empty values completes its entry. */
  lemma BothMarksComplete(marks: map<string, SubjectMarks>, id: string, cur: string, target: string)
    requires cur != "" && target != ""
    ensures MarksEntered(SetMark(SetMark(marks, id, CurrentMarks, cur), id, TargetMarks, target), id)
  {
  }

  // ---------------------------------------------------------------------------
  // Navigation

  /** `nextStep`: one step forward, only below the last step. */
  function Advance(step: int): (r: int)
    ensures step < StepCount ==> r == step + 1
    ensures step >= StepCount ==> r == step
  {
    if step < StepCount then step + 1 else step
  }

  /** `prevStep`: one step back, only above the first step. */
  function Retreat(step: int): (r: int)
    ensures step > 1 ==> r == step - 1
    ensures step <= 1 ==> r == step
  {
    if step > 1 then step - 1 else step
  }

  /** Both moves keep a step in [1, StepCount], and each undoes the other
      wherever it moved. */
  lemma NavigationBounds(step: int)
    requires 1 <= step <= StepCount
    ensures 1 <= Advance(step) <= StepCount && 1 <= Retreat(step) <= StepCount
    ensures step < StepCount ==> Retreat(Advance(step)) == step
    ensures step > 1 ==> Advance(Retreat(step)) == step
  {
  }

  /** One user action on a control of the form. A control is only on screen
      on its own step: the personal inputs on step 1, the subject choices
      (one per offered subject) on step 2, the marks inputs (one pair per
      selected subject) on step 3, Back and Next below the form. */
  datatype Event =
    | PressNext
    | PressBack
    | Input(field: PersonalField, value: string)
    | ToggleSubject(id: string)
    | EnterMark(subject: string, markField: MarksField, markValue: string)

  /** The component's two state cells. */
  datatype Session = Session(currentStep: int, formData: FormData)

  const InitialSession: Session := Session(1, InitialFormData)

  /** What one event does. The Next button exists only below the last step
      and is disabled while the step is invalid; the Back button is disabled
      on step 1. An event on a control that the current step does not
      render cannot happen and changes nothing. */
  function Apply(s: Session, e: Event): (r: Session)
    ensures e.PressNext? || e.PressBack? ==> r.formData == s.formData
    ensures !e.PressNext? && !e.PressBack? ==> r.currentStep == s.currentStep
    ensures r.formData != s.formData ==>
              || (e.Input? && s.currentStep == 1)
              || (e.ToggleSubject? && s.currentStep == 2 && e.id in SubjectIds)
              || (e.EnterMark? && s.currentStep == 3 && e.subject in s.formData.selectedSubjects)
    ensures r.currentStep > s.currentStep ==>
              e.PressNext? && s.currentStep < StepCount && StepValid(s.formData, s.currentStep)
              && r.currentStep == s.currentStep + 1
    ensures r.currentStep < s.currentStep ==> e.PressBack? && r.currentStep == s.currentStep - 1
  {
    match e
    case PressNext =>
      if s.currentStep != StepCount && StepValid(s.formData, s.currentStep)
      then s.(currentStep := Advance(s.currentStep))
      else s
    case PressBack =>
      if s.currentStep != 1 then s.(currentStep := Retreat(s.currentStep)) else s
    case Input(f, v) =>
      if s.currentStep == 1
      then s.(formData := WithField(s.formData, f, v))
      else s
    case ToggleSubject(id) =>
      if s.currentStep == 2 && id in SubjectIds
      then s.(formData := s.formData.(selectedSubjects := Toggle(s.formData.selectedSubjects, id)))
      else s
    case EnterMark(id, f, v) =>
      if s.currentStep == 3 && id in s.formData.selectedSubjects
      then s.(formData := s.formData.(marks := SetMark(s.formData.marks, id, f, v)))
      else s
  }

  /** The events applied in order. */
  function Replay(s: Session, events: seq<Event>): (r: Session)
    ensures s.currentStep - |events| <= r.currentStep <= s.currentStep + |events|
    ensures (forall i :: 0 <= i < |events| ==> !events[i].PressNext? && !events[i].PressBack?)
            ==> r.currentStep == s.currentStep
    decreases events
  {
    if events == [] then s else Replay(Apply(s, events[0]), events[1..])
  }

  /** The step is in range and the selection holds no duplicates: what the
      component's handlers keep whatever they are called with. */
  predicate WellFormed(s: Session)
  {
    1 <= s.currentStep <= StepCount && Distinct(s.formData.selectedSubjects)
  }

  /** What holds of every session the rendered form can reach: besides being
      well formed, only offered subjects are selected, and every step before
      the current one is valid. */
  predicate Consistent(s: Session)
  {
    && WellFormed(s)
    && (forall id :: id in s.formData.selectedSubjects ==> id in SubjectIds)
    && (forall j :: 1 <= j < s.currentStep ==> StepValid(s.formData, j))
  }

  lemma ApplyKeepsConsistent(s: Session, e: Event)
    requires Consistent(s)
    ensures Consistent(Apply(s, e))
  {
    var r := Apply(s, e);
    if e.ToggleSubject? {
      ToggleKeepsDistinct(s.formData.selectedSubjects, e.id);
    }
    forall j | 1 <= j < r.currentStep ensures StepValid(r.formData, j) {
      if j < s.currentStep {
        // The data changed only through the current step's controls, which
        // no earlier step's validity depends on.
        assert StepValid(s.formData, j);
      }
    }
  }

  lemma {:induction false} ReplayKeepsConsistent(s: Session, events: seq<Event>)
    requires Consistent(s)
    ensures Consistent(Replay(s, events))
    decreases events
  {
    if events != [] {
      ApplyKeepsConsistent(s, events[0]);
      ReplayKeepsConsistent(Apply(s, events[0]), events[1..]);
    }
  }

  /** From the initial state, every run of events keeps the step in
      [1, StepCount], the selection free of duplicates and within the offered
      subjects, and every step before the current one valid: the review step
      is reached only with all three earlier steps valid. */
  lemma ReachableIsConsistent(events: seq<Event>)
    ensures 1 <= Replay(InitialSession, events).currentStep <= StepCount
    ensures Distinct(Replay(InitialSession, events).formData.selectedSubjects)
    ensures forall id :: id in Replay(InitialSession, events).formData.selectedSubjects ==> id in SubjectIds
    ensures forall j :: 1 <= j < Replay(InitialSession, events).currentStep ==>
              StepValid(Replay(InitialSession, events).formData, j)
  {
    ReplayKeepsConsistent(InitialSession, events);
  }

  /** Next moves only from a valid step below the last, and then by exactly
      one; it never touches the form data. */
  lemma NextIsGated(s: Session)
    requires WellFormed(s)
    ensures Apply(s, PressNext).formData == s.formData
    ensures Apply(s, PressNext).currentStep != s.currentStep
            <==> s.currentStep < StepCount && StepValid(s.formData, s.currentStep)
    ensures Apply(s, PressNext).currentStep != s.currentStep
            ==> Apply(s, PressNext).currentStep == s.currentStep + 1
  {
  }

  /** Back moves from every step but the first, by exactly one, without
      re-validating or touching the form data. */
  lemma BackIsUngated(s: Session)
    requires WellFormed(s)
    ensures Apply(s, PressBack).formData == s.formData
    ensures Apply(s, PressBack).currentStep == if s.currentStep > 1 then s.currentStep - 1 else 1
  {
  }

  /** Going back one step and forward again, from any reachable session past
      step 1, returns to the very same state: the data entered survives
      navigation and the step left behind is still valid. */
  lemma BackThenNextRestores(s: Session)
    requires Consistent(s) && s.currentStep > 1
    ensures Replay(s, [PressBack, PressNext]) == s
  {
  }

  /** The indicator drawn for a well-formed session: one current step, the
      steps before it completed. */
  lemma IndicatorOfSession(s: Session)
    requires WellFormed(s)
    ensures ProgressSteps.Count(ProgressSteps.Render(FormSteps, s.currentStep), ProgressSteps.Current) == 1
    ensures ProgressSteps.Count(ProgressSteps.Render(FormSteps, s.currentStep), ProgressSteps.Completed)
            == s.currentStep - 1
  {
    ProgressSteps.StepCounts(FormSteps, s.currentStep);
  }

  // ---------------------------------------------------------------------------
  // The component

  /** The form component: its two state cells and its event handlers. */
  class IntakeForm {
    var currentStep: int
    var formData: FormData

    /** The object invariant every handler keeps. */
    ghost predicate Valid()
      reads this
    {
      WellFormed(Session(currentStep, formData))
    }

    function State(): Session
      reads this
    {
      Session(currentStep, formData)
    }

    constructor ()
      ensures Valid()
      ensures currentStep == 1 && formData == InitialFormData
    {
      currentStep := 1;
      formData := InitialFormData;
    }

    method HandleInputChange(f: PersonalField, v: string)
      requires Valid()
      modifies this
      ensures Valid()
      ensures formData == WithField(old(formData), f, v)
      ensures currentStep == old(currentStep)
    {
      formData := WithField(formData, f, v);
    }

    method HandleSubjectChange(id: string)
      requires Valid()
      modifies this
      ensures Valid()
      ensures formData == old(formData).(selectedSubjects := Toggle(old(formData.selectedSubjects), id))
      ensures currentStep == old(currentStep)
    {
      ToggleKeepsDistinct(formData.selectedSubjects, id);
      formData := formData.(selectedSubjects := Toggle(formData.selectedSubjects, id));
    }

    method HandleMarksChange(id: string, f: MarksField, v: string)
      requires Valid()
      modifies this
      ensures Valid()
      ensures formData == old(formData).(marks := SetMark(old(formData.marks), id, f, v))
      ensures currentStep == old(currentStep)
    {
      formData := formData.(marks := SetMark(formData.marks, id, f, v));
    }

    method NextStep()
      requires Valid()
      modifies this
      ensures Valid()
      ensures currentStep == Advance(old(currentStep)) && formData == old(formData)
    {
      if currentStep < StepCount {
        currentStep := currentStep + 1;
      }
    }

    method PrevStep()
      requires Valid()
      modifies this
      ensures Valid()
      ensures currentStep == Retreat(old(currentStep)) && formData == old(formData)
    {
      if currentStep > 1 {
        currentStep := currentStep - 1;
      }
    }

    /** A click on Next: the button is rendered only below the last step
        and is disabled unless the current step is valid. */
    method ClickNext() returns (advanced: bool)
      requires Valid()
      modifies this
      ensures Valid()
      ensures advanced <==> old(currentStep) < StepCount && StepValid(old(formData), old(currentStep))
      ensures currentStep == if advanced then old(currentStep) + 1 else old(currentStep)
      ensures formData == old(formData)
      ensures State() == Apply(old(State()), PressNext)
    {
      advanced := currentStep != StepCount && StepValid(formData, currentStep);
      if advanced {
        NextStep();
      }
    }

    /** A click on Back: the button is disabled on the first step. */
    method ClickBack() returns (moved: bool)
      requires Valid()
      modifies this
      ensures Valid()
      ensures moved <==> old(currentStep) > 1
      ensures currentStep == if moved then old(currentStep) - 1 else old(currentStep)
      ensures formData == old(formData)
      ensures State() == Apply(old(State()), PressBack)
    {
      moved := currentStep != 1;
      if moved {
        PrevStep();
      }
    }
  }

  /** The personal-details gate opens only once all five required fields are filled. */
  method WalkPersonalDetails()
  {
    var form := new IntakeForm();
    form.HandleInputChange(FirstName, "Jane");
    form.HandleInputChange(LastName, "Doe");
    form.HandleInputChange(Phone, "0123456789");
    form.HandleInputChange(School, "High School");
    var moved := form.ClickNext();
    assert !moved && form.currentStep == 1;
    form.HandleInputChange(Email, "jane@example.com");
    moved := form.ClickNext();
    assert moved && form.currentStep == 2;
    moved := form.ClickBack();
    assert moved && form.currentStep == 1 && form.formData.email == "jane@example.com";
  }

  /** The subjects gate opens once a subject is chosen, and the marks gate
      only once both marks of every selected subject are entered. */
  method WalkMarks(form: IntakeForm)
    requires form.Valid() && form.currentStep == 2
    requires form.formData.selectedSubjects == [] && form.formData.marks == map[]
    modifies form
  {
    var moved := form.ClickNext();
    assert !moved;
    form.HandleSubjectChange("physics");
    assert form.formData.selectedSubjects == ["physics"];
    moved := form.ClickNext();
    assert moved && form.currentStep == 3;
    moved := form.ClickNext();
    assert !moved;
    form.HandleMarksChange("physics", CurrentMarks, "60");
    moved := form.ClickNext();
    assert !moved;
    form.HandleMarksChange("physics", TargetMarks, "80");
    moved := form.ClickNext();
    assert moved && form.currentStep == StepCount;
    moved := form.ClickNext();
    assert !moved && form.currentStep == StepCount;
  }
}
