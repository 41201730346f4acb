# Student intake form — step state machine and step indicator

This project models the core of a four-step student intake wizard:

- **Personal details.** First name, last name, email, phone, school and guardian contact.
- **Subject selection.** Subjects are toggled on and off.
- **Marks.** A current and a target mark are entered for each selected subject.
- **Review.**

Two files are modelled:

- `student_intake_form.dfy` (module `StudentIntakeForm`) models the form component.
  - The component owns two state cells: the 1-based `currentStep` and the `formData` record.
  - The class `IntakeForm` holds these cells as fields. Its event handlers replace them in place.
  - Each new value is computed by a pure function:
    - `WithField` updates one personal field.
    - `Toggle` (with `Remove`, the filter) updates the selection.
    - `SetMark` updates one marks entry.
    - `Advance` and `Retreat` move the step.
  - `StepValid` is the per-step gate. The Next button is disabled when the gate is false and is not rendered on the last step.
  - `Apply` and `Replay` describe a whole run of user events on the rendered form. Each control exists only on its own step: the personal inputs on step 1, one choice per offered subject on step 2, a pair of marks inputs per selected subject on step 3. An event on a control that is not on screen changes nothing. They are used to state properties of every run that starts from the initial state.
- `progress_steps.dfy` (module `ProgressSteps`) models the stateless step indicator.
  - Each step is classified as completed, current or pending.
  - Each step gets a marker (a check mark or its number) and a label highlight.

JavaScript truthiness is modelled explicitly:

- A string is truthy when it is non-empty.
- A marks field is `Option<string>`. A missing entry, or a field never written in a new entry (the spread of `undefined`), is `None`. `None` counts as empty.

Deselecting a subject leaves its marks entry in the map, as the code does: `HandleSubjectChange` changes only the selection. Re-selecting the subject finds the earlier marks again. Step 3 ignores entries of unselected subjects (`MarksStepIgnoresUnselected`).

The methods `WalkPersonalDetails` and `WalkMarks` are clients of the class. They drive it through the step-1, step-2 and step-3 gates, as the rendered form offers them, and show that each gate opens once its fields are filled.

## Model

| member | source | states |
|---|---|---|
| `ProgressSteps.Classify` | src/components/ProgressSteps.tsx:15-16 | completed iff `currentStep > index + 1`; current iff `currentStep == index + 1`; pending iff neither, i.e. `currentStep < index + 1` |
| `ProgressSteps.Render` | src/components/ProgressSteps.tsx:14-16 | one item per label, same length and order as `steps`, each classified by its own position |
| `ProgressSteps.CompletedCountOf` | src/components/ProgressSteps.tsx:15 | the number of completed steps is `currentStep - 1` clamped into [0, N] |
| `ProgressSteps.CurrentCountOf` | src/components/ProgressSteps.tsx:16 | exactly one step is current when `1 <= currentStep <= N`, none otherwise |
| `ProgressSteps.CountsPartition` | src/components/ProgressSteps.tsx:26-28 | every step falls in exactly one of the three classes: the three counts add up to N |
| `ProgressSteps.StepCounts` | src/components/ProgressSteps.tsx:14-16 | for an in-range step: one current, `currentStep - 1` completed, `N - currentStep` pending |
| `ProgressSteps.CompletedArePrefix` | src/components/ProgressSteps.tsx:15 | the completed steps form a prefix: they are exactly the indices below `currentStep - 1` |
| `ProgressSteps.MarkersAndHighlights` | src/components/ProgressSteps.tsx:31-47 | a check mark iff completed, otherwise the number `index + 1`; label highlighted iff `index + 1 <= currentStep` (completed or current) |
| `StudentIntakeForm.WithField` | src/components/StudentIntakeForm.tsx:48-51 | the named field takes the new value; every other personal field, the selection and the marks are unchanged |
| `StudentIntakeForm.WithFieldOverwrites` | src/components/StudentIntakeForm.tsx:48-51 | rewriting a field's own value is the identity; a second write to a field overrides the first |
| `StudentIntakeForm.Remove` | src/components/StudentIntakeForm.tsx:59 | the filter drops every occurrence of the id and keeps every other element with its multiplicity |
| `StudentIntakeForm.RemoveAppend` | src/components/StudentIntakeForm.tsx:59 | the filter distributes over concatenation, so the remaining ids keep their relative order |
| `StudentIntakeForm.RemoveAbsent` | src/components/StudentIntakeForm.tsx:59 | filtering an absent id returns the list unchanged |
| `StudentIntakeForm.RemoveKeepsDistinct` | src/components/StudentIntakeForm.tsx:59 | filtering a duplicate-free list leaves it duplicate-free |
| `StudentIntakeForm.Toggle` | src/components/StudentIntakeForm.tsx:53-64 | a selected id is filtered out (`Remove`, which keeps the others in order); an unselected id is appended after the unchanged list; so the id is selected afterwards iff it was not before, and every other id keeps its membership |
| `StudentIntakeForm.ToggleKeepsDistinct` | src/components/StudentIntakeForm.tsx:56-60 | toggling keeps the selection free of duplicates |
| `StudentIntakeForm.ToggleTwiceAbsent` | src/components/StudentIntakeForm.tsx:56-60 | toggling an unselected id twice restores the list exactly |
| `StudentIntakeForm.ToggleTwicePresent` | src/components/StudentIntakeForm.tsx:56-60 | toggling a selected id twice moves it to the end: the others stay in order and the multiset is unchanged |
| `StudentIntakeForm.SetMark` | src/components/StudentIntakeForm.tsx:66-77 | entry `id` exists afterwards with field `f` set to `v`; its other field is the old one (absent for a new entry); every other entry is unchanged and no other key appears |
| `StudentIntakeForm.SetMarkWrites` | src/components/StudentIntakeForm.tsx:66-77 | the last write to a marks field wins; writes to the two fields of one entry commute |
| `StudentIntakeForm.AllMarksEntered` | src/components/StudentIntakeForm.tsx:103-106 | the `every` walk is true iff every selected subject has both marks truthy |
| `StudentIntakeForm.StepValid` | src/components/StudentIntakeForm.tsx:96-110 | step 1 iff the five required personal fields are non-empty; step 2 iff a subject is selected; step 3 iff every selected subject has an entry with both marks non-empty (vacuous for an empty selection); any other step is valid |
| `StudentIntakeForm.GuardianContactIgnored` | src/components/StudentIntakeForm.tsx:98-99 | the guardian contact never changes any step's validity |
| `StudentIntakeForm.MarksStepIgnoresUnselected` | src/components/StudentIntakeForm.tsx:102-106 | step 3 depends only on the entries of selected subjects |
| `StudentIntakeForm.UnselectedMarksIrrelevant` | src/components/StudentIntakeForm.tsx:102-106 | entering a mark for an unselected subject changes no step's validity |
| `StudentIntakeForm.BothMarksComplete` | src/components/StudentIntakeForm.tsx:103-105 | after both marks of a subject are set to non-empty values, its entry satisfies the step-3 test |
| `StudentIntakeForm.Advance` | src/components/StudentIntakeForm.tsx:79-83 | adds exactly 1 below step 4, otherwise leaves the step unchanged |
| `StudentIntakeForm.Retreat` | src/components/StudentIntakeForm.tsx:85-89 | subtracts exactly 1 above step 1, otherwise leaves the step unchanged |
| `StudentIntakeForm.NavigationBounds` | src/components/StudentIntakeForm.tsx:79-89 | both moves keep a step in [1, 4]; each undoes the other wherever it moved |
| `StudentIntakeForm.Apply` | src/components/StudentIntakeForm.tsx:146-378 | one event on a rendered control: Back and Next never change the data, edits never change the step; the data changes only through step 1's inputs on step 1, an offered subject on step 2, or a selected subject's marks on step 3; the step rises only by one through Next from a valid step below 4, and falls only by one through Back |
| `StudentIntakeForm.Replay` | src/components/StudentIntakeForm.tsx:48-89 | a run of events moves the step by at most one per event, and not at all without Back or Next |
| `StudentIntakeForm.ApplyKeepsConsistent` | src/components/StudentIntakeForm.tsx:48-89 | every single event keeps a reachable state reachable: step in [1, 4], selection duplicate-free and within the offered subjects, every step before the current one valid |
| `StudentIntakeForm.ReplayKeepsConsistent` | src/components/StudentIntakeForm.tsx:48-89 | any run of events from such a state keeps those four facts |
| `StudentIntakeForm.ReachableIsConsistent` | src/components/StudentIntakeForm.tsx:36-46 | from the initial state (step 1, empty data) every run keeps the step in [1, 4], the selection duplicate-free and within the offered ids, and every earlier step valid, so the review step is reached only with steps 1-3 valid |
| `StudentIntakeForm.NextIsGated` | src/components/StudentIntakeForm.tsx:361-378 | Next moves the step iff the step is below 4 and valid, then by exactly one, and never touches the form data |
| `StudentIntakeForm.BackIsUngated` | src/components/StudentIntakeForm.tsx:352-360 | Back moves one step down from any step above 1, without re-validation and without touching the form data |
| `StudentIntakeForm.BackThenNextRestores` | src/components/StudentIntakeForm.tsx:79-89 | from any reachable state past step 1, Back then Next returns to the identical state: the entered data survives navigation |
| `StudentIntakeForm.IndicatorOfSession` | src/components/StudentIntakeForm.tsx:141 | the indicator drawn for a state with the step in [1, 4] shows exactly one current step and `currentStep - 1` completed steps |
| `StudentIntakeForm.IntakeForm.constructor` | src/components/StudentIntakeForm.tsx:36-46 | starts on step 1 with empty strings, no subjects and no marks |
| `StudentIntakeForm.IntakeForm.HandleInputChange` | src/components/StudentIntakeForm.tsx:48-51 | `formData` becomes `WithField` of the old data; the step is unchanged |
| `StudentIntakeForm.IntakeForm.HandleSubjectChange` | src/components/StudentIntakeForm.tsx:53-64 | only the selection changes, to `Toggle` of the old one; marks, personal fields and step are unchanged |
| `StudentIntakeForm.IntakeForm.HandleMarksChange` | src/components/StudentIntakeForm.tsx:66-77 | only the marks change, to `SetMark` of the old map; the selection, personal fields and step are unchanged |
| `StudentIntakeForm.IntakeForm.NextStep` | src/components/StudentIntakeForm.tsx:79-83 | the step becomes `Advance` of the old step; the form data is unchanged |
| `StudentIntakeForm.IntakeForm.PrevStep` | src/components/StudentIntakeForm.tsx:85-89 | the step becomes `Retreat` of the old step; the form data is unchanged |
| `StudentIntakeForm.IntakeForm.ClickNext` | src/components/StudentIntakeForm.tsx:361-378 | advances by one iff the old step is below 4 and valid, otherwise changes nothing; agrees with `Apply(_, PressNext)` |
| `StudentIntakeForm.IntakeForm.ClickBack` | src/components/StudentIntakeForm.tsx:352-360 | moves back one iff the old step is above 1; agrees with `Apply(_, PressBack)` |

## Left out

- Rendering is not modelled: JSX, CSS class strings, icons, the logo and the layout. This includes the colour classes that the indicator's classification selects. It is presentation with no stateable behaviour.
- The progress-bar width `((currentStep - 1) / (steps.length - 1)) * 100` (src/components/ProgressSteps.tsx:62) is not modelled. It is floating-point arithmetic and divides by zero when there is one step.
- `handleSubmit` only writes to the console. It has no state effect, so the Submit button on the last step is not an event of the model.
- React plumbing is not modelled: `useState` setters, event objects and the UI component library. Each handler is applied directly to the class's fields. The input's `name` attribute becomes the `PersonalField` enumeration.
- `nextStep` tests the rendered `currentStep` but increments the setter's `prev`. Two calls within one event, before a re-render, are not modelled. The UI makes one call per click, and each event in the model sees the state left by the previous one.
- The `SUBJECTS.find` lookups (src/components/StudentIntakeForm.tsx:271, :330) only fetch display names and are not modelled.
- Subject ids are arbitrary strings in the class: `handleSubjectChange` accepts any id. Only `Apply` restricts toggles to the offered subjects, as the rendered step 2 does.
- Cost totals, the payment date, payment references, bank details and subject schedules do not appear in this version of the component, so they are not modelled. Validity of step 4 is therefore unconditionally true, as the code's `default` branch says.
- `StudentIntakeForm.IntakeForm` methods require the object invariant `Valid()`, which the constructor establishes and every handler keeps. It covers a step in [1, 4] and a duplicate-free selection. The source's handlers would also accept states outside it, but no such state is reachable.
- `StudentIntakeForm.IntakeForm` handlers can be called on any step, as the handler functions themselves can. That the form only renders each control on its own step is modelled in `Apply` alone. So the class's invariant does not include "every earlier step is valid"; `ReachableIsConsistent` states that for runs of rendered events.
