/** The step indicator shown above the intake form.

    Given the ordered step labels and the 1-based number of the current step, it
    produces one item per label. Each item is classified as completed, current or
    pending, shows a check mark or its own number, and has its label highlighted
    or dimmed. It is a pure function of its two inputs. */
module ProgressSteps {

  datatype Status = Completed | Current | Pending

  /** What is drawn inside a step's circle: a check mark or the 1-based step number. */
  datatype Marker = CheckMark | StepNumber(n: nat)

  /** The render description of one step. */
  datatype StepItem = StepItem(text: string, status: Status, marker: Marker, highlighted: bool)

  /** Classification of the step at 0-based `index` when `currentStep` (1-based) is current. */
  function Classify(currentStep: int, index: nat): (st: Status)
    ensures st == Completed <==> currentStep > index + 1
    ensures st == Current <==> currentStep == index + 1
    ensures st == Pending <==> currentStep < index + 1
  {
    if currentStep > index + 1 then Completed
    else if currentStep == index + 1 then Current
    else Pending
  }

  /** A completed step shows a check mark; every other step shows its number. */
  function MarkerOf(st: Status, index: nat): Marker
  {
    if st == Completed then CheckMark else StepNumber(index + 1)
  }

  /** The label is highlighted for completed and current steps only. */
  predicate Highlighted(st: Status)
  {
    st == Completed || st == Current
  }

  function ItemAt(text: string, currentStep: int, index: nat): StepItem
  {
    var st := Classify(currentStep, index);
    StepItem(text, st, MarkerOf(st, index), Highlighted(st))
  }

  /** The indicator: `steps.map((step, index) => ...)`. */
  function Render(steps: seq<string>, currentStep: int): (items: seq<StepItem>)
    ensures |items| == |steps|
    ensures forall i :: 0 <= i < |items| ==> items[i].text == steps[i]
    ensures forall i :: 0 <= i < |items| ==> items[i].status == Classify(currentStep, i)
  {
    seq(|steps|, i requires 0 <= i < |steps| => ItemAt(steps[i], currentStep, i))
  }

  /** Number of items with status `st`. */
  function Count(items: seq<StepItem>, st: Status): (n: nat)
    ensures n <= |items|
  {
    if items == [] then 0
    else Count(items[..|items| - 1], st) + (if items[|items| - 1].status == st then 1 else 0)
  }

  /** `x` clamped into [0, n]. */
  function Clamp(x: int, n: nat): (r: nat)
    ensures r <= n
    ensures 0 <= x <= n ==> r == x
  {
    if x < 0 then 0 else if x > n then n else x
  }

  /** The items are classified position by position against `currentStep`. */
  ghost predicate ClassifiedBy(items: seq<StepItem>, currentStep: int)
  {
    forall i :: 0 <= i < |items| ==> items[i].status == Classify(currentStep, i)
  }

  lemma {:induction false} CompletedCountOf(items: seq<StepItem>, currentStep: int)
    requires ClassifiedBy(items, currentStep)
    ensures Count(items, Completed) == Clamp(currentStep - 1, |items|)
  {
    if items != [] {
      CompletedCountOf(items[..|items| - 1], currentStep);
    }
  }

  lemma {:induction false} CurrentCountOf(items: seq<StepItem>, currentStep: int)
    requires ClassifiedBy(items, currentStep)
    ensures Count(items, Current) == if 1 <= currentStep <= |items| then 1 else 0
  {
    if items != [] {
      CurrentCountOf(items[..|items| - 1], currentStep);
    }
  }

  /** With the current step in range, exactly one step is current, exactly
      `currentStep - 1` are completed and the rest are pending. */
  lemma StepCounts(steps: seq<string>, currentStep: int)
    requires 1 <= currentStep <= |steps|
    ensures Count(Render(steps, currentStep), Current) == 1
    ensures Count(Render(steps, currentStep), Completed) == currentStep - 1
    ensures Count(Render(steps, currentStep), Pending) == |steps| - currentStep
  {
    var items := Render(steps, currentStep);
    CompletedCountOf(items, currentStep);
    CurrentCountOf(items, currentStep);
    CountsPartition(items);
  }

  /** Every item is counted under exactly one status. */
  lemma {:induction false} CountsPartition(items: seq<StepItem>)
    ensures Count(items, Completed) + Count(items, Current) + Count(items, Pending) == |items|
  {
    if items != [] {
      CountsPartition(items[..|items| - 1]);
    }
  }

  /** The completed steps are exactly the first `currentStep - 1` ones: a prefix of the list. */
  lemma CompletedArePrefix(steps: seq<string>, currentStep: int)
    ensures forall i, j :: 0 <= i < j < |steps| && Render(steps, currentStep)[j].status == Completed
                           ==> Render(steps, currentStep)[i].status == Completed
    ensures forall i :: 0 <= i < |steps| ==>
              (Render(steps, currentStep)[i].status == Completed <==> i < currentStep - 1)
  {
  }

  /** Marker and highlight of each rendered step, in terms of its position. */
  lemma MarkersAndHighlights(steps: seq<string>, currentStep: int)
    ensures forall i :: 0 <= i < |steps| ==>
              (Render(steps, currentStep)[i].marker == CheckMark <==> currentStep > i + 1)
    ensures forall i :: 0 <= i < |steps| && currentStep <= i + 1 ==>
              Render(steps, currentStep)[i].marker == StepNumber(i + 1)
    ensures forall i :: 0 <= i < |steps| ==>
              (Render(steps, currentStep)[i].highlighted <==> i + 1 <= currentStep)
  {
  }
}
