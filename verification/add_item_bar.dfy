/**
 * The collapsible add form of src/components/admin/AddItemBar.tsx as a state
 * machine: the three `useState` cells and one step per handler, each returning
 * the next state and the `onAdd` call it makes, if any.
 */
module AddItemBar {
  import opened Wrappers
  import opened Text

  datatype BarState = BarState(name: string, description: string, isExpanded: bool)

  /** The arguments of an `onAdd` call. */
  datatype AddCall = AddCall(name: string, description: string)

  datatype Step = Step(state: BarState, call: Option<AddCall>)

  /** The `useState` initial values: collapsed, both fields empty. */
  function Init(): (st: BarState)
    ensures !st.isExpanded && st.name == [] && st.description == []
  {
    BarState("", "", false)
  }

  /** The "Add Item" button: it expands the bar and keeps whatever was typed before. */
  function Expand(st: BarState): (next: BarState)
    ensures next.isExpanded
    ensures next.name == st.name && next.description == st.description
  {
    st.(isExpanded := true)
  }

  /** Typing into the name and description inputs: only that field changes. */
  function ChangeName(st: BarState, value: string): (next: BarState)
    ensures next.name == value
    ensures next.isExpanded == st.isExpanded && next.description == st.description
  {
    st.(name := value)
  }

  function ChangeDescription(st: BarState, value: string): (next: BarState)
    ensures next.description == value
    ensures next.isExpanded == st.isExpanded && next.name == st.name
  {
    st.(description := value)
  }

  /**
   * `handleSubmit`: a name that is only whitespace leaves everything as it was
   * and calls nothing (the input's `required` attribute blocks the empty name
   * even earlier, with the same outcome); any other name calls `onAdd` with the
   * trimmed name and description, then clears the form and collapses it.
   */
  function Submit(st: BarState): (step: Step)
    ensures AllWhitespace(st.name) ==> step == Step(st, None)
    ensures !AllWhitespace(st.name) ==>
              step.call == Some(AddCall(Trim(st.name), Trim(st.description))) && step.state == Init()
    ensures step.call.Some? ==> step.call.value.name != [] && Trim(step.call.value.name) == step.call.value.name
  {
    TrimEmptyIffBlank(st.name);
    if Trim(st.name) != [] then
      TrimIdempotent(st.name);
      Step(BarState("", "", false), Some(AddCall(Trim(st.name), Trim(st.description))))
    else
      Step(st, None)
  }

  /** The cancel button: clear both fields and collapse, with no call. */
  function Cancel(st: BarState): (step: Step)
    ensures step.call.None? && step.state == Init()
  {
    Step(BarState("", "", false), None)
  }

  /** Every successful submission leaves the form ready for the next item. */
  lemma SubmitResets(st: BarState, name: string, description: string)
    requires !AllWhitespace(name)
    ensures Submit(ChangeDescription(ChangeName(Expand(st), name), description)).state == Init()
  {
  }
}
