/**
 * The inline editor of src/components/ui/EditableItem.tsx as a state machine.
 * The state is the three `useState` cells; each handler is a step that returns
 * the next state and the `onSave` call it makes, if any. The props are passed
 * to the steps that read them.
 */
module EditableItem {
  import opened Wrappers
  import opened Text

  datatype Props = Props(name: string, description: string)

  datatype EditState = EditState(isEditing: bool, editName: string, editDescription: string)

  /** The arguments of an `onSave` call. */
  datatype SaveCall = SaveCall(name: string, description: string)

  datatype Step = Step(state: EditState, call: Option<SaveCall>)

  /** The `useState` initial values: not editing, drafts copied from the props. */
  function Init(props: Props): (st: EditState)
    ensures !st.isEditing
    ensures st.editName == props.name && st.editDescription == props.description
  {
    EditState(false, props.name, props.description)
  }

  /** The edit button: it opens the editor and changes nothing but the mode. */
  function StartEdit(st: EditState): (next: EditState)
    ensures next.isEditing
    ensures next.editName == st.editName && next.editDescription == st.editDescription
  {
    st.(isEditing := true)
  }

  /** Typing into the name and description inputs: only that draft changes. */
  function ChangeName(st: EditState, value: string): (next: EditState)
    ensures next.editName == value
    ensures next.isEditing == st.isEditing && next.editDescription == st.editDescription
  {
    st.(editName := value)
  }

  function ChangeDescription(st: EditState, value: string): (next: EditState)
    ensures next.editDescription == value
    ensures next.isEditing == st.isEditing && next.editName == st.editName
  {
    st.(editDescription := value)
  }

  /**
   * `handleSave`: a name that is only whitespace does nothing at all; any other
   * name is passed trimmed to `onSave`, with the trimmed description (which may
   * be empty), and editing ends. The drafts themselves are left untrimmed.
   */
  function Save(st: EditState): (step: Step)
    ensures AllWhitespace(st.editName) ==> step == Step(st, None)
    ensures !AllWhitespace(st.editName) ==>
              && step.call == Some(SaveCall(Trim(st.editName), Trim(st.editDescription)))
              && !step.state.isEditing
              && step.state.editName == st.editName
              && step.state.editDescription == st.editDescription
    ensures step.call.Some? ==> step.call.value.name != [] && IsTrimmed(step.call.value.name)
  {
    TrimEmptyIffBlank(st.editName);
    if Trim(st.editName) != [] then
      Step(st.(isEditing := false), Some(SaveCall(Trim(st.editName), Trim(st.editDescription))))
    else
      Step(st, None)
  }

  /** `handleCancel`: back to the props' values and out of editing, with no call. */
  function Cancel(st: EditState, props: Props): (step: Step)
    ensures step.call.None?
    ensures step.state == Init(props)
  {
    Step(EditState(false, props.name, props.description), None)
  }

  /** Editing then cancelling, whatever was typed, returns to the initial state. */
  lemma EditTypeCancel(props: Props, name: string, description: string)
    ensures Cancel(ChangeDescription(ChangeName(StartEdit(Init(props)), name), description), props)
              == Step(Init(props), None)
  {
  }

  /**
   * Saving straight after opening the editor saves the props themselves once
   * trimmed, provided the name is not blank.
   */
  lemma EditThenSave(props: Props)
    requires !AllWhitespace(props.name)
    ensures Save(StartEdit(Init(props))).call == Some(SaveCall(Trim(props.name), Trim(props.description)))
  {
  }
}
