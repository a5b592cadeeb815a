/** The schedule form's state: the record being edited and whether the form
    is in editing mode, changed only by the form's five handlers. */
module Setup {
  import opened Schedule

  class ScheduleForm {
    var data: ScheduleData
    var isEditing: bool

    /** The form opens in view mode on the default record. */
    constructor ()
      ensures data == Default && !isEditing
    {
      data := Default;
      isEditing := false;
    }

    /** `updateState(field, value)`: that field takes the value, every other
        field and the mode stay as they were. The inputs are disabled outside
        editing mode, so this runs only while editing. */
    method UpdateState(field: Field, value: string)
      requires isEditing
      modifies this
      ensures Get(data, field) == value
      ensures forall f :: f != field ==> Get(data, f) == Get(old(data), f)
      ensures isEditing == old(isEditing)
    {
      data := With(data, field, value);
    }

    /** `handleEdit`, behind the Edit button shown in view mode: enter
        editing mode, record untouched. */
    method HandleEdit()
      requires !isEditing
      modifies this
      ensures isEditing && data == old(data)
    {
      isEditing := true;
    }

    /** `handleSave`, behind the Save button shown in editing mode: leave
        editing mode. Nothing is persisted; the record stays as edited. */
    method HandleSave()
      requires isEditing
      modifies this
      ensures !isEditing && data == old(data)
    {
      isEditing := false;
    }

    /** `handleCancel`, behind the Cancel button shown in editing mode: leave
        editing mode without reverting any edit. */
    method HandleCancel()
      requires isEditing
      modifies this
      ensures !isEditing && data == old(data)
    {
      isEditing := false;
    }

    /** `handleReset`, behind the Reset button enabled only in editing mode:
        the record becomes the default, the mode stays. */
    method HandleReset()
      requires isEditing
      modifies this
      ensures data == Default && isEditing == old(isEditing)
    {
      data := Default;
    }
  }

  /** Resetting twice leaves the form as resetting once does. */
  method ResetIsIdempotent(form: ScheduleForm)
    requires form.isEditing
    modifies form
    ensures form.data == Default && form.isEditing
  {
    form.HandleReset();
    var once, mode := form.data, form.isEditing;
    form.HandleReset();
    assert form.data == once && form.isEditing == mode;
  }

  /** An edit made after entering editing mode survives Cancel: cancelling
      only leaves editing mode. */
  method CancelKeepsEdit(form: ScheduleForm, field: Field, value: string)
    requires !form.isEditing
    modifies form
    ensures !form.isEditing
    ensures form.data == With(old(form.data), field, value)
  {
    ghost var before := form.data;
    form.HandleEdit();
    form.UpdateState(field, value);
    form.HandleCancel();
    forall f ensures Get(form.data, f) == Get(With(before, field, value), f) {
    }
    FieldsDetermineRecord(form.data, With(before, field, value));
  }
}
