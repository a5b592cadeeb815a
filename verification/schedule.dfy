/** The schedule record every component shares. All seven fields are kept as
    the strings the form's inputs hold: times as "HH:MM", durations and grace
    periods as numeric text, remarks as free text. */
module Schedule {

  datatype ScheduleData = ScheduleData(
    workStart: string,
    workEnd: string,
    breakStart: string,
    breakDuration: string,
    workGracePeriod: string,
    breakGracePeriod: string,
    remarks: string)

  /** The names of the record's fields, the keys an update addresses. */
  datatype Field =
    | WorkStart | WorkEnd | BreakStart | BreakDuration
    | WorkGracePeriod | BreakGracePeriod | Remarks

  /** The record the form starts from and returns to on reset:
      08:00 to 17:00, a 60-minute break at 12:00, 5-minute grace periods,
      no remarks. */
  const Default := ScheduleData("08:00", "17:00", "12:00", "60", "5", "5", "")

  function Get(d: ScheduleData, f: Field): string {
    match f
    case WorkStart => d.workStart
    case WorkEnd => d.workEnd
    case BreakStart => d.breakStart
    case BreakDuration => d.breakDuration
    case WorkGracePeriod => d.workGracePeriod
    case BreakGracePeriod => d.breakGracePeriod
    case Remarks => d.remarks
  }

  /** `{ ...d, [f]: v }`: the record with field `f` replaced by `v`. */
  function With(d: ScheduleData, f: Field, v: string): (r: ScheduleData)
    ensures Get(r, f) == v
    ensures forall g :: g != f ==> Get(r, g) == Get(d, g)
  {
    match f
    case WorkStart => d.(workStart := v)
    case WorkEnd => d.(workEnd := v)
    case BreakStart => d.(breakStart := v)
    case BreakDuration => d.(breakDuration := v)
    case WorkGracePeriod => d.(workGracePeriod := v)
    case BreakGracePeriod => d.(breakGracePeriod := v)
    case Remarks => d.(remarks := v)
  }

  /** Proof helper: a record is determined by the values of its fields, so
      field-wise postconditions pin down the whole record. */
  lemma FieldsDetermineRecord(d: ScheduleData, e: ScheduleData)
    requires forall f :: Get(d, f) == Get(e, f)
    ensures d == e
  {
    assert Get(d, WorkStart) == Get(e, WorkStart);
    assert Get(d, WorkEnd) == Get(e, WorkEnd);
    assert Get(d, BreakStart) == Get(e, BreakStart);
    assert Get(d, BreakDuration) == Get(e, BreakDuration);
    assert Get(d, WorkGracePeriod) == Get(e, WorkGracePeriod);
    assert Get(d, BreakGracePeriod) == Get(e, BreakGracePeriod);
    assert Get(d, Remarks) == Get(e, Remarks);
  }
}
