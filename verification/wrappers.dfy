/** The optional-value datatype used where the TypeScript code has a
    nullable or optional field (`localRule: ScheduleRule | null`,
    `timeSlots?: TimeSlot[]`) or a parse that can fail. */
module Wrappers {

  datatype Option<+T> = None | Some(value: T)
}
