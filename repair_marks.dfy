/** The CSS classes the repair rules add to the elements they touch. */
module RepairMarks {
  /** Flashed on an element the system has just fixed (its timed removal is not modelled). */
  const FixedClass := "auto-repair-fixed"
  /** Marks a link whose href looks broken. */
  const WarningClass := "auto-repair-warning"
  /** Marks an image whose loading failed. */
  const ErrorClass := "auto-repair-error"
}
