/** Applying a patch: every field of CollectionPatch and UserPatch is a Go
    pointer that, when set, replaces the current value. */
module Patch {
  import opened Errors

  /** `*v` when the patch field is set, the current value when it is nil. */
  function PatchValue(v: Option<string>, current: string): (r: string)
    ensures v.Some? ==> r == v.value
    ensures v.None? ==> r == current
  {
    if v.Some? then v.value else current
  }
}
