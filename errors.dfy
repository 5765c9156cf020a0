/** The exceptions the snapshot engine raises, as values. */
module Errors {

  datatype SnapshotError =
    /** `intervals` or `dev_intervals` read before they were hydrated (an AssertionError). */
    | IntervalsNotHydrated
    /** `_ensure_categorized`: no change category has been assigned. */
    | NotCategorized
    /** `_ensure_categorized`: the version is unset or empty. */
    | NotVersioned
    /** `inclusive_exclusive`: the normalised end does not exceed the normalised start. */
    | EndNotAfterStart(startTs: int, endTs: int)
    /** `merge_intervals([])` indexes an empty list (an IndexError). */
    | EmptyIntervalList
    /** `has_paused_forward_only`: a target that is not among the snapshots (a KeyError). */
    | UnknownSnapshot(name: string, identifier: string)
    /** `_model_metadata_hash`: an audit that is neither built in nor supplied. */
    | UnknownAudit(auditName: string)
}
