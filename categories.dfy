/** `SnapshotChangeCategory`: the ranked kinds of change a snapshot can capture. */
module Categories {
  import opened Wrappers

  /** Declared in decreasing order of severity; that order is part of the contract. */
  datatype ChangeCategory =
    | Breaking
    | NonBreaking
    | ForwardOnly
    | IndirectBreaking
    | IndirectNonBreaking

  /** The integer value of each member of the `IntEnum`. */
  function Value(c: ChangeCategory): (v: int)
    ensures 1 <= v <= 5
  {
    match c
    case Breaking => 1
    case NonBreaking => 2
    case ForwardOnly => 3
    case IndirectBreaking => 4
    case IndirectNonBreaking => 5
  }

  /** `SnapshotChangeCategory(v)`: the member with value `v`, if there is one. */
  function FromValue(v: int): (r: Option<ChangeCategory>)
    ensures r.Some? <==> 1 <= v <= 5
    ensures r.Some? ==> Value(r.value) == v
  {
    if v == 1 then Some(Breaking)
    else if v == 2 then Some(NonBreaking)
    else if v == 3 then Some(ForwardOnly)
    else if v == 4 then Some(IndirectBreaking)
    else if v == 5 then Some(IndirectNonBreaking)
    else None
  }

  /** Every member is recovered from its value. */
  lemma FromValueOfValue(c: ChangeCategory)
    ensures FromValue(Value(c)) == Some(c)
  {
  }

  /** Distinct members have distinct values, so comparing values orders the members. */
  lemma ValueInjective(a: ChangeCategory, b: ChangeCategory)
    ensures Value(a) == Value(b) <==> a == b
  {
  }

  /** A snapshot whose category is optional: `is_forward_only` and
      `is_indirect_non_breaking` of `SnapshotInfoMixin` are false while uncategorized. */
  predicate OptIsForwardOnly(c: Option<ChangeCategory>) { c == Some(ForwardOnly) }
  predicate OptIsIndirectNonBreaking(c: Option<ChangeCategory>) { c == Some(IndirectNonBreaking) }

  /** The categories `categorize_as` treats as forward-only: they reuse the previous version. */
  predicate ReusesPreviousVersion(c: ChangeCategory) {
    c == ForwardOnly || c == IndirectNonBreaking
  }
}
