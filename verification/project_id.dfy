/** The `ProjectId` value object: a strictly positive integer. */
module ProjectIds {
  import opened Base
  import Text

  datatype ProjectId = ProjectId(value: Positive)

  /** `ProjectId::new`: rejects zero and negative identifiers. */
  function New(id: int): (r: Result<ProjectId>)
    ensures r.Ok? <==> id > 0
    ensures r.Ok? ==> r.value.value == id
    ensures r.Err? ==> r.error == IdNotPositive(ProjectKind)
  {
    if id <= 0 then Err(IdNotPositive(ProjectKind)) else Ok(ProjectId(id))
  }

  /** `value()` and `From<ProjectId> for i64`: the wrapped integer, which `new` accepts back. */
  function ToInt(id: ProjectId): (v: int)
    ensures v > 0
    ensures New(v) == Ok(id)
  {
    id.value
  }

  /** `impl Display`: the decimal digits of the identifier. */
  function Display(id: ProjectId): (s: string)
    ensures Text.ParseDecimal(s) == Some(id.value as nat)
  {
    Text.DecimalRoundTrip(id.value);
    Text.Decimal(id.value)
  }

  /** Identifiers are equal exactly when their values are. */
  lemma EqualIffSameValue(a: ProjectId, b: ProjectId)
    ensures a == b <==> ToInt(a) == ToInt(b)
  {
  }
}
