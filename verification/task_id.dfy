/** The `TaskId` value object: a strictly positive integer. */
module TaskIds {
  import opened Base
  import Text

  datatype TaskId = TaskId(value: Positive)

  /** `TaskId::new`: rejects zero and negative identifiers. */
  function New(id: int): (r: Result<TaskId>)
    ensures r.Ok? <==> id > 0
    ensures r.Ok? ==> r.value.value == id
    ensures r.Err? ==> r.error == IdNotPositive(TaskKind)
  {
    if id <= 0 then Err(IdNotPositive(TaskKind)) else Ok(TaskId(id))
  }

  /** `value()` and `From<TaskId> for i64`: the wrapped integer, which `new` accepts back. */
  function ToInt(id: TaskId): (v: int)
    ensures v > 0
    ensures New(v) == Ok(id)
  {
    id.value
  }

  /** `impl Display`: the decimal digits of the identifier. */
  function Display(id: TaskId): (s: string)
    ensures Text.ParseDecimal(s) == Some(id.value as nat)
  {
    Text.DecimalRoundTrip(id.value);
    Text.Decimal(id.value)
  }

  /** Identifiers are equal exactly when their values are. */
  lemma EqualIffSameValue(a: TaskId, b: TaskId)
    ensures a == b <==> ToInt(a) == ToInt(b)
  {
  }
}
