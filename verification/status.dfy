/** The `Status` value object shared by projects and tasks, and its storage spelling. */
module Statuses {
  import opened Base

  datatype Status = Active | Archived {
    predicate IsActive() {
      Active?
    }

    predicate IsArchived() {
      Archived?
    }
  }

  /** `Status::from_str`: only the two storage spellings are accepted. */
  function FromStr(s: string): (r: Result<Status>)
    ensures r.Ok? <==> s == "active" || s == "archived"
    ensures r.Ok? ==> AsStr(r.value) == s
    ensures r.Err? ==> r.error == InvalidStatus(s)
  {
    match s
    case "active" => Ok(Active)
    case "archived" => Ok(Archived)
    case _ => Err(InvalidStatus(s))
  }

  /** `Status::as_str`: the spelling written to the database. */
  function AsStr(st: Status): (s: string)
    ensures s == "active" || s == "archived"
  {
    match st
    case Active => "active"
    case Archived => "archived"
  }

  /** `impl Display`: prints the storage spelling, so the output parses back. */
  function Display(st: Status): (s: string)
    ensures FromStr(s) == Ok(st)
  {
    AsStr(st)
  }

  /** `impl Default`: a fresh entity is active. */
  function Default(): (st: Status)
    ensures st.IsActive() && !st.IsArchived()
  {
    Active
  }

  /** Every status is active or archived, never both. */
  lemma ExactlyOne(st: Status)
    ensures st.IsActive() != st.IsArchived()
  {
  }

  /** Storing and reading back a status gives the same status. */
  lemma RoundTrip(st: Status)
    ensures FromStr(AsStr(st)) == Ok(st)
  {
  }

  /** Two statuses with the same spelling are the same status. */
  lemma AsStrInjective(a: Status, b: Status)
    ensures AsStr(a) == AsStr(b) <==> a == b
  {
  }
}
