/** Failure-compatible wrappers and the error vocabulary shared by every layer of the
    time tracker: one constructor per error message the application can produce. */
module Base {

  /** Rust's `Option`. */
  datatype Option<+T> = None | Some(value: T) {

    predicate IsFailure() {
      None?
    }

    function PropagateFailure<U>(): Option<U>
      requires None?
    {
      None
    }

    function Extract(): T
      requires Some?
    {
      value
    }

    /** `unwrap_or` */
    function GetOr(default: T): T {
      match this
      case Some(v) => v
      case None => default
    }
  }

  /** Which entity an error message talks about ("Project name ..." / "Task name ..."). */
  datatype Kind = ProjectKind | TaskKind

  datatype Error =
    // value objects
    | InvalidStatus(text: string)
    | IdNotPositive(kind: Kind)
    | InvalidEventType(text: string)
    // entities
    | NameEmpty(kind: Kind)
    | NameTooLong(kind: Kind)
    | NotArchived(kind: Kind)
    // lookups
    | ProjectNotFound
    | TaskNotFound
    | TargetProjectNotFound
    // state rules
    | AlreadyArchived(kind: Kind)
    | CannotUpdateArchived(kind: Kind)
    | NameAlreadyExists(name: string)
    | ActiveTasksPresent
    | ProjectDoesNotExist
    | ArchivedProjectHasActiveTasks(count: nat)
    | CannotCreateTaskInArchivedProject
    | CannotMoveToArchivedProject
    | CannotRestoreInArchivedProject
    | CannotStartArchivedTask
    | CannotAddEntryToArchivedTask
    // time entries
    | StartNotBeforeEnd
    | OverlapsExistingEntry
    | MalformedTimestamp(text: string)
    // SQLite constraints
    | CheckConstraintFailed
    | UniqueConstraintFailed
    | ForeignKeyConstraintFailed

  /** Rust's `Result<T, String>`; the error string is abstracted to an `Error`. */
  datatype Result<+T> = Ok(value: T) | Err(error: Error) {

    predicate IsFailure() {
      Err?
    }

    function PropagateFailure<U>(): Result<U>
      requires Err?
    {
      Err(error)
    }

    function Extract(): T
      requires Ok?
    {
      value
    }
  }

  /** The strictly positive integers: what `ProjectId`/`TaskId` guarantee about their value. */
  type Positive = x: int | x > 0 witness 1
}
