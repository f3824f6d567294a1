/** Inode kinds, errors and timestamps. */
module Model {
  import opened Basics
  import opened Chunking

  datatype FileKind = RegularFile | Directory | Symlink

  datatype DbError =
    | AlreadyExists | DirectoryNotEmpty | InvalidInput | IsDirectory | NameTooLong | NoSpace
    | NotDirectory | NotFound | FileTooLarge | Sqlite

  datatype Result<+T> = Ok(value: T) | Err(error: DbError)

  /** How a failing store reports it, whatever the request. */
  predicate IsStorageFailure(e: DbError) {
    e == NoSpace || e == Sqlite
  }

  /** A commit of buffered chunks that was tried, and why it was refused, if it was. */
  datatype Attempt = Attempt(ino: nat, refusal: Option<DbError>)

  /** What a file operation answers on an inode of this kind, if it refuses. */
  function RegularFileError(kind: FileKind): Option<DbError> {
    match kind
    case RegularFile => None
    case Directory => Some(IsDirectory)
    case Symlink => Some(InvalidInput)
  }
}
