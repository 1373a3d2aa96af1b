/** The `AsyncFileRepository` and `AsyncFile` interfaces of
    async_file_repository.h, answered from an in-memory repository: each
    operation hands its answer straight to its continuation and returns
    whatever the continuation returns. */
module AsyncFiles {
  import opened Base
  import opened Mocks

  /** `read_file`: the stored file, or none. */
  function ReadFile<R>(repo: FileRepository, path: string, k: Option<File> -> R): R {
    k(GetFile(repo, path))
  }

  /** `is_world_readable`. */
  function IsWorldReadable<R>(file: File, k: bool -> R): R {
    k(file.worldReadable)
  }

  /** `read_contents`. */
  function ReadContents<R>(file: File, k: string -> R): R {
    k(file.contents)
  }

  /** `read_last_modified`. */
  function ReadLastModified<R>(file: File, k: string -> R): R {
    k(file.lastModified)
  }
}
