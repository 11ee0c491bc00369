/** The errors the store reports, and the one check all its bucket operations begin with. */
module StoreErrors {
  import opened Wrappers
  import opened Files
  import opened ObjectKeys

  datatype StoreError =
    | InvalidBucketName | NoSuchBucket | UnsafeStoragePath | BucketAlreadyExists | BucketNotEmpty
    | InvalidObjectName | InvalidPrefix | ChecksumMismatch | StreamFailed
    | StatFailed // the new object is in place, but reading it back failed
    | InvalidPart | NoSuchUpload
    | NoSuchAccessKey | LastAccessKey
    | FileSystem(errno: Errno)

  /** `requireBucket`: None when the bucket is recorded and its path is a real directory. */
  function BucketRefusal(name: string, recorded: bool, present: bool, isDirectory: bool): (error: Option<StoreError>)
    ensures error == Some(InvalidBucketName) <==> !ValidBucketName(name)
    ensures error == Some(NoSuchBucket) <==> ValidBucketName(name) && !(recorded && present)
    ensures error == Some(UnsafeStoragePath) <==> ValidBucketName(name) && recorded && present && !isDirectory
    ensures error.None? <==> ValidBucketName(name) && recorded && present && isDirectory
  {
    if !ValidBucketName(name) then Some(InvalidBucketName)
    else if !recorded || !present then Some(NoSuchBucket)
    else if !isDirectory then Some(UnsafeStoragePath)
    else None
  }
}
