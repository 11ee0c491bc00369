/** File contents and the errors of file-system calls. */
module Files {

  type Bytes = seq<bv8>

  datatype Errno = EEXIST | EPERM | EACCES | ENOENT | ENOTDIR | EISDIR | ENOTEMPTY | EIO
}
