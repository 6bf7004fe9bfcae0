/** What the kernel's files share: error codes, optional results, the page and the machine word. */
module Kernel {

  datatype Errno = Ok | EACCES | EEXIST | EFAULT | EINVAL | EIO | ENOENT | ENOMEM | ENOTSUP

  datatype Option<+T> = None | Some(value: T)

  const PAGESZ: int := 0x1000

  /** The range of a 64-bit word. */
  const WRAP: int := 0x1_0000_0000_0000_0000
}
