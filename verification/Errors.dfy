/** The error codes the modelled functions can return, and stock result types. */
module Errors {
  datatype Error =
    | ErrNone
    | ErrNotAligned
    | ErrMmap
    | ErrMunmap
    | ErrNoHugepages
    | ErrSysconf
    | ErrPagemap
    | ErrPageEntry
    | ErrMeminfo
    | ErrIoHdf
    | ErrHdf5
    | ErrNotSupportedOutput
    | ErrCounter

  datatype Option<+T> = None | Some(value: T)

  datatype Result<+T> = Ok(value: T) | Err(error: Error)
}
