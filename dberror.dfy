/** Module-wide constants and the return codes of the storage and buffer managers. */
module DbError {

  /** Size in bytes of one disk block and of one in-memory page frame. */
  const PAGE_SIZE: nat := 4096

  /** The return codes a buffer-manager or storage-manager call can answer with. */
  datatype RC =
    | RC_OK
    | RC_FILE_NOT_FOUND
    | RC_FILE_HANDLE_NOT_INIT
    | RC_READ_NON_EXISTING_PAGE
    | RC_WRITE_NON_EXISTING_PAGE
    | RC_READ_PAGE_FALIED
    | RC_WRITE_PAGE_FAILED
    | RC_REMOVE_PAGE_FAILED
    | RC_PARAMS_ERROR
    | RC_MEMORY_ALLOC_FAILED
    | RC_NOT_SUPPORT_STRATEGY
    | RC_PAGE_NOT_EXIST
    | RC_BUFFER_EMPTY
    | RC_NO_FREE_PIN_PAGE
    | RC_BUFFER_NOT_INIT

  /** The numeric value of a return code. Storage codes are below 100,
      buffer-manager codes lie in 100..199, and only success is 0. */
  function Code(rc: RC): (n: int)
    ensures n == 0 <==> rc == RC_OK
    ensures 0 <= n < 200
    ensures (0 < n < 100) <==> rc in {RC_FILE_NOT_FOUND, RC_FILE_HANDLE_NOT_INIT,
                                       RC_READ_NON_EXISTING_PAGE, RC_WRITE_NON_EXISTING_PAGE,
                                       RC_READ_PAGE_FALIED, RC_WRITE_PAGE_FAILED,
                                       RC_REMOVE_PAGE_FAILED}
  {
    match rc
    case RC_OK => 0
    case RC_FILE_NOT_FOUND => 1
    case RC_FILE_HANDLE_NOT_INIT => 2
    case RC_READ_NON_EXISTING_PAGE => 3
    case RC_WRITE_NON_EXISTING_PAGE => 4
    case RC_READ_PAGE_FALIED => 5
    case RC_WRITE_PAGE_FAILED => 6
    case RC_REMOVE_PAGE_FAILED => 7
    case RC_PARAMS_ERROR => 100
    case RC_MEMORY_ALLOC_FAILED => 101
    case RC_NOT_SUPPORT_STRATEGY => 102
    case RC_PAGE_NOT_EXIST => 103
    case RC_BUFFER_EMPTY => 104
    case RC_NO_FREE_PIN_PAGE => 105
    case RC_BUFFER_NOT_INIT => 106
  }
}
