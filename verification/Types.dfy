/** src/common/types.h: status codes and block levels. */
module Types {

  datatype Status =
    | Ok
    | NotFound
    | AlreadyExists
    | InvalidArgument
    | IOError
    | NotDirectory
    | NotEmpty
    | NoSpace
    | CRCMismatch
    | Internal

  datatype BlkLevel = L0 | L1 | L2 | L3 | L4

  function BlockLevelSize(level: BlkLevel): (size: nat)
    ensures 64 * 1024 <= size <= 256 * 1024 * 1024
  {
    match level
    case L0 => 64 * 1024
    case L1 => 512 * 1024
    case L2 => 4 * 1024 * 1024
    case L3 => 32 * 1024 * 1024
    case L4 => 256 * 1024 * 1024
  }

  function SelectBlockLevel(fileSize: nat): BlkLevel {
    if fileSize <= 64 * 1024 then L0
    else if fileSize <= 512 * 1024 then L1
    else if fileSize <= 4 * 1024 * 1024 then L2
    else L3
  }

  /** The uint8_t of a level. */
  function LevelByte(level: BlkLevel): bv8 {
    match level
    case L0 => 0
    case L1 => 1
    case L2 => 2
    case L3 => 3
    case L4 => 4
  }
}
