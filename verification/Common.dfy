// The driver's return codes, and what several modules need about numbers and lists.
module Common {
  const NO_ERROR: nat := 0
  const ERROR_FILE_NOT_FOUND: nat := 2
  const ERROR_WRITE_PROTECT: nat := 19
  const ERROR_SECTOR_NOT_FOUND: nat := 27
  const ERROR_INVALID_PARAMETER: nat := 87
  const ERROR_BUFFER_OVERFLOW: nat := 111
  const ERROR_DISK_FULL: nat := 112
  const ERROR_NEGATIVE_SEEK: nat := 131
  const ERROR_EA_LIST_INCONSISTENT: nat := 255
  const ERROR_EA_LIST_TOO_LONG: nat := 256
  const ERROR_EAS_DIDNT_FIT: nat := 275
  const ERROR_NO_EAS_ON_ROOT: nat := 284

  function Min(a: nat, b: nat): nat { if a < b then a else b }

  ghost predicate Distinct(s: seq<nat>) {
    forall i, j :: 0 <= i < j < |s| ==> s[i] != s[j]
  }
}
