/** The error codes of libnl that the model returns, negated. */
module Errors {
  const NLE_BAD_SOCK: int := 3
  const NLE_NOMEM: int := 5
  const NLE_EXIST: int := 6
  const NLE_INVAL: int := 7
  const NLE_RANGE: int := 8
  const NLE_OBJ_NOTFOUND: int := 12
  const NLE_SEQ_MISMATCH: int := 16
  const NLE_MSG_OVERFLOW: int := 17
  const NLE_MSG_TRUNC: int := 18
  const NLE_OBJ_MISMATCH: int := 23
  const NLE_DUMP_INTR: int := 33
  const NLE_ATTRSIZE: int := 34

  /** Their numbers in the public header. */
  lemma Numbers()
    ensures [NLE_BAD_SOCK, NLE_NOMEM, NLE_EXIST, NLE_INVAL, NLE_RANGE, NLE_OBJ_NOTFOUND] == [3, 5, 6, 7, 8, 12]
    ensures [NLE_SEQ_MISMATCH, NLE_MSG_OVERFLOW, NLE_MSG_TRUNC, NLE_OBJ_MISMATCH] == [16, 17, 18, 23]
    ensures [NLE_DUMP_INTR, NLE_ATTRSIZE] == [33, 34]
  {
  }
}
