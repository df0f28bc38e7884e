/** Return codes and limits shared by the event writer. */
module Def {
  const SUCCESS: int := 0
  const ERR_DOMAIN_NAME_INVALID: int := -1
  const ERR_EVENT_NAME_INVALID: int := -2
  const ERR_DOES_NOT_INIT: int := -3
  const ERR_OVER_SIZE: int := -4
  const ERR_SEND_FAIL: int := -5
  const ERR_WRITE_IN_HIGH_FREQ: int := -6
  const ERR_EMPTY_EVENT: int := -8
  const ERR_RAW_DATA_WROTE_EXCEPTION: int := -9

  const ERR_KEY_NAME_INVALID: int := 1
  const ERR_VALUE_LENGTH_TOO_LONG: int := 2
  const ERR_KEY_NUMBER_TOO_MUCH: int := 3
  const ERR_ARRAY_TOO_MUCH: int := 4
  const ERR_VALUE_INVALID: int := 5

  const MAX_PARAM_NAME_LENGTH: nat := 48
  const MAX_PARAM_NUMBER: nat := 128
  const MAX_STRING_LENGTH: nat := 256 * 1024
  const MAX_DATA_SIZE: nat := 384 * 1024
}
