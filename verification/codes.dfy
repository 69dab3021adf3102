/**
 * Return codes of the scapi library. The numeric values of the ERR_* codes live
 * in a header that is not part of this model, so they are named constructors here.
 */
module Codes {

  datatype Code =
    | Ok                      // UGW_SUCCESS / EXIT_SUCCESS
    | GenericFailure          // -EXIT_FAILURE / UGW_FAILURE
    | InputValidationFailed   // ERR_INPUT_VALIDATION_FAILED
    | ValidationFailed        // ERR_VALIDATION_FAILED
    | PoolExhausted           // ERR_MACADDRESS_POOL_EXHAUSTED
    | FileOperFailed          // ERR_MACADDRESS_DEFAULT_FILE_OPER_FAILED
    | GlobFetchFailed         // ERR_MACADDRESS_GLOB_FETCH_FAILED
    | InterfaceNotUp          // ERR_MACADDRESS_INTERFACE_NOT_UP
    | BaseMacFailed           // failure code of the base-MAC collaborator

  /** EDQUOTA, returned by the whitelist check of the MAC allocator. */
  const EDQUOTA: int := 122
  /** MAC_IN_USE; the uniqueness check returns its negation. */
  const MAC_IN_USE: int := 422
}
