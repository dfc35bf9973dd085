/**
 * Failure-carrying values shared by every module of the model.
 *
 * `Option` stands for a C pointer that may be NULL and for Python values that
 * may be missing; `Result` stands for a return value that may instead be an
 * error; `EspErr` is the subset of ESP-IDF `esp_err_t` codes the firmware
 * returns.
 */
module Wrappers {

  datatype Option<+T> = None | Some(value: T) {
    function GetOr(default: T): T {
      match this
      case Some(v) => v
      case None => default
    }
  }

  datatype Result<+T, +E> = Success(value: T) | Failure(error: E)

  /** The `esp_err_t` codes the modelled firmware returns. */
  datatype EspErr =
    | Ok            // ESP_OK
    | Fail          // ESP_FAIL
    | NoMem         // ESP_ERR_NO_MEM
    | InvalidArg    // ESP_ERR_INVALID_ARG
    | InvalidState  // ESP_ERR_INVALID_STATE
    | InvalidSize   // ESP_ERR_INVALID_SIZE
    | NotFound      // ESP_ERR_NOT_FOUND
    | Timeout       // ESP_ERR_TIMEOUT
    | Other(code: int)
}
