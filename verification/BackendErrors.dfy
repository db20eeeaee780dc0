/** The error codes of the services, `ErrorCode` of BACKEND/core/backend_error.hpp. */
module BackendErrors {
  datatype ErrorCode =
    | InvalidRequest | UnknownMethod | InvalidParams | SessionExpired | AuthenticationFailed | PermissionDenied
    | InvalidPath | NotFound | AlreadyExists | Conflict | StorageError | InternalError
}
