/** The HTTP status codes the handlers answer with (Go's `net/http` constants). */
module HttpStatus {
  const StatusOK: nat := 200
  const StatusCreated: nat := 201
  const StatusBadRequest: nat := 400
  const StatusUnauthorized: nat := 401
  const StatusInternalServerError: nat := 500
}
