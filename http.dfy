/** The HTTP status codes the modelled route handlers answer with. Of the 500s raised
    when a MongoDB call throws, only the cast failure on a malformed message id is
    modelled. */
module Http {

  datatype Status =
    | Ok            // 200
    | Created       // 201
    | BadRequest    // 400
    | Unauthorized  // 401
    | NotFound      // 404
    | ServerError   // 500
}
