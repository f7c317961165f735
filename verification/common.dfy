/** Result values shared by the controllers: an optional value, a success-or-error
    result, and the error kinds the API answers with. */
module Common {

  datatype Option<+T> = None | Some(value: T)

  datatype Result<+R> = Success(value: R) | Failure(error: ApiError)

  /** The ways a request can be refused. */
  datatype ApiError =
    | NotFound        // route-model binding found no row for the path id
    | NotAvailable    // borrow of a book whose status is not "Available"
    | NotBorrowed     // return of a book whose status is not "Borrowed"
    | Forbidden       // the requester does not own the resource
    | Unprocessable   // request validation failed

  /** The HTTP status code each refusal is answered with. */
  function HttpStatus(e: ApiError): (code: int)
    ensures 400 <= code < 500
    ensures code == 400 <==> e == NotAvailable || e == NotBorrowed
    ensures code == 403 <==> e == Forbidden
    ensures code == 404 <==> e == NotFound
    ensures code == 422 <==> e == Unprocessable
  {
    match e
    case NotFound => 404
    case NotAvailable => 400
    case NotBorrowed => 400
    case Forbidden => 403
    case Unprocessable => 422
  }
}
