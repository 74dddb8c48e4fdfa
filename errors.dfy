/**
 * The error taxonomy of infra/errors.ts: four error classes, each with a
 * fixed name and status code, a message and an action that fall back to
 * per-class defaults, and a `toJSON` serialisation.
 */
module Errors {
  import opened Wrappers

  datatype ErrorKind = Service | Unauthorized | Validation | NotFound {

    /** The `name` property, equal to the class name. */
    function Name(): string {
      match this
      case Service => "ServiceError"
      case Unauthorized => "UnauthorizedError"
      case Validation => "ValidationError"
      case NotFound => "NotFoundError"
    }

    function StatusCode(): int {
      match this
      case Service => 503
      case Unauthorized => 401
      case Validation => 409
      case NotFound => 404
    }

    function DefaultMessage(): string {
      match this
      case Service => "Serviço indisponível no momento."
      case Unauthorized => "Usuário não autenticado"
      case Validation => "Erro de validação ocorreu."
      case NotFound => "Não foi possivel encontrar este recurso no sistema"
    }

    function DefaultAction(): string {
      match this
      case Service => "Verifique se o serviço está disponível."
      case Unauthorized => "Faça login novamente"
      case Validation => "Verifique os dados enviados."
      case NotFound => "Verifique se os parâmetros enviados na consulta estão certos"
    }
  }

  /**
   * The constructor argument `{ cause, message, action }`; every key may be
   * left out. A cause is kept as the description of the wrapped error.
   */
  datatype ErrorParams = ErrorParams(message: Option<string>, action: Option<string>, cause: Option<string>)

  /** The argument `{}`, which UnauthorizedError also takes when called with none. */
  const NoParams := ErrorParams(None, None, None)

  /** An error object; only ServiceError passes a cause on to `Error`. */
  datatype AppError = AppError(kind: ErrorKind, message: string, action: string, cause: Option<string>)

  /** What `toJSON()` returns. */
  datatype ErrorJson = ErrorJson(name: string, message: string, action: string, status_code: int)

  /** Something thrown: one of the four application errors, or any other exception. */
  datatype Thrown = Raised(error: AppError) | Foreign(description: string)

  /** JavaScript's `value || fallback` on an optional string: absent and empty both fall back. */
  function OrElse(value: Option<string>, fallback: string): string {
    if value.Some? && value.value != "" then value.value else fallback
  }

  /** Whether a supplied message or action is used, rather than the default. */
  predicate Supplied(value: Option<string>) {
    value.Some? && value.value != ""
  }

  function NewServiceError(p: ErrorParams): (e: AppError)
    ensures e.kind == Service && e.kind.StatusCode() == 503 && e.kind.Name() == "ServiceError"
    ensures Supplied(p.message) ==> e.message == p.message.value
    ensures !Supplied(p.message) ==> e.message == "Serviço indisponível no momento."
    ensures e.action == "Verifique se o serviço está disponível."
    ensures e.cause == p.cause
  {
    AppError(Service, OrElse(p.message, Service.DefaultMessage()), Service.DefaultAction(), p.cause)
  }

  function NewUnauthorizedError(p: ErrorParams): (e: AppError)
    ensures e.kind == Unauthorized && e.kind.StatusCode() == 401 && e.kind.Name() == "UnauthorizedError"
    ensures Supplied(p.message) ==> e.message == p.message.value
    ensures !Supplied(p.message) ==> e.message == "Usuário não autenticado"
    ensures Supplied(p.action) ==> e.action == p.action.value
    ensures !Supplied(p.action) ==> e.action == "Faça login novamente"
    ensures e.cause == None
  {
    AppError(Unauthorized, OrElse(p.message, Unauthorized.DefaultMessage()),
             OrElse(p.action, Unauthorized.DefaultAction()), None)
  }

  function NewValidationError(p: ErrorParams): (e: AppError)
    ensures e.kind == Validation && e.kind.StatusCode() == 409 && e.kind.Name() == "ValidationError"
    ensures Supplied(p.message) ==> e.message == p.message.value
    ensures !Supplied(p.message) ==> e.message == "Erro de validação ocorreu."
    ensures Supplied(p.action) ==> e.action == p.action.value
    ensures !Supplied(p.action) ==> e.action == "Verifique os dados enviados."
    ensures e.cause == None
  {
    AppError(Validation, OrElse(p.message, Validation.DefaultMessage()),
             OrElse(p.action, Validation.DefaultAction()), None)
  }

  function NewNotFoundError(p: ErrorParams): (e: AppError)
    ensures e.kind == NotFound && e.kind.StatusCode() == 404 && e.kind.Name() == "NotFoundError"
    ensures Supplied(p.message) ==> e.message == p.message.value
    ensures !Supplied(p.message) ==> e.message == "Não foi possivel encontrar este recurso no sistema"
    ensures Supplied(p.action) ==> e.action == p.action.value
    ensures !Supplied(p.action) ==> e.action == "Verifique se os parâmetros enviados na consulta estão certos"
    ensures e.cause == None
  {
    AppError(NotFound, OrElse(p.message, NotFound.DefaultMessage()),
             OrElse(p.action, NotFound.DefaultAction()), None)
  }

  function ToJson(e: AppError): (j: ErrorJson)
    ensures j.name == e.kind.Name() && j.status_code == e.kind.StatusCode()
    ensures j.message == e.message && j.action == e.action
  {
    ErrorJson(e.kind.Name(), e.message, e.action, e.kind.StatusCode())
  }

  /** Reads a serialised error back; the kind is recovered from the name. */
  function FromJson(j: ErrorJson): Option<AppError> {
    var kind :=
      if j.name == "ServiceError" then Some(Service)
      else if j.name == "UnauthorizedError" then Some(Unauthorized)
      else if j.name == "ValidationError" then Some(Validation)
      else if j.name == "NotFoundError" then Some(NotFound)
      else None;
    if kind.Some? && kind.value.StatusCode() == j.status_code
    then Some(AppError(kind.value, j.message, j.action, None))
    else None
  }

  /** The serialisation keeps everything but the cause: the name determines the kind. */
  lemma JsonRoundTrip(e: AppError)
    ensures FromJson(ToJson(e)) == Some(e.(cause := None))
  {
  }

  /** Two errors serialise alike exactly when they agree on kind, message and action. */
  lemma JsonDeterminesError(e1: AppError, e2: AppError)
    ensures ToJson(e1) == ToJson(e2) <==> e1.(cause := None) == e2.(cause := None)
  {
    if ToJson(e1) == ToJson(e2) {
      JsonRoundTrip(e1);
      JsonRoundTrip(e2);
    }
  }

  /** Every constructed error has a non-empty message and action. */
  lemma {:induction false} NeverEmpty(kind: ErrorKind, p: ErrorParams)
    ensures var e := match kind
      case Service => NewServiceError(p)
      case Unauthorized => NewUnauthorizedError(p)
      case Validation => NewValidationError(p)
      case NotFound => NewNotFoundError(p);
      e.kind == kind && e.message != "" && e.action != ""
  {
  }
}
