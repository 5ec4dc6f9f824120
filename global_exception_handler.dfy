/**
 * The mapping from the exceptions the services raise to the HTTP
 * responses the clients see.
 */
module GlobalExceptionHandler {
  import opened Wrappers
  import opened Exceptions
  import TimesheetService

  datatype Body =
    | ErrorBody(error: string)
    | ValidationBody(error: string, details: map<string, string>)

  datatype Response = Response(status: int, body: Body)

  const Unauthorized: int := 401
  const BadRequest: int := 400
  const InternalServerError: int := 500

  const InvalidValue: string := "Invalid value"
  const InvalidCredentials: string := "Invalid credentials provided"
  const ValidationFailed: string := "Validation failed"
  const UnexpectedError: string := "An unexpected server error occurred."

  /** The message shown for one field error: its default message, or a fixed text when it has none. */
  function MessageOf(e: FieldError): string
  {
    if e.defaultMessage.Some? then e.defaultMessage.value else InvalidValue
  }

  function Fields(errors: seq<FieldError>): (fs: set<string>)
    ensures forall f :: f in fs <==> exists e :: e in errors && e.field == f
  {
    if errors == [] then {}
    else
      assert errors == errors[..|errors| - 1] + [errors[|errors| - 1]];
      Fields(errors[..|errors| - 1]) + {errors[|errors| - 1].field}
  }

  /** No field is reported twice. */
  predicate FieldsDistinct(errors: seq<FieldError>)
  {
    forall i, j :: 0 <= i < j < |errors| ==> errors[i].field != errors[j].field
  }

  /**
   * Collectors.toMap over the field errors: field name to message. A field
   * reported twice makes the collector throw, which leaves the handler
   * without a response (None).
   */
  function ValidationDetails(errors: seq<FieldError>): (r: Option<map<string, string>>)
    ensures r.Some? <==> FieldsDistinct(errors)
    ensures r.Some? ==> r.value.Keys == Fields(errors)
    ensures r.Some? ==> forall e :: e in errors ==> r.value[e.field] == MessageOf(e)
  {
    if errors == [] then Some(map[])
    else
      var prefix := errors[..|errors| - 1];
      var last := errors[|errors| - 1];
      FieldsDistinctSnoc(prefix, last);
      assert errors == prefix + [last];
      match ValidationDetails(prefix)
      case None => None
      case Some(m) =>
        if last.field in m then None
        else
          DetailsStep(prefix, last, m);
          Some(m[last.field := MessageOf(last)])
  }

  /** Adding a new field's message to the details of the earlier errors gives the details of all of them. */
  lemma DetailsStep(prefix: seq<FieldError>, last: FieldError, m: map<string, string>)
    requires m.Keys == Fields(prefix) && last.field !in m
    requires forall e :: e in prefix ==> m[e.field] == MessageOf(e)
    ensures var r := m[last.field := MessageOf(last)];
            && r.Keys == Fields(prefix + [last])
            && forall e :: e in prefix + [last] ==> r[e.field] == MessageOf(e)
  {

  }

  /** Appending a field error keeps the fields distinct exactly when its field is new. */
  lemma FieldsDistinctSnoc(prefix: seq<FieldError>, last: FieldError)
    ensures FieldsDistinct(prefix + [last]) <==> FieldsDistinct(prefix) && last.field !in Fields(prefix)
  {
    var s := prefix + [last];
    if FieldsDistinct(prefix) && last.field !in Fields(prefix) {
      forall i, j | 0 <= i < j < |s| ensures s[i].field != s[j].field {
        if j == |prefix| {
          assert s[i] in prefix;
        } else {
          assert s[i] == prefix[i] && s[j] == prefix[j];
        }
      }
    }
    if FieldsDistinct(s) {
      forall i, j | 0 <= i < j < |prefix| ensures prefix[i].field != prefix[j].field {
        assert s[i] == prefix[i] && s[j] == prefix[j];
      }
      forall e | e in prefix ensures e.field != last.field {
        var i :| 0 <= i < |prefix| && prefix[i] == e;
        assert s[i] == e && s[|prefix|] == last;
      }
    }
  }

  /**
   * The advice: authentication failures give 401 with a fixed text,
   * business-rule violations 400 with their own message, validation
   * failures 400 with the per-field details, and any other runtime failure
   * 500 with a fixed text.
   */
  function Handle(e: AppException): (r: Option<Response>)
    ensures r.None? <==> e.ArgumentNotValid? && !FieldsDistinct(e.fieldErrors)
    ensures r.Some? ==> (r.value.status == Unauthorized <==> e.AuthenticationFailure?)
    ensures r.Some? ==> (r.value.status == InternalServerError <==> e.Runtime?)
    ensures r.Some? ==> (r.value.status == BadRequest <==> e.IllegalState? || e.IllegalArgument? || e.ArgumentNotValid?)
    ensures (e.IllegalState? || e.IllegalArgument?) ==> r == Some(Response(BadRequest, ErrorBody(e.message)))
    ensures e.AuthenticationFailure? ==> r == Some(Response(Unauthorized, ErrorBody(InvalidCredentials)))
    ensures e.Runtime? ==> r == Some(Response(InternalServerError, ErrorBody(UnexpectedError)))
    ensures e.ArgumentNotValid? && FieldsDistinct(e.fieldErrors) ==>
              r == Some(Response(BadRequest, ValidationBody(ValidationFailed, ValidationDetails(e.fieldErrors).value)))
    ensures r.Some? && r.value.body.ValidationBody? ==> e.ArgumentNotValid? && r.value.body.details.Keys == Fields(e.fieldErrors)
  {
    match e
    case AuthenticationFailure(_) => Some(Response(Unauthorized, ErrorBody(InvalidCredentials)))
    case IllegalState(message) => Some(Response(BadRequest, ErrorBody(message)))
    case IllegalArgument(message) => Some(Response(BadRequest, ErrorBody(message)))
    case ArgumentNotValid(errors) =>
      (match ValidationDetails(errors)
       case None => None
       case Some(details) => Some(Response(BadRequest, ValidationBody(ValidationFailed, details))))
    case Runtime(_) => Some(Response(InternalServerError, ErrorBody(UnexpectedError)))
  }

  /** What a client learns from an authentication failure does not depend on its cause. */
  lemma AuthenticationResponseIsUniform(m1: string, m2: string)
    ensures Handle(AuthenticationFailure(m1)) == Handle(AuthenticationFailure(m2))
    ensures Handle(AuthenticationFailure(m1)).value.status == Unauthorized
  {
  }

  /** A failed CSV export reaches the client as a 500 that hides the writer's message. */
  lemma ExportFailureResponse(message: string)
    ensures Handle(TimesheetService.ExportError(message)) == Some(Response(InternalServerError, ErrorBody(UnexpectedError)))
  {
  }
}
