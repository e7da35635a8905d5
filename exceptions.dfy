/**
 * `GlobalExceptionHandler`: the translation of the exceptions that reach
 * the web layer into error responses. The timestamp and the request URI
 * are inputs; the ResponseEntity wrapper is reduced to its body, whose
 * `status` field carries the HTTP status.
 */
module Exceptions {

  import opened Wrappers
  import Services

  /** A `FieldError` of the binding result: the field name and its default message. */
  datatype FieldError = FieldError(field: string, defaultMessage: string)

  /**
   * The exception kinds the application can raise towards the web layer.
   * Subclasses are folded into the kind whose handler Spring selects for them.
   */
  datatype Exception =
    | EntityNotFound(message: string)
    | EntityStatus(message: string)
    | IllegalArgument(message: string)
    | MethodArgumentTypeMismatch(message: string)
    | HttpMessageNotReadable(message: string)
    | DateTimeError(message: string)
    | NullPointer(message: string)
    | InvalidDataAccessApiUsage(message: string)
    | DataIntegrityViolation(message: string)
    | MethodArgumentNotValid(fieldErrors: seq<FieldError>)

  /** The bodies `ResponseErrorDTO` and `ResponseValidationErrorDTO`. */
  datatype Response =
    | ResponseError(timestamp: nat, status: nat, error: string, message: string, path: string)
    | ResponseValidationError(timestamp: nat, status: nat, error: string, message: string, path: string,
                              errors: map<string, seq<string>>)

  const BAD_REQUEST: nat := 400
  const NOT_FOUND: nat := 404
  const INTERNAL_SERVER_ERROR: nat := 500

  const NULL_OBJECT_MESSAGE := "Internal Server Error - null object"
  const PERSISTENCE_MESSAGE := "Database persistence statement error"
  const VALIDATION_MESSAGE := "Field validation failed"

  /** `HttpStatus.getReasonPhrase()` for the statuses used here. */
  function ReasonPhrase(status: nat): string {
    if status == BAD_REQUEST then "Bad Request"
    else if status == NOT_FOUND then "Not Found"
    else if status == INTERNAL_SERVER_ERROR then "Internal Server Error"
    else ""
  }

  /** The kinds handled by `handleIllegalArgumentTypeMismatchParseException`. */
  predicate IsMalformedRequest(e: Exception) {
    e.IllegalArgument? || e.MethodArgumentTypeMismatch? || e.HttpMessageNotReadable? || e.DateTimeError?
  }

  /** The kinds handled by `handleDataAccessException`. */
  predicate IsDataAccess(e: Exception) {
    e.InvalidDataAccessApiUsage? || e.DataIntegrityViolation?
  }

  // ---------------------------------------------------------------------
  // Grouping of validation errors by field
  // ---------------------------------------------------------------------

  /** The field names occurring in `errs`. */
  function FieldNames(errs: seq<FieldError>): set<string> {
    if errs == [] then {} else FieldNames(errs[..|errs| - 1]) + {errs[|errs| - 1].field}
  }

  /** The messages of the errors on `field`, in input order, duplicates kept. */
  function MessagesFor(errs: seq<FieldError>, field: string): seq<string> {
    if errs == [] then []
    else MessagesFor(errs[..|errs| - 1], field)
         + (if errs[|errs| - 1].field == field then [errs[|errs| - 1].defaultMessage] else [])
  }

  /** The `errors` map of a validation response: each field to its messages. */
  function FieldErrorMap(errs: seq<FieldError>): map<string, seq<string>> {
    map f | f in FieldNames(errs) :: MessagesFor(errs, f)
  }

  /** The number of errors on `field`, counted from the front. */
  function Occurrences(errs: seq<FieldError>, field: string): nat {
    if errs == [] then 0
    else (if errs[0].field == field then 1 else 0) + Occurrences(errs[1..], field)
  }

  /** The positions of the errors on `field`, in increasing order. */
  function Positions(errs: seq<FieldError>, field: string): seq<nat> {
    if errs == [] then []
    else Positions(errs[..|errs| - 1], field) + (if errs[|errs| - 1].field == field then [|errs| - 1] else [])
  }

  /** The keys of the map are exactly the field names occurring in the input. */
  lemma {:induction false} FieldErrorMapKeys(errs: seq<FieldError>, f: string)
    ensures f in FieldErrorMap(errs) <==> exists i :: 0 <= i < |errs| && errs[i].field == f
  {
    if errs != [] {
      var init := errs[..|errs| - 1];
      FieldErrorMapKeys(init, f);
      if f in FieldNames(init) {
        var i :| 0 <= i < |init| && init[i].field == f;
        assert errs[i].field == f;
      }
      if exists i :: 0 <= i < |errs| && errs[i].field == f {
        var i :| 0 <= i < |errs| && errs[i].field == f;
        if i < |errs| - 1 {
          assert init[i].field == f;
        }
      }
    }
  }

  /**
   * The messages for a field are the messages at the field's positions,
   * which are exactly the (increasing) indices of the errors on that field.
   */
  lemma {:induction false} MessagesAtPositions(errs: seq<FieldError>, f: string)
    ensures |MessagesFor(errs, f)| == |Positions(errs, f)|
    ensures forall k :: 0 <= k < |Positions(errs, f)| ==>
              Positions(errs, f)[k] < |errs| && MessagesFor(errs, f)[k] == errs[Positions(errs, f)[k]].defaultMessage
    ensures forall j :: j in Positions(errs, f) <==> 0 <= j < |errs| && errs[j].field == f
    ensures forall k, l :: 0 <= k < l < |Positions(errs, f)| ==> Positions(errs, f)[k] < Positions(errs, f)[l]
  {
    if errs != [] {
      var init := errs[..|errs| - 1];
      MessagesAtPositions(init, f);
      var ps, ms := Positions(errs, f), MessagesFor(errs, f);
      var ps0, ms0 := Positions(init, f), MessagesFor(init, f);
      forall k | 0 <= k < |ps0|
        ensures ps[k] == ps0[k] && ms[k] == ms0[k] && ms[k] == errs[ps[k]].defaultMessage
      {
        assert init[ps0[k]] == errs[ps0[k]];
      }
    }
  }

  /** Splitting the input splits the count. */
  lemma {:induction false} OccurrencesAppend(a: seq<FieldError>, b: seq<FieldError>, f: string)
    ensures Occurrences(a + b, f) == Occurrences(a, f) + Occurrences(b, f)
  {
    if a != [] {
      assert (a + b)[1..] == a[1..] + b;
      OccurrencesAppend(a[1..], b, f);
    } else {
      assert a + b == b;
    }
  }

  /** The message list of a field is as long as the field's occurrence count. */
  lemma {:induction false} MessagesForLength(errs: seq<FieldError>, f: string)
    ensures |MessagesFor(errs, f)| == Occurrences(errs, f)
  {
    if errs != [] {
      var init, last := errs[..|errs| - 1], errs[|errs| - 1];
      MessagesForLength(init, f);
      assert errs == init + [last];
      OccurrencesAppend(init, [last], f);
    }
  }

  // ---------------------------------------------------------------------
  // Handlers
  // ---------------------------------------------------------------------

  /**
   * The `@ExceptionHandler` selection and the handler bodies. `None` means
   * that no handler of this class applies: `EntityStatusException` has none.
   */
  function Handle(e: Exception, now: nat, uri: string): (r: Option<Response>)
    ensures r.None? <==> e.EntityStatus?
    ensures r.Some? ==> r.value.timestamp == now && r.value.path == uri
                        && r.value.error == ReasonPhrase(r.value.status)
    ensures r.Some? ==> (r.value.status == NOT_FOUND <==> e.EntityNotFound?)
    ensures r.Some? ==> (r.value.status == BAD_REQUEST <==> IsMalformedRequest(e) || e.MethodArgumentNotValid?)
    ensures r.Some? ==> (r.value.status == INTERNAL_SERVER_ERROR <==> e.NullPointer? || IsDataAccess(e))
    ensures r.Some? ==> (r.value.ResponseValidationError? <==> e.MethodArgumentNotValid?)
    ensures e.EntityNotFound? || IsMalformedRequest(e) || e.InvalidDataAccessApiUsage? ==>
              r.Some? && r.value.message == e.message
    ensures e.NullPointer? ==> r.Some? && r.value.message == NULL_OBJECT_MESSAGE
    ensures e.DataIntegrityViolation? ==> r.Some? && r.value.message == PERSISTENCE_MESSAGE
    ensures e.MethodArgumentNotValid? ==>
              r.Some? && r.value.message == VALIDATION_MESSAGE && r.value.errors == FieldErrorMap(e.fieldErrors)
  {
    if e.EntityNotFound? then
      Some(ResponseError(now, NOT_FOUND, ReasonPhrase(NOT_FOUND), e.message, uri))
    else if IsMalformedRequest(e) then
      Some(ResponseError(now, BAD_REQUEST, ReasonPhrase(BAD_REQUEST), e.message, uri))
    else if e.NullPointer? then
      Some(ResponseError(now, INTERNAL_SERVER_ERROR, ReasonPhrase(INTERNAL_SERVER_ERROR), NULL_OBJECT_MESSAGE, uri))
    else if e.DataIntegrityViolation? then
      Some(ResponseError(now, INTERNAL_SERVER_ERROR, ReasonPhrase(INTERNAL_SERVER_ERROR), PERSISTENCE_MESSAGE, uri))
    else if e.InvalidDataAccessApiUsage? then
      Some(ResponseError(now, INTERNAL_SERVER_ERROR, ReasonPhrase(INTERNAL_SERVER_ERROR), e.message, uri))
    else if e.MethodArgumentNotValid? then
      Some(ResponseValidationError(now, BAD_REQUEST, ReasonPhrase(BAD_REQUEST), VALIDATION_MESSAGE, uri,
                                   FieldErrorMap(e.fieldErrors)))
    else
      None
  }

  /**
   * `handleBeanValidationExceptions`: a first pass puts an empty list under
   * every field name, a second pass appends each message to its field's list.
   */
  method HandleBeanValidationExceptions(errs: seq<FieldError>, now: nat, uri: string) returns (resp: Response)
    ensures Some(resp) == Handle(MethodArgumentNotValid(errs), now, uri)
    ensures resp.errors == FieldErrorMap(errs)
  {
    var errors: map<string, seq<string>> := map[];
    var i := 0;
    while i < |errs|
      invariant 0 <= i <= |errs|
      invariant errors.Keys == FieldNames(errs[..i])
      invariant forall f :: f in errors ==> errors[f] == []
    {
      assert errs[..i + 1][..i] == errs[..i];
      var fieldName := errs[i].field;
      if fieldName !in errors {
        errors := errors[fieldName := []];
      }
      i := i + 1;
    }
    assert errs[..|errs|] == errs;
    i := 0;
    while i < |errs|
      invariant 0 <= i <= |errs|
      invariant errors.Keys == FieldNames(errs)
      invariant forall f :: f in errors ==> errors[f] == MessagesFor(errs[..i], f)
    {
      assert errs[..i + 1][..i] == errs[..i];
      var fieldName := errs[i].field;
      var errorMessage := errs[i].defaultMessage;
      if fieldName in errors {
        errors := errors[fieldName := errors[fieldName] + [errorMessage]];
      }
      i := i + 1;
    }
    assert errs[..|errs|] == errs;
    assert forall f :: f in errors ==> errors[f] == FieldErrorMap(errs)[f];
    assert errors == FieldErrorMap(errs);
    resp := ResponseValidationError(now, BAD_REQUEST, ReasonPhrase(BAD_REQUEST), VALIDATION_MESSAGE, uri, errors);
  }

  // ---------------------------------------------------------------------
  // From the service's failures to responses
  // ---------------------------------------------------------------------

  /** The exception a failed service call throws; its message is the resolved message key. */
  function Thrown<T>(r: Services.Result<T>): (t: Option<Exception>)
    ensures t.None? <==> r.Ok?
    ensures r.NotFound? ==> t == Some(EntityNotFound(r.messageKey))
    ensures r.StatusError? ==> t == Some(EntityStatus(r.messageKey))
  {
    match r
    case Ok(_) => None
    case NotFound(key) => Some(EntityNotFound(key))
    case StatusError(key) => Some(EntityStatus(key))
  }

  /**
   * A NotFound from the service becomes a 404 carrying its message; a
   * status error reaches no handler of this class.
   */
  lemma ServiceFailureResponses<T>(r: Services.Result<T>, now: nat, uri: string)
    requires !r.Ok?
    ensures r.NotFound? ==>
              Handle(Thrown(r).value, now, uri) == Some(ResponseError(now, NOT_FOUND, "Not Found", r.messageKey, uri))
    ensures r.StatusError? ==> Handle(Thrown(r).value, now, uri).None?
  {
  }
}
