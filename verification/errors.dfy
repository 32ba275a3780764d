/** The application-wide exception handler: the fallback that turns an exception no
    controller handled into an error envelope and an HTTP status. Runtime exceptions
    are classified by phrases in their message, in a fixed order of precedence. */
module ErrorHandling {
  import opened Wrappers
  import Text
  import Responses
  import Catalogue
  import Banners

  const BadRequest: int := 400
  const Unauthorized: int := 401
  const NotFound: int := 404
  const Conflict: int := 409
  const InternalServerError: int := 500

  const DefaultMessage: string := "An error occurred"
  const AuthenticationFailed: string := "Authentication failed"
  const ValidationError: string := "Validation error"
  const GenericMessage: string := "An error occurred. Please try again later."

  /** A reply: the HTTP status and the envelope sent with it. */
  datatype Reply<T> = Reply(status: int, body: Responses.ApiResponse<T>)

  /** A reply whose envelope is `ApiResponse.error` of its own message, with the
      HTTP status as the return code. */
  ghost predicate IsFailureReply<T>(r: Reply<T>) {
    r.body == Responses.Failed(r.body.message, r.status)
  }

  /** The phrases that mark an authentication failure. */
  predicate MentionsAuthFailure(m: string) {
    || Text.Contains(m, "not authenticated")
    || Text.Contains(m, "Unauthorized")
    || Text.Contains(m, "Invalid credentials")
    || Text.Contains(m, "Invalid credential")
  }

  predicate MentionsNotFound(m: string) {
    Text.Contains(m, "not found")
  }

  predicate MentionsConflict(m: string) {
    Text.Contains(m, "already exists") || Text.Contains(m, "duplicate")
  }

  /** The message a runtime exception is reported with: its own, unless null or
      empty. */
  function RuntimeText(message: Option<string>): (r: string)
    ensures message.Some? && message.value != "" ==> r == message.value
    ensures message.None? || message.value == "" ==> r == DefaultMessage
  {
    if message.None? || message.value == "" then DefaultMessage else message.value
  }

  /** `handleRuntimeException`. The status is 401 for an authentication phrase, else
      404 for "not found", else 409 for "already exists" or "duplicate", else 400; an
      authentication failure that also says "already exists" is reported as
      "Authentication failed" instead. */
  function HandleRuntimeException(message: Option<string>): (r: Reply<()>)
    ensures r.status in {BadRequest, Unauthorized, NotFound, Conflict}
    ensures var m := RuntimeText(message);
            && (r.status == Unauthorized <==> MentionsAuthFailure(m))
            && (r.status == NotFound <==> !MentionsAuthFailure(m) && MentionsNotFound(m))
            && (r.status == Conflict <==> !MentionsAuthFailure(m) && !MentionsNotFound(m) && MentionsConflict(m))
    ensures var m := RuntimeText(message);
            r.body == Responses.Failed(
              Some(if MentionsAuthFailure(m) && Text.Contains(m, "already exists") then AuthenticationFailed else m),
              r.status)
  {
    var m := RuntimeText(message);
    if MentionsAuthFailure(m) then
      Reply(Unauthorized, Responses.Failed(Some(if Text.Contains(m, "already exists") then AuthenticationFailed else m), Unauthorized))
    else if MentionsNotFound(m) then Reply(NotFound, Responses.Failed(Some(m), NotFound))
    else if MentionsConflict(m) then Reply(Conflict, Responses.Failed(Some(m), Conflict))
    else Reply(BadRequest, Responses.Failed(Some(m), BadRequest))
  }

  /** The envelope always carries the status as its return code, and the only message
      ever replaced is an authentication failure that says "already exists". */
  lemma RuntimeReplyShape(message: Option<string>)
    ensures var r := HandleRuntimeException(message);
            && IsReportedFailure(r) && 400 <= r.status < InternalServerError
            && (r.body.message != Some(RuntimeText(message)) ==>
                  r.status == Unauthorized && r.body.message == Some(AuthenticationFailed))
  {
  }

  /** None of the three characters occurs in `s`. */
  predicate Avoids(s: string, c1: char, c2: char, c3: char) {
    forall k :: 0 <= k < |s| ==> s[k] != c1 && s[k] != c2 && s[k] != c3
  }

  lemma AvoidsConcat(a: string, b: string, c1: char, c2: char, c3: char)
    requires Avoids(a, c1, c2, c3) && Avoids(b, c1, c2, c3)
    ensures Avoids(a + b, c1, c2, c3)
  {
    forall k | 0 <= k < |a + b| ensures (a + b)[k] != c1 && (a + b)[k] != c2 && (a + b)[k] != c3 {
      if k >= |a| {
        assert (a + b)[k] == b[k - |a|];
      }
    }
  }

  /** Decimal text avoids any three letters. */
  lemma DecimalAvoids(i: int, c1: char, c2: char, c3: char)
    requires !Text.IsAsciiDigit(c1) && !Text.IsAsciiDigit(c2) && !Text.IsAsciiDigit(c3)
    requires c1 != '-' && c2 != '-' && c3 != '-'
    ensures Avoids(Text.IntToString(i), c1, c2, c3)
  {
    Text.IntToStringChars(i, c1);
    Text.IntToStringChars(i, c2);
    Text.IntToStringChars(i, c3);
  }

  /** A message lacking a character of each authentication phrase names no
      authentication failure. */
  lemma NoAuthPhrase(m: string, c1: char, c2: char, c3: char)
    requires c1 in "not authenticated" && c2 in "Unauthorized" && c3 in "Invalid credential"
    requires Avoids(m, c1, c2, c3)
    ensures !MentionsAuthFailure(m)
  {
    Text.MissingCharNotContained(m, "not authenticated", c1);
    Text.MissingCharNotContained(m, "Unauthorized", c2);
    Text.MissingCharNotContained(m, "Invalid credential", c3);
    assert "Invalid credentials" == "Invalid credential" + "s";
    Text.MissingCharNotContained(m, "Invalid credentials", c3);
  }

  /** A message naming a missing resource and no authentication failure is reported
      as 404 with its own text. */
  lemma NotFoundReply(m: string)
    requires !MentionsAuthFailure(m) && MentionsNotFound(m)
    ensures HandleRuntimeException(Some(m)) == Reply(NotFound, Responses.Failed(Some(m), NotFound))
  {
  }

  /** The catalogue's category lookup message names no authentication failure. */
  lemma CategoryLookupTextClear(id: int)
    ensures !MentionsAuthFailure(Catalogue.Message(Catalogue.CategoryNotFound(id)))
  {
    var head := "Category not found with id: ";
    assert Avoids(head, 'c', 'U', 'I');
    DecimalAvoids(id, 'c', 'U', 'I');
    AvoidsConcat(head, Text.IntToString(id), 'c', 'U', 'I');
    NoAuthPhrase(head + Text.IntToString(id), 'c', 'U', 'I');
  }

  /** The catalogue's service lookup message names no authentication failure. */
  lemma ServiceLookupTextClear(id: int)
    ensures !MentionsAuthFailure(Catalogue.Message(Catalogue.ServiceNotFound(id)))
  {
    var head := "Service not found with id: ";
    assert Avoids(head, 'a', 'U', 'I');
    DecimalAvoids(id, 'a', 'U', 'I');
    AvoidsConcat(head, Text.IntToString(id), 'a', 'U', 'I');
    NoAuthPhrase(head + Text.IntToString(id), 'a', 'U', 'I');
  }

  /** The catalogue's lookup failures reach the client as 404 with their message. */
  lemma CatalogueLookupsAreNotFound(id: int)
    ensures var m := Catalogue.Message(Catalogue.CategoryNotFound(id));
            HandleRuntimeException(Some(m)) == Reply(NotFound, Responses.Failed(Some(m), NotFound))
    ensures var m := Catalogue.Message(Catalogue.ServiceNotFound(id));
            HandleRuntimeException(Some(m)) == Reply(NotFound, Responses.Failed(Some(m), NotFound))
  {
    Catalogue.NotFoundPhrase(id);
    CategoryLookupTextClear(id);
    ServiceLookupTextClear(id);
    NotFoundReply(Catalogue.Message(Catalogue.CategoryNotFound(id)));
    NotFoundReply(Catalogue.Message(Catalogue.ServiceNotFound(id)));
  }

  /** The wrapping prefixes of the update and delete operations avoid 'c', 'U' and
      'I'. */
  lemma PrefixAvoids(op: Banners.Operation)
    requires op != Banners.Create
    ensures Avoids(Banners.OperationPrefix(op), 'c', 'U', 'I')
  {
    if op == Banners.Update {
      assert Avoids("Failed to update banner: ", 'c', 'U', 'I');
    } else {
      assert Avoids("Failed to delete banner: ", 'c', 'U', 'I');
    }
  }

  /** The banner update and delete messages for a missing banner name no
      authentication failure. */
  lemma BannerLookupTextClear(op: Banners.Operation, id: nat)
    requires op != Banners.Create
    ensures !MentionsAuthFailure(Banners.Message(op, Banners.BannerNotFound(id)))
  {
    var head := "Banner not found with id: ";
    var tail := Text.NatToString(id);
    assert Text.IntToString(id) == tail;
    assert Avoids(head, 'c', 'U', 'I');
    DecimalAvoids(id, 'c', 'U', 'I');
    AvoidsConcat(head, tail, 'c', 'U', 'I');
    PrefixAvoids(op);
    AvoidsConcat(Banners.OperationPrefix(op), head + tail, 'c', 'U', 'I');
    assert Banners.Message(op, Banners.BannerNotFound(id)) == Banners.OperationPrefix(op) + (head + tail);
    NoAuthPhrase(Banners.OperationPrefix(op) + (head + tail), 'c', 'U', 'I');
  }

  /** A missing banner in an update or delete reaches the client as 404. */
  lemma BannerLookupsAreNotFound(op: Banners.Operation, id: nat)
    requires op != Banners.Create
    ensures var m := Banners.Message(op, Banners.BannerNotFound(id));
            HandleRuntimeException(Some(m)) == Reply(NotFound, Responses.Failed(Some(m), NotFound))
  {
    Banners.NotFoundPhrase(op, id);
    BannerLookupTextClear(op, id);
    NotFoundReply(Banners.Message(op, Banners.BannerNotFound(id)));
  }

  /** An authentication phrase anywhere in a message survives any surrounding text. */
  lemma AuthFailureWithin(p: string, s: string, q: string)
    requires MentionsAuthFailure(s)
    ensures MentionsAuthFailure(p + s + q)
  {
    if Text.Contains(s, "not authenticated") {
      Text.ContainsWithin(p, s, q, "not authenticated");
    } else if Text.Contains(s, "Unauthorized") {
      Text.ContainsWithin(p, s, q, "Unauthorized");
    } else if Text.Contains(s, "Invalid credentials") {
      Text.ContainsWithin(p, s, q, "Invalid credentials");
    } else {
      Text.ContainsWithin(p, s, q, "Invalid credential");
    }
  }

  /** The classification reads the text, not the cause: a duplicate category whose
      name carries an authentication phrase (say "Unauthorized") is reported as an
      authentication failure with the replaced message. */
  lemma DuplicateNameMentioningAuth(name: string)
    requires MentionsAuthFailure(name)
    ensures HandleRuntimeException(Some(Catalogue.Message(Catalogue.CategoryNameExists(name))))
              == Reply(Unauthorized, Responses.Failed(Some(AuthenticationFailed), Unauthorized))
  {
    var m := Catalogue.Message(Catalogue.CategoryNameExists(name));
    AuthFailureWithin("Category with name '", name, "' already exists");
    Catalogue.AlreadyExistsPhrase(name, "");
    assert m != "";
  }

  /** A message naming none of the phrases is reported as 400 with its own text. */
  lemma PlainReply(m: string)
    requires m != "" && !MentionsAuthFailure(m) && !MentionsNotFound(m) && !MentionsConflict(m)
    ensures HandleRuntimeException(Some(m)) == Reply(BadRequest, Responses.Failed(Some(m), BadRequest))
  {
  }

  lemma DefaultMessageNoAuth()
    ensures !MentionsAuthFailure(DefaultMessage)
  {
    assert Avoids(DefaultMessage, 'h', 'U', 'I');
    NoAuthPhrase(DefaultMessage, 'h', 'U', 'I');
  }

  lemma DefaultMessageNoNotFound()
    ensures !MentionsNotFound(DefaultMessage)
  {
    Text.MissingCharNotContained(DefaultMessage, "not found", 'f');
  }

  lemma DefaultMessageNoConflict()
    ensures !MentionsConflict(DefaultMessage)
  {
    assert Avoids(DefaultMessage, 'x', 'p', 'p');
    Text.MissingCharNotContained(DefaultMessage, "already exists", 'x');
    Text.MissingCharNotContained(DefaultMessage, "duplicate", 'p');
  }

  /** A null or empty message is reported as "An error occurred" with status 400. */
  lemma EmptyMessageIsGeneric()
    ensures HandleRuntimeException(None) == Reply(BadRequest, Responses.Failed(Some(DefaultMessage), BadRequest))
    ensures HandleRuntimeException(Some("")) == HandleRuntimeException(None)
  {
    assert RuntimeText(None) == RuntimeText(Some("")) == RuntimeText(Some(DefaultMessage));
    DefaultMessageNoAuth();
    DefaultMessageNoNotFound();
    DefaultMessageNoConflict();
    PlainReply(DefaultMessage);
  }

  /** A field-level validation failure: the field name and the constraint's message. */
  datatype FieldError = FieldError(field: string, message: string)

  /** `handleValidationExceptions`: 400 with one of the field errors' messages, or
      "Validation error" when there are none. The errors are collected into a hash
      map keyed by field, so which message is reported is not determined by the
      source; `pick` stands for that choice. */
  function HandleValidationErrors<T>(errors: seq<FieldError>, pick: nat): (r: Reply<T>)
    ensures r.status == BadRequest && IsFailureReply(r)
    ensures |errors| == 0 ==> r.body.message == Some(ValidationError)
    ensures |errors| > 0 ==> exists k :: 0 <= k < |errors| && r.body.message == Some(errors[k].message)
  {
    if |errors| == 0 then Reply(BadRequest, Responses.Failed(Some(ValidationError), BadRequest))
    else
      var k := pick % |errors|;
      Reply(BadRequest, Responses.Failed(Some(errors[k].message), BadRequest))
  }

  /** Every field error's message can be the one reported. */
  lemma AnyFieldMessageMayBeReported(errors: seq<FieldError>, k: nat)
    requires k < |errors|
    ensures HandleValidationErrors<()>(errors, k).body.message == Some(errors[k].message)
  {
  }

  /** `handleHttpMessageNotReadable`: a body that cannot be parsed. A cause whose
      message mentions "LocalDate" or "date" is reported as a date-format error; any
      other cause message is appended; without one the message is generic. */
  function HandleUnreadableBody(causeMessage: Option<string>): (r: Reply<()>)
    ensures r.status == BadRequest && IsFailureReply(r)
    ensures causeMessage.None? ==> r.body.message == Some("Invalid request body format")
    ensures causeMessage.Some? && (Text.Contains(causeMessage.value, "LocalDate") || Text.Contains(causeMessage.value, "date")) ==>
              r.body.message == Some("Invalid date format. Expected format: yyyy/MM/dd")
    ensures causeMessage.Some? && !(Text.Contains(causeMessage.value, "LocalDate") || Text.Contains(causeMessage.value, "date")) ==>
              r.body.message == Some("Invalid request body: " + causeMessage.value)
  {
    var m := match causeMessage
      case None => "Invalid request body format"
      case Some(c) =>
        if Text.Contains(c, "LocalDate") || Text.Contains(c, "date") then "Invalid date format. Expected format: yyyy/MM/dd"
        else "Invalid request body: " + c;
    Reply(BadRequest, Responses.Failed(Some(m), BadRequest))
  }

  /** `handleJsonProcessingException`. */
  function HandleJsonProcessing(message: string): (r: Reply<()>)
    ensures r.status == BadRequest && IsFailureReply(r)
    ensures r.body.message == Some("Invalid JSON format: " + message)
  {
    Reply(BadRequest, Responses.Failed(Some("Invalid JSON format: " + message), BadRequest))
  }

  /** `handleGenericException`: any other exception is 500 with a fixed message. */
  function HandleOtherException(): (r: Reply<()>)
    ensures r.status == InternalServerError && IsFailureReply(r)
    ensures r.body.message == Some(GenericMessage)
  {
    Reply(InternalServerError, Responses.Failed(Some(GenericMessage), InternalServerError))
  }

  /** A failure reply is a consistent envelope without payload, flagged as a failure,
      whose error detail repeats the message and carries the HTTP status. */
  lemma FailureReplyShape<T>(r: Reply<T>)
    requires IsFailureReply(r)
    ensures Responses.Consistent(r.body) && !r.body.success && r.body.data.None?
    ensures r.body.error == Some(Responses.ErrorDetail(r.body.message, r.status))
  {
  }

  /** A failure envelope with a message, whose return code is the HTTP status. */
  ghost predicate IsReportedFailure<T>(r: Reply<T>) {
    && Responses.Consistent(r.body) && !r.body.success && r.body.message.Some?
    && r.body.error.value.returnCode == r.status
  }

  /** Whatever else reaches the handler, the reply is a reported failure, as it is
      for a runtime exception: a client status for a validation error, an unreadable
      body or malformed JSON, and 500 for any other exception. */
  lemma EveryHandlerRepliesWithFailure(errors: seq<FieldError>, pick: nat,
                                       cause: Option<string>, json: string)
    ensures IsReportedFailure(HandleValidationErrors<()>(errors, pick))
    ensures IsReportedFailure(HandleUnreadableBody(cause))
    ensures IsReportedFailure(HandleJsonProcessing(json))
    ensures IsReportedFailure(HandleOtherException())
    ensures HandleOtherException().status == InternalServerError
  {
    FailureReplyShape(HandleValidationErrors<()>(errors, pick));
    FailureReplyShape(HandleUnreadableBody(cause));
    FailureReplyShape(HandleJsonProcessing(json));
    FailureReplyShape(HandleOtherException());
  }
}
