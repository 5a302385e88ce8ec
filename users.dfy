/** The users collection handlers (`GET` and `POST` on `/api/users`). */
module UsersRoute {
  import opened Js
  import opened Documents
  import opened Validation
  import Listing

  const NameMessage := "name is required (string)"
  const EmailMessage := "email is required (string)"
  const RoleMessage := "role is required (string)"
  const StatusMessage := "status is required (string)"

  const NameRule := Rule("name", NonEmptyString, NameMessage)
  const EmailRule := Rule("email", NonEmptyString, EmailMessage)
  const RoleRule := Rule("role", NonEmptyString, RoleMessage)
  const StatusRule := Rule("status", AnyString, StatusMessage)

  /** The fields `validateUser` tests, in the order it tests them. */
  const UserRules: seq<Rule> := [NameRule, EmailRule, RoleRule, StatusRule]

  /** An acceptable user payload, in plain terms: a non-empty name, email
      and role, and any string (even "") as status. */
  predicate WellFormedUser(payload: JsValue)
  {
    var name, email := Field(payload, "name"), Field(payload, "email");
    var role, status := Field(payload, "role"), Field(payload, "status");
    name.Str? && name.s != ""
    && email.Str? && email.s != ""
    && role.Str? && role.s != ""
    && status.Str?
  }

  /** `validateUser`: collects one message per failing field into a list. */
  method ValidateUser(payload: JsValue) returns (errors: seq<string>)
    ensures errors == Violations(UserRules, payload)
    ensures errors == [] <==> WellFormedUser(payload)
    ensures |errors| <= |UserRules|
  {
    errors := [];
    var p := OrEmptyObject(payload);
    var name, email := Prop(p, "name"), Prop(p, "email");
    var role, status := Prop(p, "role"), Prop(p, "status");
    if !Truthy(name) || TypeOf(name) != StringType {
      errors := errors + [NameMessage];
    }
    assert errors == Report(NameRule, payload);
    if !Truthy(email) || TypeOf(email) != StringType {
      errors := errors + [EmailMessage];
    }
    assert errors == Report(NameRule, payload) + Report(EmailRule, payload);
    if !Truthy(role) || TypeOf(role) != StringType {
      errors := errors + [RoleMessage];
    }
    assert errors == Report(NameRule, payload) + Report(EmailRule, payload) + Report(RoleRule, payload);
    if status == Undefined || TypeOf(status) != StringType {
      errors := errors + [StatusMessage];
    }
    assert errors == Report(NameRule, payload) + Report(EmailRule, payload) + Report(RoleRule, payload) + Report(StatusRule, payload);
    ViolationsOfFour(NameRule, EmailRule, RoleRule, StatusRule, payload);
  }

  /** Messages come at most once each, in the order name, email, role,
      status. */
  lemma UserErrorsInFieldOrder(payload: JsValue)
    ensures var errors := Violations(UserRules, payload);
            forall i, j :: 0 <= i < j < |errors| ==>
              MessageIndex(UserRules, errors[i]) < MessageIndex(UserRules, errors[j])
  {
    assert NameMessage[0] != RoleMessage[0];
    assert |NameMessage| != |EmailMessage| && |EmailMessage| != |RoleMessage|;
    assert |StatusMessage| != |NameMessage| && |StatusMessage| != |EmailMessage|;
    assert |StatusMessage| != |RoleMessage|;
    ViolationsInRuleOrder(UserRules, payload);
  }

  /** A null, absent or otherwise non-object body gets all four messages. */
  lemma NonObjectUserGetsEveryMessage(payload: JsValue)
    requires !payload.Obj?
    ensures Violations(UserRules, payload) == [NameMessage, EmailMessage, RoleMessage, StatusMessage]
  {
    NonObjectFailsEveryRule(UserRules, payload);
  }

  /** The asymmetric truthiness rules: an empty status raises no message,
      while an empty name always does. */
  lemma EmptyStatusAcceptedEmptyNameRejected(payload: JsValue)
    ensures Field(payload, "status") == Str("") ==> StatusMessage !in Violations(UserRules, payload)
    ensures Field(payload, "name") == Str("") ==> NameMessage in Violations(UserRules, payload)
  {
    ViolationsOfFour(NameRule, EmailRule, RoleRule, StatusRule, payload);
    assert |StatusMessage| != |NameMessage| && |StatusMessage| != |EmailMessage|;
    assert |StatusMessage| != |RoleMessage|;
  }

  /** `GET /api/users`: the page of users the database lists newest first. */
  function Get(ranked: seq<Document>, stored: seq<Document>,
               pageParam: Option<string>, limitParam: Option<string>): (r: Listing.ListResponse)
    requires IsRanking(ranked, stored)
    ensures r.page == Listing.SafePage(pageParam) && r.limit == Listing.SafeLimit(limitParam)
    ensures r.page >= 1 && 1 <= r.limit <= Listing.MaxLimit
    ensures r.total == |stored| && r.totalPages == Listing.TotalPages(r.total, r.limit)
    ensures r.data == Listing.Window(ranked, Listing.Skip(r.page, r.limit), r.limit)
    ensures |r.data| <= r.limit && NewestFirst(r.data)
    ensures multiset(r.data) <= multiset(stored)
  {
    Listing.List(ranked, stored, pageParam, limitParam)
  }

  /** `POST /api/users`: rejects an invalid body with 400 and its messages
      before touching the collection; otherwise stores the body stamped with
      equal creation and update times and answers 201 with that record. */
  method Post(body: JsValue, now: int, stored: seq<Document>)
    returns (response: CreateResponse, stored': seq<Document>)
    ensures response.Status() == 400 <==> !WellFormedUser(body)
    ensures response.BadRequest? ==>
              response.errors == Violations(UserRules, body) && response.errors != []
              && stored' == stored
    ensures response.Created? ==>
              body.Obj? && response.record == Stamp(body.props, now)
              && stored' == stored + [response.record]
    ensures response.Created? ==>
              response.record.createdAt == Some(now) && response.record.updatedAt == now
              && forall k :: k in body.props && k !in TimestampKeys ==>
                   k in response.record.props && response.record.props[k] == body.props[k]
  {
    var errors := ValidateUser(body);
    if |errors| > 0 {
      return BadRequest(errors), stored;
    }
    assert Field(body, "name") != Undefined;
    var record := Stamp(body.props, now);
    response := Created(record);
    stored' := stored + [record];
  }
}
