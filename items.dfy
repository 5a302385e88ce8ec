/** The items collection handlers (`GET` and `POST` on `/api/items`). */
module ItemsRoute {
  import opened Js
  import opened Documents
  import opened Validation
  import Listing

  const NameMessage := "itemName is required (string)"
  const CategoryMessage := "itemCategory is required (string)"
  const PriceMessage := "itemPrice is required (number)"
  const StatusMessage := "status is required (string)"

  const NameRule := Rule("itemName", NonEmptyString, NameMessage)
  const CategoryRule := Rule("itemCategory", NonEmptyString, CategoryMessage)
  const PriceRule := Rule("itemPrice", Number, PriceMessage)
  const StatusRule := Rule("status", AnyString, StatusMessage)

  /** The fields `validateItem` tests, in the order it tests them. */
  const ItemRules: seq<Rule> := [NameRule, CategoryRule, PriceRule, StatusRule]

  /** An acceptable item payload, in plain terms: a non-empty name and
      category, a number as price and any string (even "") as status. */
  predicate WellFormedItem(payload: JsValue)
  {
    var name, category := Field(payload, "itemName"), Field(payload, "itemCategory");
    var price, status := Field(payload, "itemPrice"), Field(payload, "status");
    name.Str? && name.s != ""
    && category.Str? && category.s != ""
    && (price.Num? || price.NaN?)
    && status.Str?
  }

  /** `validateItem`: collects one message per failing field into a list. */
  method ValidateItem(payload: JsValue) returns (errors: seq<string>)
    ensures errors == Violations(ItemRules, payload)
    ensures errors == [] <==> WellFormedItem(payload)
    ensures |errors| <= |ItemRules|
  {
    errors := [];
    var p := OrEmptyObject(payload);
    var itemName, itemCategory := Prop(p, "itemName"), Prop(p, "itemCategory");
    var itemPrice, status := Prop(p, "itemPrice"), Prop(p, "status");
    if !Truthy(itemName) || TypeOf(itemName) != StringType {
      errors := errors + [NameMessage];
    }
    assert errors == Report(NameRule, payload);
    if !Truthy(itemCategory) || TypeOf(itemCategory) != StringType {
      errors := errors + [CategoryMessage];
    }
    assert errors == Report(NameRule, payload) + Report(CategoryRule, payload);
    if itemPrice == Undefined || TypeOf(itemPrice) != NumberType {
      errors := errors + [PriceMessage];
    }
    assert errors == Report(NameRule, payload) + Report(CategoryRule, payload) + Report(PriceRule, payload);
    if status == Undefined || TypeOf(status) != StringType {
      errors := errors + [StatusMessage];
    }
    assert errors == Report(NameRule, payload) + Report(CategoryRule, payload) + Report(PriceRule, payload) + Report(StatusRule, payload);
    ViolationsOfFour(NameRule, CategoryRule, PriceRule, StatusRule, payload);
  }

  /** Messages come at most once each, in the order itemName, itemCategory,
      itemPrice, status. */
  lemma ItemErrorsInFieldOrder(payload: JsValue)
    ensures var errors := Violations(ItemRules, payload);
            forall i, j :: 0 <= i < j < |errors| ==>
              MessageIndex(ItemRules, errors[i]) < MessageIndex(ItemRules, errors[j])
  {
    assert NameMessage[4] != CategoryMessage[4] && NameMessage[4] != PriceMessage[4];
    assert CategoryMessage[4] != PriceMessage[4];
    assert |StatusMessage| != |NameMessage| && |StatusMessage| != |CategoryMessage|;
    assert |StatusMessage| != |PriceMessage|;
    ViolationsInRuleOrder(ItemRules, payload);
  }

  /** A null, absent or otherwise non-object body gets all four messages. */
  lemma NonObjectItemGetsEveryMessage(payload: JsValue)
    requires !payload.Obj?
    ensures Violations(ItemRules, payload) == [NameMessage, CategoryMessage, PriceMessage, StatusMessage]
  {
    NonObjectFailsEveryRule(ItemRules, payload);
  }

  /** The asymmetric truthiness rules: an empty status and a zero price
      raise no message, while an empty name always does. */
  lemma EmptyStatusAndZeroPriceAccepted(payload: JsValue)
    ensures Field(payload, "status") == Str("") ==> StatusMessage !in Violations(ItemRules, payload)
    ensures Field(payload, "itemPrice") == Num(0.0) ==> PriceMessage !in Violations(ItemRules, payload)
    ensures Field(payload, "itemName") == Str("") ==> NameMessage in Violations(ItemRules, payload)
  {
    ViolationsOfFour(NameRule, CategoryRule, PriceRule, StatusRule, payload);
    assert |StatusMessage| != |NameMessage| && |StatusMessage| != |CategoryMessage|;
    assert |StatusMessage| != |PriceMessage|;
    assert NameMessage[4] != PriceMessage[4] && CategoryMessage[4] != PriceMessage[4];
  }

  /** `GET /api/items`: the page of items the database lists newest first. */
  function Get(ranked: seq<Document>, stored: seq<Document>,
               pageParam: Option<string>, limitParam: Option<string>): (r: Listing.ListResponse)
    requires IsRanking(ranked, stored)
    ensures r.page == Listing.SafePage(pageParam) && r.limit == Listing.SafeLimit(limitParam)
    ensures r.page >= 1 && 1 <= r.limit <= Listing.MaxLimit
    ensures r.total == |stored| && r.totalPages == Listing.TotalPages(r.total, r.limit)
    ensures r.data == Listing.Window(ranked, Listing.Skip(r.page, r.limit), r.limit)
    ensures |r.data| <= r.limit && NewestFirst(r.data)
    ensures multiset(r.data) <= multiset(stored)
  {
    Listing.List(ranked, stored, pageParam, limitParam)
  }

  /** `POST /api/items`: rejects an invalid body with 400 and its messages
      before touching the collection; otherwise stores the body stamped with
      equal creation and update times and answers 201 with that record. */
  method Post(body: JsValue, now: int, stored: seq<Document>)
    returns (response: CreateResponse, stored': seq<Document>)
    ensures response.Status() == 400 <==> !WellFormedItem(body)
    ensures response.BadRequest? ==>
              response.errors == Violations(ItemRules, body) && response.errors != []
              && stored' == stored
    ensures response.Created? ==>
              body.Obj? && response.record == Stamp(body.props, now)
              && stored' == stored + [response.record]
    ensures response.Created? ==>
              response.record.createdAt == Some(now) && response.record.updatedAt == now
              && forall k :: k in body.props && k !in TimestampKeys ==>
                   k in response.record.props && response.record.props[k] == body.props[k]
  {
    var errors := ValidateItem(body);
    if |errors| > 0 {
      return BadRequest(errors), stored;
    }
    assert Field(body, "itemName") != Undefined;
    var record := Stamp(body.props, now);
    response := Created(record);
    stored' := stored + [record];
  }
}
