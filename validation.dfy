/** Required-field validation of create payloads (`validateItem`,
    `validateUser`). Each validator tests a fixed list of fields in order and
    reports one message for every field that fails its test; this module
    states that behaviour once, as a table of rules. */
module Validation {
  import opened Js

  /** The three field tests the validators use. */
  datatype Check =
    | NonEmptyString  // `!v || typeof v !== "string"` fails
    | Number          // `v === undefined || typeof v !== "number"` fails
    | AnyString       // `v === undefined || typeof v !== "string"` fails

  /** A field, its test and the message reported when the test fails. */
  datatype Rule = Rule(field: string, check: Check, message: string)

  /** Whether a field value passes a test, written as the negation of the
      source's failure condition. */
  predicate Passes(check: Check, v: JsValue)
  {
    match check
    case NonEmptyString => !(!Truthy(v) || TypeOf(v) != StringType)
    case Number => !(v == Undefined || TypeOf(v) != NumberType)
    case AnyString => !(v == Undefined || TypeOf(v) != StringType)
  }

  /** The tests in plain terms: the empty string fails only the first one,
      and every JavaScript number (0 and NaN included) passes the second. */
  lemma PassesMeaning(check: Check, v: JsValue)
    ensures check == NonEmptyString ==> (Passes(check, v) <==> v.Str? && v.s != "")
    ensures check == Number ==> (Passes(check, v) <==> v.Num? || v.NaN?)
    ensures check == AnyString ==> (Passes(check, v) <==> v.Str?)
  {
  }

  /** Whether the payload's value for `rule.field` fails the rule. */
  predicate Fails(rule: Rule, payload: JsValue)
  {
    !Passes(rule.check, Field(payload, rule.field))
  }

  /** The message one rule contributes: its own when it fails, none otherwise. */
  function Report(rule: Rule, payload: JsValue): seq<string>
  {
    if Fails(rule, payload) then [rule.message] else []
  }

  /** The messages of the rules the payload fails, in rule order. */
  function Violations(rules: seq<Rule>, payload: JsValue): seq<string>
  {
    if rules == [] then [] else Report(rules[0], payload) + Violations(rules[1..], payload)
  }

  /** A table of four rules, read out one rule at a time. */
  lemma ViolationsOfFour(r0: Rule, r1: Rule, r2: Rule, r3: Rule, payload: JsValue)
    ensures Violations([r0, r1, r2, r3], payload)
            == Report(r0, payload) + Report(r1, payload) + Report(r2, payload) + Report(r3, payload)
  {
    var a0, a1, a2, a3 := Report(r0, payload), Report(r1, payload), Report(r2, payload), Report(r3, payload);
    assert [r3][1..] == [];
    assert Violations([r3], payload) == a3;
    assert [r2, r3][1..] == [r3];
    assert Violations([r2, r3], payload) == a2 + a3;
    assert [r1, r2, r3][1..] == [r2, r3];
    assert Violations([r1, r2, r3], payload) == a1 + (a2 + a3);
    assert [r0, r1, r2, r3][1..] == [r1, r2, r3];
    assert Violations([r0, r1, r2, r3], payload) == a0 + (a1 + (a2 + a3));
    assert a0 + (a1 + (a2 + a3)) == a0 + a1 + a2 + a3;
  }

  /** Every message of the table, in order. */
  function Messages(rules: seq<Rule>): (ms: seq<string>)
    ensures |ms| == |rules|
    ensures forall i :: 0 <= i < |rules| ==> ms[i] == rules[i].message
  {
    if rules == [] then [] else [rules[0].message] + Messages(rules[1..])
  }

  /** Position of a rule reporting `m`; `|rules|` when none does. */
  function MessageIndex(rules: seq<Rule>, m: string): (k: nat)
    ensures k <= |rules|
    ensures k < |rules| <==> m in Messages(rules)
    ensures k < |rules| ==> rules[k].message == m
  {
    if rules == [] then 0
    else if rules[0].message == m then 0
    else 1 + MessageIndex(rules[1..], m)
  }

  /** No two rules report the same message. */
  predicate DistinctMessages(rules: seq<Rule>)
  {
    forall i, j :: 0 <= i < j < |rules| ==> rules[i].message != rules[j].message
  }

  /** A message is reported exactly when some rule carrying it fails. */
  lemma {:induction false} ViolationsExact(rules: seq<Rule>, payload: JsValue, m: string)
    ensures m in Violations(rules, payload)
            <==> exists i :: 0 <= i < |rules| && rules[i].message == m && Fails(rules[i], payload)
  {
    if rules != [] {
      ViolationsExact(rules[1..], payload, m);
      if m in Violations(rules[1..], payload) {
        var i :| 0 <= i < |rules[1..]| && rules[1..][i].message == m && Fails(rules[1..][i], payload);
        assert rules[i + 1] == rules[1..][i];
      }
      if exists i :: 0 <= i < |rules| && rules[i].message == m && Fails(rules[i], payload) {
        var i :| 0 <= i < |rules| && rules[i].message == m && Fails(rules[i], payload);
        if i > 0 {
          assert rules[1..][i - 1] == rules[i];
        }
      }
    }
  }

  /** At most one message per rule. */
  lemma {:induction false} ViolationsBounded(rules: seq<Rule>, payload: JsValue)
    ensures |Violations(rules, payload)| <= |rules|
  {
    if rules != [] {
      ViolationsBounded(rules[1..], payload);
    }
  }

  /** No message at all exactly when the payload passes every rule. */
  lemma {:induction false} NoViolationsIffAllPass(rules: seq<Rule>, payload: JsValue)
    ensures Violations(rules, payload) == []
            <==> forall i :: 0 <= i < |rules| ==> !Fails(rules[i], payload)
  {
    if rules != [] {
      NoViolationsIffAllPass(rules[1..], payload);
      assert forall i :: 1 <= i < |rules| ==> rules[i] == rules[1..][i - 1];
    }
  }

  /** With distinct messages, the reported messages appear in strictly
      increasing rule position: no field is reported twice and the table's
      order is kept. */
  lemma {:induction false} ViolationsInRuleOrder(rules: seq<Rule>, payload: JsValue)
    requires DistinctMessages(rules)
    ensures forall i :: 0 <= i < |Violations(rules, payload)| ==>
              MessageIndex(rules, Violations(rules, payload)[i]) < |rules|
    ensures forall i, j :: 0 <= i < j < |Violations(rules, payload)| ==>
              MessageIndex(rules, Violations(rules, payload)[i])
              < MessageIndex(rules, Violations(rules, payload)[j])
  {
    if rules != [] {
      var tail := rules[1..];
      var v' := Violations(tail, payload);
      assert DistinctMessages(tail) by {
        forall i, j | 0 <= i < j < |tail| ensures tail[i].message != tail[j].message {
          assert tail[i] == rules[i + 1] && tail[j] == rules[j + 1];
        }
      }
      ViolationsInRuleOrder(tail, payload);
      forall i | 0 <= i < |v'|
        ensures MessageIndex(rules, v'[i]) == 1 + MessageIndex(tail, v'[i])
      {
        var k := MessageIndex(tail, v'[i]);
        assert k < |tail| && tail[k].message == v'[i];
        assert tail[k] == rules[k + 1];
        assert rules[0].message != rules[k + 1].message;
      }
      assert Violations(rules, payload) == Report(rules[0], payload) + v';
      assert MessageIndex(rules, rules[0].message) == 0;
    }
  }

  /** A payload that is not an object (null, a number, a string, ...) has no
      fields, so it fails every rule and gets every message. */
  lemma {:induction false} NonObjectFailsEveryRule(rules: seq<Rule>, payload: JsValue)
    requires !payload.Obj?
    ensures Violations(rules, payload) == Messages(rules)
  {
    if rules != [] {
      NonObjectFailsEveryRule(rules[1..], payload);
    }
  }
}
