/** The stored settings the engine reads at the start of a cycle, and the
    two rule-list edits of the control plane: saving a rule appends it with
    a fresh identifier, deleting removes every rule with a given one. */
module RuleStore {
  import opened Options
  import opened Text
  import opened Rules

  /** Mail account settings; either field may be absent from the store. */
  datatype EmailConfig = EmailConfig(email: Option<string>, password: Option<string>)

  /** The `{emailConfig, rules}` document. */
  datatype Store = Store(emailConfig: EmailConfig, rules: seq<Rule>)

  /** The body of a save-rule request: a rule without its identifier. */
  datatype RuleDraft = RuleDraft(keywords: seq<string>, subject: string, response: string)

  /** `{ ...draft, id }`: the identifier overrides anything in the draft. */
  function WithId(d: RuleDraft, id: int): Rule {
    Rule(id, d.keywords, d.subject, d.response)
  }

  /** Save-rule: push the draft, stamped with the request time, at the end. */
  function SaveRule(s: Store, d: RuleDraft, now: int): (r: Store)
    ensures r.emailConfig == s.emailConfig
    ensures |r.rules| == |s.rules| + 1
    ensures r.rules[..|s.rules|] == s.rules
    ensures r.rules[|s.rules|].id == now
    ensures r.rules[|s.rules|].keywords == d.keywords
    ensures r.rules[|s.rules|].subject == d.subject && r.rules[|s.rules|].response == d.response
  {
    var rules := s.rules + [WithId(d, now)];
    assert rules[..|s.rules|] == s.rules;
    s.(rules := rules)
  }

  /** `rule.id !== target` is false: the rule carries the target id. A
      `NaN` target (`None`) equals no id. */
  predicate HasId(rule: Rule, target: Option<int>) {
    target.Some? && rule.id == target.value
  }

  function CountId(rules: seq<Rule>, target: Option<int>): nat
    decreases |rules|
  {
    if rules == [] then 0
    else (if HasId(rules[0], target) then 1 else 0) + CountId(rules[1..], target)
  }

  /** `a` is `b` with some elements dropped, the rest in the same order. */
  ghost predicate IsSubsequence<T>(a: seq<T>, b: seq<T>)
    decreases |b|
  {
    if a == [] then true
    else if b == [] then false
    else (a[0] == b[0] && IsSubsequence(a[1..], b[1..])) || IsSubsequence(a, b[1..])
  }

  /** `rules.filter(rule => rule.id !== target)`. */
  function RemoveId(rules: seq<Rule>, target: Option<int>): seq<Rule>
    decreases |rules|
  {
    if rules == [] then []
    else (if HasId(rules[0], target) then [] else [rules[0]]) + RemoveId(rules[1..], target)
  }

  /** The filter keeps exactly the rules that do not carry the target id. */
  lemma {:induction false} RemoveIdMembers(rules: seq<Rule>, target: Option<int>)
    ensures forall x :: x in RemoveId(rules, target) <==> x in rules && !HasId(x, target)
    decreases |rules|
  {
    if rules != [] {
      RemoveIdMembers(rules[1..], target);
      assert forall x :: x in rules <==> x == rules[0] || x in rules[1..];
    }
  }

  /** One rule is dropped for each occurrence of the target id. */
  lemma {:induction false} RemoveIdCount(rules: seq<Rule>, target: Option<int>)
    ensures |RemoveId(rules, target)| + CountId(rules, target) == |rules|
    decreases |rules|
  {
    if rules != [] {
      RemoveIdCount(rules[1..], target);
    }
  }

  /** The kept rules stay in their original order. */
  lemma {:induction false} RemoveIdSubsequence(rules: seq<Rule>, target: Option<int>)
    ensures IsSubsequence(RemoveId(rules, target), rules)
    decreases |rules|
  {
    if rules != [] {
      RemoveIdSubsequence(rules[1..], target);
      var tail := RemoveId(rules[1..], target);
      if !HasId(rules[0], target) {
        assert ([rules[0]] + tail)[1..] == tail;
      } else if tail != [] {
        assert RemoveId(rules, target) == tail;
      }
    }
  }

  /** Delete-rule: the path parameter goes through `parseInt`, then every
      rule with that id is filtered out; the settings are untouched. */
  function DeleteRule(s: Store, idParam: string): (r: Store)
    ensures r.emailConfig == s.emailConfig
    ensures forall x :: x in r.rules <==> x in s.rules && ParseInt(idParam) != Some(x.id)
    ensures IsSubsequence(r.rules, s.rules)
    ensures |r.rules| + CountId(s.rules, ParseInt(idParam)) == |s.rules|
  {
    var target := ParseInt(idParam);
    RemoveIdMembers(s.rules, target);
    RemoveIdCount(s.rules, target);
    RemoveIdSubsequence(s.rules, target);
    s.(rules := RemoveId(s.rules, target))
  }

  /** Filtering distributes over concatenation: the kept rules of each part
      stay in their places relative to each other. */
  lemma {:induction false} RemoveIdAppend(a: seq<Rule>, b: seq<Rule>, target: Option<int>)
    ensures RemoveId(a + b, target) == RemoveId(a, target) + RemoveId(b, target)
    decreases |a|
  {
    if a == [] {
      assert a + b == b;
    } else {
      var ab := a + b;
      assert ab[0] == a[0];
      assert ab[1..] == a[1..] + b;
      RemoveIdAppend(a[1..], b, target);
    }
  }

  /** Deleting an id no rule carries changes nothing. */
  lemma {:induction false} RemoveAbsentId(rules: seq<Rule>, target: Option<int>)
    requires forall x :: x in rules ==> !HasId(x, target)
    ensures RemoveId(rules, target) == rules
    decreases |rules|
  {
    if rules != [] {
      RemoveAbsentId(rules[1..], target);
    }
  }

  /** Deleting is idempotent. */
  lemma RemoveIdIdempotent(rules: seq<Rule>, target: Option<int>)
    ensures RemoveId(RemoveId(rules, target), target) == RemoveId(rules, target)
  {
    RemoveIdMembers(rules, target);
    RemoveAbsentId(RemoveId(rules, target), target);
  }

  /** Deleting, by its rendered id, a rule just saved with a fresh id
      restores the store: the client builds the delete path from `rule.id`. */
  lemma DeleteUndoesSave(s: Store, d: RuleDraft, now: int)
    requires forall x :: x in s.rules ==> x.id != now
    ensures DeleteRule(SaveRule(s, d, now), IntToString(now)) == s
  {
    ParseIntRoundTrip(now);
    assert SaveRule(s, d, now).rules == s.rules + [WithId(d, now)];
    RemoveIdAppend(s.rules, [WithId(d, now)], Some(now));
    RemoveAbsentId(s.rules, Some(now));
  }
}
