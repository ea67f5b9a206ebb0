/** Keyword rules and the rule matcher: a rule matches a message body when
    one of its keywords, lower-cased, occurs in the lower-cased body; the
    matcher picks rules in declaration order. */
module Rules {
  import opened Options
  import opened Text

  /** A stored auto-reply rule. `id` is the creation time stamp assigned by
      the store; `keywords` are tried in order, `subject` and `response`
      make up the reply. */
  datatype Rule = Rule(id: int, keywords: seq<string>, subject: string, response: string)

  /** `keywords.some(k => lowered.includes(k.toLowerCase()))`, where
      `lowered` is the message body already lower-cased. */
  function SomeKeyword(keywords: seq<string>, lowered: string): bool
    decreases |keywords|
  {
    if keywords == [] then false
    else Includes(lowered, Lower(keywords[0])) || SomeKeyword(keywords[1..], lowered)
  }

  /** The keyword test holds exactly when some keyword, lower-cased,
      occurs in the lower-cased body. */
  lemma {:induction false} SomeKeywordIff(keywords: seq<string>, lowered: string)
    ensures SomeKeyword(keywords, lowered) <==> exists k :: k in keywords && IsSubstring(Lower(k), lowered)
    decreases |keywords|
  {
    if keywords != [] {
      IncludesIsSubstring(lowered, Lower(keywords[0]));
      SomeKeywordIff(keywords[1..], lowered);
      assert forall k :: k in keywords <==> k == keywords[0] || k in keywords[1..];
    }
  }

  /** The per-rule test of the check loop: some keyword occurs in the body,
      ignoring the case of ASCII letters on both sides. */
  predicate Matches(rule: Rule, text: string) {
    SomeKeyword(rule.keywords, Lower(text))
  }

  /** An empty keyword, which the rule form produces from a trailing comma,
      makes its rule match every body. */
  lemma EmptyKeywordMatchesAll(rule: Rule, text: string)
    requires "" in rule.keywords
    ensures Matches(rule, text)
  {
    assert OccursAt(Lower(""), Lower(text), 0);
    SomeKeywordIff(rule.keywords, Lower(text));
  }

  /** Matching does not see the case of ASCII letters, neither in the body
      nor in the keywords. */
  lemma MatchesIgnoresCase(rule: Rule, text: string)
    ensures Matches(rule, text) <==> Matches(rule, Lower(text))
    ensures Matches(rule, text) <==> Matches(rule.(keywords := LowerAll(rule.keywords)), text)
  {
    LowerIdempotent(text);
    var lowered := rule.(keywords := LowerAll(rule.keywords));
    SomeKeywordIff(rule.keywords, Lower(text));
    SomeKeywordIff(lowered.keywords, Lower(text));
    forall k | k in rule.keywords
      ensures Lower(k) in lowered.keywords && Lower(Lower(k)) == Lower(k)
    {
      var i :| 0 <= i < |rule.keywords| && rule.keywords[i] == k;
      assert lowered.keywords[i] == Lower(k);
      LowerIdempotent(k);
    }
    forall k | k in lowered.keywords
      ensures exists k' :: k' in rule.keywords && Lower(k) == Lower(k')
    {
      var i :| 0 <= i < |lowered.keywords| && lowered.keywords[i] == k;
      LowerIdempotent(rule.keywords[i]);
      assert Lower(k) == Lower(rule.keywords[i]);
    }
  }

  function LowerAll(keywords: seq<string>): seq<string> {
    seq(|keywords|, i requires 0 <= i < |keywords| => Lower(keywords[i]))
  }

  /** The keyword "Invoice" matches a body that shouts "INVOICE". */
  lemma InvoiceExample()
    ensures Matches(Rule(1, ["Invoice"], "Re", "Thanks"), "Your INVOICE is due")
  {
    var body := Lower("Your INVOICE is due");
    assert body[5..12] == "invoice";
    assert OccursAt(Lower("Invoice"), body, 5);
    SomeKeywordIff(["Invoice"], body);
  }

  /** The rule matcher: the first rule at or after index `from`, in
      declaration order, that matches `text`. */
  function FirstMatchFrom(rules: seq<Rule>, text: string, from: nat): (r: Option<nat>)
    requires from <= |rules|
    ensures r.Some? ==> from <= r.value < |rules| && Matches(rules[r.value], text)
    ensures r.Some? ==> forall j :: from <= j < r.value ==> !Matches(rules[j], text)
    ensures r.None? ==> forall j :: from <= j < |rules| ==> !Matches(rules[j], text)
    decreases |rules| - from
  {
    if from == |rules| then None
    else if Matches(rules[from], text) then Some(from)
    else FirstMatchFrom(rules, text, from + 1)
  }
}
