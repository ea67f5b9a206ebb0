/** Properties of the rule loop, of the message loop and of a whole check
    cycle, stated over the trace of effects the cycle returns. */
module EngineFacts {
  import opened Options
  import opened Text
  import opened Rules
  import opened RuleStore
  import opened Engine

  /** No rule in `[j, r)` settles message `m`. */
  predicate NoSettleBefore(s: Session, m: nat, e: Email, j: nat, r: nat)
    requires j <= r <= |s.rules|
  {
    forall q :: j <= q < r ==> !Settles(s, m, e, q)
  }

  // ---------------------------------------------------------------------
  // The rule loop of one message

  /** Every reply the loop sends is for a rule that matches and whose
      send resolves, with no earlier rule having both sent and flagged; it
      carries the rule's subject and response and goes to the sender. */
  lemma {:induction false} TrySendsSound(s: Session, m: nat, uid: nat, e: Email, j: nat)
    requires j <= |s.rules|
    ensures var evs := TryRules(s, m, uid, e, j).events;
      forall ev :: ev in evs && ev.Send? ==>
        j <= ev.rule < |s.rules| && Delivers(s, m, e, ev.rule) &&
        NoSettleBefore(s, m, e, j, ev.rule) && ev.mail == Reply(s, e, ev.rule)
    decreases |s.rules| - j
  {
    if j < |s.rules| {
      TrySendsSound(s, m, uid, e, j + 1);
      var rest := TryRules(s, m, uid, e, j + 1).events;
      var evs := TryRules(s, m, uid, e, j).events;
      if !Delivers(s, m, e, j) || !s.gateway.flag(m, j) {
        forall ev | ev in rest && ev.Send?
          ensures NoSettleBefore(s, m, e, j, ev.rule)
        {
          assert !Settles(s, m, e, j);
        }
      }
    }
  }

  /** Conversely, every rule that matches and whose send resolves gets its
      reply out, unless an earlier rule has already both sent and flagged. */
  lemma {:induction false} TrySendsComplete(s: Session, m: nat, uid: nat, e: Email, j: nat)
    requires j <= |s.rules|
    ensures var evs := TryRules(s, m, uid, e, j).events;
      forall r :: j <= r < |s.rules| && Delivers(s, m, e, r) && NoSettleBefore(s, m, e, j, r) ==>
        Send(m, r, Reply(s, e, r)) in evs
    decreases |s.rules| - j
  {
    if j < |s.rules| {
      TrySendsComplete(s, m, uid, e, j + 1);
      var evs := TryRules(s, m, uid, e, j).events;
      forall r | j <= r < |s.rules| && Delivers(s, m, e, r) && NoSettleBefore(s, m, e, j, r)
        ensures Send(m, r, Reply(s, e, r)) in evs
      {
        if r == j {
          assert evs[0] == Send(m, r, Reply(s, e, r));
        } else {
          assert !Settles(s, m, e, j);
          assert NoSettleBefore(s, m, e, j + 1, r);
        }
      }
    }
  }

  /** Every event of `evs` except possibly the last is a reply. */
  predicate RepliesBeforeLast(evs: seq<Event>) {
    forall i :: 0 <= i < |evs| - 1 ==> evs[i].Send?
  }

  /** All events of the loop but the last are replies. */
  lemma {:induction false} TryRepliesBeforeLast(s: Session, m: nat, uid: nat, e: Email, j: nat)
    requires j <= |s.rules|
    ensures RepliesBeforeLast(TryRules(s, m, uid, e, j).events)
    decreases |s.rules| - j
  {
    if j < |s.rules| {
      var rest := TryRules(s, m, uid, e, j + 1).events;
      TryRepliesBeforeLast(s, m, uid, e, j + 1);
      if !Delivers(s, m, e, j) {
        assert TryRules(s, m, uid, e, j).events == rest;
      } else if s.gateway.flag(m, j) {
        assert TryRules(s, m, uid, e, j).events == [Send(m, j, Reply(s, e, j)), Flag(m, uid)];
      } else {
        var evs := [Send(m, j, Reply(s, e, j))] + rest;
        assert TryRules(s, m, uid, e, j).events == evs;
        forall i | 0 < i < |evs| - 1
          ensures evs[i].Send?
        {
          assert evs[i] == rest[i - 1];
        }
      }
    }
  }

  /** A last event that is a flag names the message's uid and follows the
      reply of a rule whose flag resolves. */
  lemma {:induction false} TryFlagShape(s: Session, m: nat, uid: nat, e: Email, j: nat)
    requires j <= |s.rules|
    ensures var evs := TryRules(s, m, uid, e, j).events;
      evs != [] && evs[|evs| - 1].Flag? ==>
        |evs| >= 2 && evs[|evs| - 1].uid == uid && evs[|evs| - 2].Send? &&
        j <= evs[|evs| - 2].rule < |s.rules| && Settles(s, m, e, evs[|evs| - 2].rule)
    decreases |s.rules| - j
  {
    if j < |s.rules| {
      var evs := TryRules(s, m, uid, e, j).events;
      var rest := TryRules(s, m, uid, e, j + 1).events;
      TryFlagShape(s, m, uid, e, j + 1);
      if !Delivers(s, m, e, j) {
        assert evs == rest;
      } else if s.gateway.flag(m, j) {
        assert evs == [Send(m, j, Reply(s, e, j)), Flag(m, uid)];
      } else {
        assert evs == [Send(m, j, Reply(s, e, j))] + rest;
        if rest != [] && rest[|rest| - 1].Flag? {
          assert evs[|evs| - 1] == rest[|rest| - 1];
          assert evs[|evs| - 2] == rest[|rest| - 2];
        }
      }
    }
  }

  /** The message gets flagged exactly when some rule settles it. */
  lemma {:induction false} TryFlagIff(s: Session, m: nat, uid: nat, e: Email, j: nat)
    requires j <= |s.rules|
    ensures Flag(m, uid) in TryRules(s, m, uid, e, j).events <==>
            exists q :: j <= q < |s.rules| && Settles(s, m, e, q)
    decreases |s.rules| - j
  {
    if j < |s.rules| {
      TryFlagIff(s, m, uid, e, j + 1);
      if Settles(s, m, e, j) {
        assert Flag(m, uid) in [Send(m, j, Reply(s, e, j)), Flag(m, uid)];
      }
    }
  }

  /** Replies to one message go out in declaration order of their rules. */
  lemma {:induction false} TrySendsOrdered(s: Session, m: nat, uid: nat, e: Email, j: nat)
    requires j <= |s.rules|
    ensures var evs := TryRules(s, m, uid, e, j).events;
      forall a, b :: 0 <= a < b < |evs| && evs[a].Send? && evs[b].Send? ==> evs[a].rule < evs[b].rule
    decreases |s.rules| - j
  {
    if j < |s.rules| {
      TrySendsOrdered(s, m, uid, e, j + 1);
      TrySendsSound(s, m, uid, e, j + 1);
      if Delivers(s, m, e, j) && !s.gateway.flag(m, j) {
        var rest := TryRules(s, m, uid, e, j + 1).events;
        var evs := [Send(m, j, Reply(s, e, j))] + rest;
        forall a, b | 0 <= a < b < |evs| && evs[a].Send? && evs[b].Send?
          ensures evs[a].rule < evs[b].rule
        {
          assert evs[b] == rest[b - 1];
          assert rest[b - 1] in rest;
          if a > 0 {
            assert evs[a] == rest[a - 1];
          }
        }
      }
    }
  }

  /** When no rule both matches and gets its reply out, the loop has no
      effect at all: no reply and no flag. */
  lemma {:induction false} TryNothingDelivered(s: Session, m: nat, uid: nat, e: Email, j: nat)
    requires j <= |s.rules|
    requires forall q :: j <= q < |s.rules| ==> !Delivers(s, m, e, q)
    ensures TryRules(s, m, uid, e, j) == Tally(0, [])
    decreases |s.rules| - j
  {
    if j < |s.rules| {
      TryNothingDelivered(s, m, uid, e, j + 1);
    }
  }

  /** The three ways nothing gets delivered: no rule matches the body,
      every send fails, or the message has no sender. */
  lemma TryNoEffect(s: Session, m: nat, uid: nat, e: Email)
    ensures (forall q :: 0 <= q < |s.rules| ==> !Matches(s.rules[q], BodyText(e))) ==>
            TryRules(s, m, uid, e, 0) == Tally(0, [])
    ensures (forall q :: 0 <= q < |s.rules| ==> !s.gateway.send(m, q)) ==>
            TryRules(s, m, uid, e, 0) == Tally(0, [])
    ensures e.from.None? ==> TryRules(s, m, uid, e, 0) == Tally(0, [])
  {
    if (forall q :: 0 <= q < |s.rules| ==> !Matches(s.rules[q], BodyText(e))) ||
       (forall q :: 0 <= q < |s.rules| ==> !s.gateway.send(m, q)) ||
       e.from.None?
    {
      TryNothingDelivered(s, m, uid, e, 0);
    }
  }

  /** First match wins: when the first matching rule's reply and flag both
      resolve, that reply is the only one and the message is flagged. */
  lemma {:induction false} TryFirstMatchWins(s: Session, m: nat, uid: nat, e: Email, j: nat, f: nat)
    requires j <= |s.rules|
    requires FirstMatchFrom(s.rules, BodyText(e), j) == Some(f)
    requires e.from.Some? && s.gateway.send(m, f) && s.gateway.flag(m, f)
    ensures TryRules(s, m, uid, e, j) == Tally(1, [Send(m, f, Reply(s, e, f)), Flag(m, uid)])
    decreases |s.rules| - j
  {
    if j < f {
      TryFirstMatchWins(s, m, uid, e, j + 1, f);
    }
  }

  /** At most one reply per message, provided flagging never fails. */
  lemma {:induction false} TryAtMostOneReply(s: Session, m: nat, uid: nat, e: Email, j: nat)
    requires j <= |s.rules|
    requires forall q :: j <= q < |s.rules| ==> s.gateway.flag(m, q)
    ensures TryRules(s, m, uid, e, j).sent <= 1
    ensures CountSends(TryRules(s, m, uid, e, j).events) <= 1
    decreases |s.rules| - j
  {
    if j < |s.rules| {
      TryAtMostOneReply(s, m, uid, e, j + 1);
    }
  }

  /** A failed flag does not end the loop: with two matching rules whose
      sends resolve and a first flag that fails, the message gets both
      replies and is flagged after the second. */
  lemma FailedFlagAllowsSecondReply()
    ensures var rules := [Rule(1, ["refund"], "A", "a"), Rule(2, ["refund"], "B", "b")];
      var g := Gateway(Done, Done, Listed([]), raw => ParseError, (m, r) => true, (m, r) => r == 1);
      var s := Session("bot@x.com", rules, g);
      var e := Email(Some("a@x.com"), Some("refund"), None);
      TryRules(s, 0, 7, e, 0) ==
        Tally(2, [Send(0, 0, Mail("bot@x.com", "a@x.com", "A", "a")),
                  Send(0, 1, Mail("bot@x.com", "a@x.com", "B", "b")),
                  Flag(0, 7)])
  {
    var rules := [Rule(1, ["refund"], "A", "a"), Rule(2, ["refund"], "B", "b")];
    var body := "refund";
    assert Lower(body) == body;
    assert OccursAt(Lower("refund"), Lower(body), 0);
    SomeKeywordIff(["refund"], Lower(body));
    assert Matches(rules[0], body) && Matches(rules[1], body);
  }

  // ---------------------------------------------------------------------
  // One message, then the message loop

  /** In one message's events, every flag comes right after a reply to
      that message whose flag resolves, and names the message's uid. */
  lemma MessageFlagShape(s: Session, m: nat, inb: Inbound)
    ensures var evs := ProcessMessage(s, m, inb).events;
      forall i :: 0 <= i < |evs| && evs[i].Flag? ==>
        i > 0 && evs[i - 1].Send? && evs[i - 1].msg == m && evs[i].uid == inb.uid &&
        s.gateway.flag(m, evs[i - 1].rule)
  {
    var me := MessageEmail(s, inb);
    if me.Some? {
      var e := me.value;
      var evs := TryRules(s, m, inb.uid, e, 0).events;
      assert ProcessMessage(s, m, inb).events == evs;
      TryFlagShape(s, m, inb.uid, e, 0);
      TryRepliesBeforeLast(s, m, inb.uid, e, 0);
      TryRulesOwnMessage(s, m, inb.uid, e, 0);
      forall i | 0 <= i < |evs| && evs[i].Flag?
        ensures i > 0 && evs[i - 1].Send? && evs[i - 1].msg == m && evs[i].uid == inb.uid &&
                s.gateway.flag(m, evs[i - 1].rule)
      {
        assert i == |evs| - 1;
        assert evs[i - 1] in evs;
      }
    }
  }

  /** The events of one message in a trace: its replies and its flags. */
  function EventsFor(evs: seq<Event>, m: nat): (r: seq<Event>)
    decreases |evs|
  {
    if evs == [] then []
    else (if evs[0].OnMessage() && evs[0].msg == m then [evs[0]] else []) + EventsFor(evs[1..], m)
  }

  lemma {:induction false} EventsForMembers(evs: seq<Event>, m: nat)
    ensures forall ev :: ev in EventsFor(evs, m) <==> ev in evs && ev.OnMessage() && ev.msg == m
    decreases |evs|
  {
    if evs != [] {
      EventsForMembers(evs[1..], m);
      assert forall ev :: ev in evs <==> ev == evs[0] || ev in evs[1..];
    }
  }

  lemma {:induction false} EventsForAppend(a: seq<Event>, b: seq<Event>, m: nat)
    ensures EventsFor(a + b, m) == EventsFor(a, m) + EventsFor(b, m)
    decreases |a|
  {
    if a == [] {
      assert a + b == b;
    } else {
      assert (a + b)[0] == a[0];
      assert (a + b)[1..] == a[1..] + b;
      EventsForAppend(a[1..], b, m);
    }
  }

  /** Filtering a trace of one message's events by that message keeps all
      of it; filtering by another message keeps nothing. */
  lemma {:induction false} EventsForOne(evs: seq<Event>, n: nat, m: nat)
    requires forall ev :: ev in evs ==> ev.OnMessage() && ev.msg == n
    ensures EventsFor(evs, m) == if n == m then evs else []
    decreases |evs|
  {
    if evs != [] {
      assert evs[0] in evs;
      assert forall ev :: ev in evs[1..] ==> ev in evs;
      EventsForOne(evs[1..], n, m);
      assert evs == [evs[0]] + evs[1..];
    }
  }

  /** Isolation: what happens to message `m` in the message loop is what
      processing `m` on its own causes, whatever the other messages are
      (unparsable, skipped, matching or not). */
  lemma {:induction false} ProcessFromIsolation(s: Session, results: seq<Inbound>, i: nat, m: nat)
    requires i <= |results|
    ensures EventsFor(ProcessFrom(s, results, i).events, m) ==
            if i <= m < |results| then ProcessMessage(s, m, results[m]).events else []
    decreases |results| - i
  {
    if i < |results| {
      var head := ProcessMessage(s, i, results[i]).events;
      var tail := ProcessFrom(s, results, i + 1).events;
      assert ProcessFrom(s, results, i).events == head + tail;
      ProcessFromIsolation(s, results, i + 1, m);
      EventsForAppend(head, tail, m);
      EventsForOne(head, i, m);
      if m == i {
        assert EventsFor(tail, m) == [];
        assert EventsFor(head, m) == head;
        assert head + [] == head;
      } else {
        assert EventsFor(head, m) == [];
        assert [] + EventsFor(tail, m) == EventsFor(tail, m);
      }
    }
  }

  /** Every flag in `evs` comes right after a reply to the same message
      whose flag resolves, and flags that message's uid. */
  predicate FlagsFollowSends(evs: seq<Event>, results: seq<Inbound>, g: Gateway) {
    forall k :: 0 <= k < |evs| && evs[k].Flag? ==>
      k > 0 && evs[k - 1].Send? && evs[k - 1].msg == evs[k].msg &&
      evs[k].msg < |results| && evs[k].uid == results[evs[k].msg].uid &&
      g.flag(evs[k].msg, evs[k - 1].rule)
  }

  /** The events of `evs` belong to messages, in non-decreasing order of
      their index in the search result. */
  predicate InListingOrder(evs: seq<Event>) {
    forall a, b :: 0 <= a < b < |evs| ==> evs[a].OnMessage() && evs[b].OnMessage() && evs[a].msg <= evs[b].msg
  }

  /** Gluing two traces keeps flags after their replies when the second
      does not start with a flag. */
  lemma FlagsFollowSendsAppend(a: seq<Event>, b: seq<Event>, results: seq<Inbound>, g: Gateway)
    requires FlagsFollowSends(a, results, g) && FlagsFollowSends(b, results, g)
    requires b != [] ==> !b[0].Flag?
    ensures FlagsFollowSends(a + b, results, g)
  {
    var evs := a + b;
    forall k | 0 <= k < |evs| && evs[k].Flag?
      ensures k > 0 && evs[k - 1].Send? && evs[k - 1].msg == evs[k].msg &&
              evs[k].msg < |results| && evs[k].uid == results[evs[k].msg].uid &&
              g.flag(evs[k].msg, evs[k - 1].rule)
    {
      if k < |a| {
        assert evs[k] == a[k] && evs[k - 1] == a[k - 1];
      } else {
        assert evs[k] == b[k - |a|] && evs[k - 1] == b[k - |a| - 1];
      }
    }
  }

  /** Across the message loop, every flag comes right after a reply to the
      same message whose flag resolves. */
  lemma {:induction false} ProcessFromFlagFollowsSend(s: Session, results: seq<Inbound>, i: nat)
    requires i <= |results|
    ensures FlagsFollowSends(ProcessFrom(s, results, i).events, results, s.gateway)
    decreases |results| - i
  {
    if i < |results| {
      var head := ProcessMessage(s, i, results[i]).events;
      var tail := ProcessFrom(s, results, i + 1).events;
      ProcessFromFlagFollowsSend(s, results, i + 1);
      MessageFlagShape(s, i, results[i]);
      forall k | 0 <= k < |head| && head[k].Flag?
        ensures head[k].msg == i
      {
        assert head[k] in head;
      }
      assert FlagsFollowSends(head, results, s.gateway);
      assert tail != [] ==> !tail[0].Flag?;
      FlagsFollowSendsAppend(head, tail, results, s.gateway);
      assert ProcessFrom(s, results, i).events == head + tail;
    }
  }

  /** Gluing a trace of messages up to `i` to one of messages from `i` on
      keeps listing order. */
  lemma InListingOrderAppend(a: seq<Event>, b: seq<Event>, i: nat)
    requires InListingOrder(a) && InListingOrder(b)
    requires forall x :: 0 <= x < |a| ==> a[x].OnMessage() && a[x].msg <= i
    requires forall y :: 0 <= y < |b| ==> b[y].OnMessage() && b[y].msg >= i
    ensures InListingOrder(a + b)
  {
    var evs := a + b;
    forall x, y | 0 <= x < y < |evs|
      ensures evs[x].OnMessage() && evs[y].OnMessage() && evs[x].msg <= evs[y].msg
    {
      if y < |a| {
        assert evs[x] == a[x] && evs[y] == a[y];
      } else if x < |a| {
        assert evs[x] == a[x] && evs[y] == b[y - |a|];
      } else {
        assert evs[x] == b[x - |a|] && evs[y] == b[y - |a|];
      }
    }
  }

  /** Messages are handled in listing order. */
  lemma {:induction false} ProcessFromOrdered(s: Session, results: seq<Inbound>, i: nat)
    requires i <= |results|
    ensures InListingOrder(ProcessFrom(s, results, i).events)
    decreases |results| - i
  {
    if i < |results| {
      var head := ProcessMessage(s, i, results[i]).events;
      var tail := ProcessFrom(s, results, i + 1).events;
      ProcessFromOrdered(s, results, i + 1);
      forall x | 0 <= x < |head|
        ensures head[x].OnMessage() && head[x].msg <= i
      {
        assert head[x] in head;
      }
      forall y | 0 <= y < |tail|
        ensures tail[y].OnMessage() && tail[y].msg >= i
      {
        assert tail[y] in tail;
      }
      assert InListingOrder(head) by {
        forall x, y | 0 <= x < y < |head|
          ensures head[x].OnMessage() && head[y].OnMessage() && head[x].msg <= head[y].msg
        {
          assert head[x] in head && head[y] in head;
        }
      }
      InListingOrderAppend(head, tail, i);
      assert ProcessFrom(s, results, i).events == head + tail;
    }
  }
}
