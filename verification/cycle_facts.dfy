/** Properties of a whole guarded check cycle, stated over its trace. */
module CycleFacts {
  import opened Options
  import opened Text
  import opened Rules
  import opened RuleStore
  import opened Engine
  import opened EngineFacts
  import Guard

  /** The cycle gets as far as the message loop: admitted, settings present,
      mailbox opened and at least one unseen message listed. */
  predicate ReachesLoop(last: int, now: int, store: Store, g: Gateway) {
    && Guard.Admits(last, now)
    && Truthy(store.emailConfig.email) && Truthy(store.emailConfig.password)
    && g.connect.Done? && g.openBox.Done?
    && g.search.Listed? && g.search.results != []
  }

  /** The messages the search returned, none when it failed. */
  function Results(g: Gateway): seq<Inbound> {
    if g.search.Listed? then g.search.results else []
  }

  /** Inside the loop, the trace is the connection opening, the message
      loop's events, and the closing. */
  lemma CycleTrace(last: int, now: int, store: Store, g: Gateway)
    requires ReachesLoop(last, now, store, g)
    ensures var t := ProcessFrom(SessionOf(store, g), g.search.results, 0);
      CheckEmails(last, now, store, g) == Cycle(now, Processed(|g.search.results|, t.sent), [Open] + t.events + [Close])
  {
  }

  /** Flag only after send: on every path of the cycle, each `\Seen` flag
      directly follows a reply to the same message whose flag resolves, and
      names that message's uid. */
  lemma CycleFlagFollowsSend(last: int, now: int, store: Store, g: Gateway)
    ensures FlagsFollowSends(CheckEmails(last, now, store, g).trace, Results(g), g)
  {
    var c := CheckEmails(last, now, store, g);
    if ReachesLoop(last, now, store, g) {
      var evs := ProcessFrom(SessionOf(store, g), g.search.results, 0).events;
      ProcessFromFlagFollowsSend(SessionOf(store, g), g.search.results, 0);
      assert c.trace == [Open] + evs + [Close];
      forall k | 0 <= k < |c.trace| && c.trace[k].Flag?
        ensures k > 0 && c.trace[k - 1].Send? && c.trace[k - 1].msg == c.trace[k].msg &&
                c.trace[k].msg < |Results(g)| && c.trace[k].uid == Results(g)[c.trace[k].msg].uid &&
                g.flag(c.trace[k].msg, c.trace[k - 1].rule)
      {
        assert 0 < k < |c.trace| - 1;
        assert c.trace[k] == evs[k - 1];
        assert k - 1 > 0;
        assert c.trace[k - 1] == evs[k - 2];
      }
    } else {
      assert forall k :: 0 <= k < |c.trace| ==> !c.trace[k].Flag?;
    }
  }

  /** Messages are handled one after the other, in listing order. */
  lemma CycleInListingOrder(last: int, now: int, store: Store, g: Gateway)
    requires ReachesLoop(last, now, store, g)
    ensures var c := CheckEmails(last, now, store, g);
      InListingOrder(c.trace[1..|c.trace| - 1])
  {
    var c := CheckEmails(last, now, store, g);
    var evs := ProcessFrom(SessionOf(store, g), g.search.results, 0).events;
    ProcessFromOrdered(SessionOf(store, g), g.search.results, 0);
    assert c.trace[1..|c.trace| - 1] == evs;
  }

  /** Per-message isolation: the replies and flags of message `m` in the
      trace are exactly those of processing `m` on its own; a message the
      search did not return gets none. */
  lemma CycleIsolation(last: int, now: int, store: Store, g: Gateway, m: nat)
    requires ReachesLoop(last, now, store, g)
    ensures var c := CheckEmails(last, now, store, g);
      EventsFor(c.trace, m) ==
        if m < |g.search.results| then ProcessMessage(SessionOf(store, g), m, g.search.results[m]).events
        else []
  {
    var evs := ProcessFrom(SessionOf(store, g), g.search.results, 0).events;
    CycleTrace(last, now, store, g);
    FramedEventsFor(evs, m);
    ProcessFromIsolation(SessionOf(store, g), g.search.results, 0, m);
  }

  /** Opening and closing belong to no message. */
  lemma FramedEventsFor(evs: seq<Event>, m: nat)
    ensures EventsFor([Open] + evs + [Close], m) == EventsFor(evs, m)
  {
    EventsForAppend([Open] + evs, [Close], m);
    EventsForAppend([Open], evs, m);
    assert EventsFor([Open], m) == [] && EventsFor([Close], m) == [];
  }

  /** Which replies a cycle sends: for message `m` and rule `r`, exactly
      when the message was parsed, `r` matches its body, the send resolves,
      and no earlier rule both sent and flagged; the reply carries `r`'s
      subject and response, from the configured address to the sender. */
  lemma CycleSends(last: int, now: int, store: Store, g: Gateway, m: nat, r: nat, mail: Mail)
    requires ReachesLoop(last, now, store, g)
    ensures var s := SessionOf(store, g);
      var results := g.search.results;
      Send(m, r, mail) in CheckEmails(last, now, store, g).trace <==>
        (m < |results| && MessageEmail(s, results[m]).Some? &&
         var e := MessageEmail(s, results[m]).value;
         r < |s.rules| && Delivers(s, m, e, r) && NoSettleBefore(s, m, e, 0, r) && mail == Reply(s, e, r))
  {
    var s := SessionOf(store, g);
    var results := g.search.results;
    var c := CheckEmails(last, now, store, g);
    CycleIsolation(last, now, store, g, m);
    EventsForMembers(c.trace, m);
    if m < |results| {
      match MessageEmail(s, results[m])
      case None =>
      case Some(e) =>
        TrySendsSound(s, m, results[m].uid, e, 0);
        TrySendsComplete(s, m, results[m].uid, e, 0);
    }
  }

  /** A listed message is flagged seen exactly when it was parsed and some
      rule both sent its reply and flagged it. */
  lemma CycleFlags(last: int, now: int, store: Store, g: Gateway, m: nat)
    requires ReachesLoop(last, now, store, g)
    requires m < |g.search.results|
    ensures var s := SessionOf(store, g);
      var inb := g.search.results[m];
      Flag(m, inb.uid) in CheckEmails(last, now, store, g).trace <==>
        (MessageEmail(s, inb).Some? &&
         exists q :: 0 <= q < |s.rules| && Settles(s, m, MessageEmail(s, inb).value, q))
  {
    var s := SessionOf(store, g);
    var inb := g.search.results[m];
    var c := CheckEmails(last, now, store, g);
    CycleIsolation(last, now, store, g, m);
    EventsForMembers(c.trace, m);
    match MessageEmail(s, inb)
    case None =>
    case Some(e) =>
      TryFlagIff(s, m, inb.uid, e, 0);
  }

  /** A listed message is left untouched (no reply, no flag) when it has no
      full body or fails to parse, when no rule matches its body, when it
      has no sender, or when every send for it fails. */
  lemma CycleUntouched(last: int, now: int, store: Store, g: Gateway, m: nat)
    requires ReachesLoop(last, now, store, g)
    requires m < |g.search.results|
    requires var s := SessionOf(store, g);
      var me := MessageEmail(s, g.search.results[m]);
      || me.None?
      || (forall q :: 0 <= q < |s.rules| ==> !Matches(s.rules[q], BodyText(me.value)))
      || me.value.from.None?
      || (forall q :: 0 <= q < |s.rules| ==> !g.send(m, q))
    ensures EventsFor(CheckEmails(last, now, store, g).trace, m) == []
  {
    var s := SessionOf(store, g);
    CycleIsolation(last, now, store, g, m);
    match MessageEmail(s, g.search.results[m])
    case None =>
    case Some(e) =>
      TryNoEffect(s, m, g.search.results[m].uid, e);
  }

  // The worked example: one rule about refunds, one unseen message from
  // a@x.com saying "I need a REFUND please".

  function RefundRule(): Rule {
    Rule(1700000000000, ["refund"], "Refund Policy", "See policy...")
  }

  function RefundStore(): Store {
    Store(EmailConfig(Some("bot@x.com"), Some("secret")), [RefundRule()])
  }

  function RefundInbound(): Inbound {
    Inbound(7, [Part("HEADER", Some("h")), Part("", Some("raw"))])
  }

  function RefundEmail(): Email {
    Email(Some("a@x.com"), Some("I need a REFUND please"), None)
  }

  function RefundGateway(): Gateway {
    Gateway(Done, Done, Listed([RefundInbound()]), raw => Parsed(RefundEmail()), (m, r) => true, (m, r) => true)
  }

  function RefundReply(): Event {
    Send(0, 0, Mail("bot@x.com", "a@x.com", "Refund Policy", "See policy..."))
  }

  lemma RefundMessage()
    ensures ProcessMessage(SessionOf(RefundStore(), RefundGateway()), 0, RefundInbound()) ==
            Tally(1, [RefundReply(), Flag(0, 7)])
  {
    var s := SessionOf(RefundStore(), RefundGateway());
    var body := Lower("I need a REFUND please");
    assert body[9..15] == "refund";
    assert OccursAt(Lower("refund"), body, 9);
    SomeKeywordIff(["refund"], body);
    assert Matches(RefundRule(), BodyText(RefundEmail()));
    assert FindPart(RefundInbound().parts, "") == Some(Part("", Some("raw")));
    assert MessageEmail(s, RefundInbound()) == Some(RefundEmail());
    assert FirstMatchFrom(s.rules, BodyText(RefundEmail()), 0) == Some(0);
    TryFirstMatchWins(s, 0, 7, RefundEmail(), 0, 0);
  }

  /** The whole cycle on the worked example: one reply with the rule's
      subject goes to a@x.com, then the message is flagged, and the cycle
      reports one message and one response. */
  lemma RefundScenario()
    ensures CheckEmails(0, 20000, RefundStore(), RefundGateway()) ==
            Cycle(20000, Processed(1, 1), [Open, RefundReply(), Flag(0, 7), Close])
  {
    var s := SessionOf(RefundStore(), RefundGateway());
    RefundMessage();
    assert ProcessFrom(s, [RefundInbound()], 1) == Tally(0, []);
    assert ProcessFrom(s, [RefundInbound()], 0) == Tally(1, [RefundReply(), Flag(0, 7)]);
    CycleTrace(0, 20000, RefundStore(), RefundGateway());
  }
}
