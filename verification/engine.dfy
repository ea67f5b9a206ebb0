/** One check cycle of the email triage agent: the guard, the settings
    check, the mailbox session, the per-message rule loop and the summary.
    The mailbox (IMAP), the mail parser and the mail sender are oracles
    carried by a `Gateway` value; the cycle is a pure function of its inputs
    and returns, besides its result, the trace of the side effects it
    caused, in order. */
module Engine {
  import opened Options
  import opened Text
  import opened Rules
  import opened RuleStore
  import Guard

  /** One fetched body section: `which` is "HEADER", "TEXT" or "" (the
      whole message); `body` is `None` when absent. */
  datatype Part = Part(which: string, body: Option<string>)

  /** One result of the UNSEEN search, with its mailbox uid. */
  datatype Inbound = Inbound(uid: nat, parts: seq<Part>)

  /** What the mail parser makes of a raw message. `from` is the sender's
      address text (`None` when the message has no From header); `text` and
      `html` are the plain and the HTML body, when present. */
  datatype Email = Email(from: Option<string>, text: Option<string>, html: Option<string>)

  datatype Parse = Parsed(email: Email) | ParseError

  /** The outcome of a mailbox step that returns nothing. */
  datatype Step = Done | Error(reason: string)

  datatype Listing = Listed(results: seq<Inbound>) | ListError(reason: string)

  /** The external collaborators of one cycle, as oracles. Each (message,
      rule) pair is tried at most once in a cycle, so `send(m, r)` says
      whether sending the reply of rule `r` to message `m` resolves, and
      `flag(m, r)` whether flagging `m` seen right after that reply does. */
  datatype Gateway = Gateway(
    connect: Step,
    openBox: Step,
    search: Listing,
    parse: string -> Parse,
    send: (nat, nat) -> bool,
    flag: (nat, nat) -> bool)

  /** An outbound reply. */
  datatype Mail = Mail(from: string, to: string, subject: string, text: string)

  /** Externally visible effects of a cycle, in order: the connection is
      opened, a reply to message `msg` (by its index in the search result)
      for rule `rule` goes out, message `msg` gets the `\Seen` flag, the
      connection is closed. Attempts that fail leave no event. */
  datatype Event =
    | Open
    | Send(msg: nat, rule: nat, mail: Mail)
    | Flag(msg: nat, uid: nat)
    | Close
  {
    /** The event belongs to the processing of one message. */
    predicate OnMessage() {
      Send? || Flag?
    }
  }

  /** The summary a cycle returns to its caller. */
  datatype CycleResult =
    | Skipped
    | ConfigMissing
    | NoNewEmails
    | Processed(emailCount: nat, responseCount: nat)
    | Failed(reason: string)
  {
    predicate Success() {
      Skipped? || NoNewEmails? || Processed?
    }

    function Message(): string {
      match this
      case Skipped => "Skipped check - too soon"
      case ConfigMissing => "Email configuration missing"
      case NoNewEmails => "No new emails"
      case Processed(n, k) =>
        "Processed " + NatToString(n) + " emails, sent " + NatToString(k) + " responses"
      case Failed(reason) => reason
    }
  }

  /** Replies counted and events caused by part of a cycle. */
  datatype Tally = Tally(sent: nat, events: seq<Event>)

  /** A whole guarded cycle: the new time of the last check, the summary,
      and the trace. */
  datatype Cycle = Cycle(lastCheckTime: int, result: CycleResult, trace: seq<Event>)

  /** What one cycle works with once the settings check has passed: the
      sender address, a snapshot of the rules and the oracles. */
  datatype Session = Session(sender: string, rules: seq<Rule>, gateway: Gateway)

  function CountSends(events: seq<Event>): nat
    decreases |events|
  {
    if events == [] then 0
    else (if events[0].Send? then 1 else 0) + CountSends(events[1..])
  }

  lemma {:induction false} CountSendsAppend(a: seq<Event>, b: seq<Event>)
    ensures CountSends(a + b) == CountSends(a) + CountSends(b)
    decreases |a|
  {
    if a == [] {
      assert a + b == b;
    } else {
      assert (a + b)[1..] == a[1..] + b;
      CountSendsAppend(a[1..], b);
    }
  }

  /** `parts.find(p => p.which === which)`. */
  function FindPart(parts: seq<Part>, which: string): Option<Part>
    decreases |parts|
  {
    if parts == [] then None
    else if parts[0].which == which then Some(parts[0])
    else FindPart(parts[1..], which)
  }

  /** The lookup finds the first part with the requested name, and finds
      nothing exactly when no part has that name. */
  lemma {:induction false} FindPartFirst(parts: seq<Part>, which: string)
    ensures var r := FindPart(parts, which);
      r.None? <==> forall i :: 0 <= i < |parts| ==> parts[i].which != which
    ensures var r := FindPart(parts, which);
      r.Some? ==> r.value.which == which && exists i :: (0 <= i < |parts| && parts[i] == r.value &&
                                                         forall j :: 0 <= j < i ==> parts[j].which != which)
    decreases |parts|
  {
    if parts != [] && parts[0].which != which {
      FindPartFirst(parts[1..], which);
      assert forall i :: 0 < i < |parts| ==> parts[i] == parts[1..][i - 1];
      var r := FindPart(parts, which);
      if r.Some? {
        var i :| 0 <= i < |parts[1..]| && parts[1..][i] == r.value &&
                 forall j :: 0 <= j < i ==> parts[1..][j].which != which;
        assert parts[i + 1] == r.value;
      }
    }
  }

  /** The raw full message, when the fetch carried a non-empty one. */
  function FullBody(parts: seq<Part>): Option<string> {
    match FindPart(parts, "")
    case None => None
    case Some(p) => if Truthy(p.body) then Some(p.body.value) else None
  }

  /** `email.text || email.html || ''`: the text the rules are matched on. */
  function BodyText(e: Email): string {
    if Truthy(e.text) then e.text.value
    else if Truthy(e.html) then e.html.value
    else ""
  }

  /** The parsed message whose rules get tried; `None` when the message is
      skipped (no full body) or the parser rejects it. */
  function MessageEmail(s: Session, inb: Inbound): Option<Email> {
    match FullBody(inb.parts)
    case None => None
    case Some(raw) =>
      match s.gateway.parse(raw)
      case ParseError => None
      case Parsed(e) => Some(e)
  }

  /** The reply of rule `r` to the sender of `e`. */
  function Reply(s: Session, e: Email, r: nat): Mail
    requires r < |s.rules| && e.from.Some?
  {
    Mail(s.sender, e.from.value, s.rules[r].subject, s.rules[r].response)
  }

  /** Rule `r` matches and its reply to message `m` goes out. A message
      without a sender makes the attempt fail before anything is sent. */
  predicate Delivers(s: Session, m: nat, e: Email, r: nat)
    requires r < |s.rules|
  {
    Matches(s.rules[r], BodyText(e)) && e.from.Some? && s.gateway.send(m, r)
  }

  /** Rule `r` settles message `m`: its reply goes out and the message is
      then flagged seen, which ends the rule loop. */
  predicate Settles(s: Session, m: nat, e: Email, r: nat)
    requires r < |s.rules|
  {
    Delivers(s, m, e, r) && s.gateway.flag(m, r)
  }

  /** The rule loop for message `m`, from rule `j` on. A reply that goes
      out is counted at once; only a following successful flag breaks the
      loop, while a failed send or a failed flag moves on to the next rule. */
  function TryRules(s: Session, m: nat, uid: nat, e: Email, j: nat): (t: Tally)
    requires j <= |s.rules|
    ensures t.sent == CountSends(t.events)
    decreases |s.rules| - j
  {
    if j == |s.rules| then Tally(0, [])
    else if !Delivers(s, m, e, j) then TryRules(s, m, uid, e, j + 1)
    else
      var sent := Send(m, j, Reply(s, e, j));
      if s.gateway.flag(m, j) then
        assert [sent, Flag(m, uid)][1..] == [Flag(m, uid)];
        assert CountSends([Flag(m, uid)]) == 0;
        Tally(1, [sent, Flag(m, uid)])
      else
        var rest := TryRules(s, m, uid, e, j + 1);
        assert ([sent] + rest.events)[1..] == rest.events;
        Tally(rest.sent + 1, [sent] + rest.events)
  }

  /** The rule loop causes nothing but replies to and flags of its own
      message. */
  lemma {:induction false} TryRulesOwnMessage(s: Session, m: nat, uid: nat, e: Email, j: nat)
    requires j <= |s.rules|
    ensures forall ev :: ev in TryRules(s, m, uid, e, j).events ==> ev.OnMessage() && ev.msg == m
    decreases |s.rules| - j
  {
    if j < |s.rules| {
      TryRulesOwnMessage(s, m, uid, e, j + 1);
    }
  }

  /** One iteration of the message loop: a skipped or unparsable message
      causes nothing. */
  function ProcessMessage(s: Session, m: nat, inb: Inbound): (t: Tally)
    ensures forall ev :: ev in t.events ==> ev.OnMessage() && ev.msg == m
    ensures t.sent == CountSends(t.events)
    ensures MessageEmail(s, inb).None? ==> t == Tally(0, [])
  {
    match MessageEmail(s, inb)
    case None => Tally(0, [])
    case Some(e) =>
      TryRulesOwnMessage(s, m, inb.uid, e, 0);
      TryRules(s, m, inb.uid, e, 0)
  }

  /** The message loop over the search results from index `i` on, in
      listing order. */
  function ProcessFrom(s: Session, results: seq<Inbound>, i: nat): (t: Tally)
    requires i <= |results|
    ensures forall ev :: ev in t.events ==> ev.OnMessage() && i <= ev.msg < |results|
    ensures t.sent == CountSends(t.events)
    decreases |results| - i
  {
    if i == |results| then Tally(0, [])
    else
      var head := ProcessMessage(s, i, results[i]);
      var tail := ProcessFrom(s, results, i + 1);
      CountSendsAppend(head.events, tail.events);
      Tally(head.sent + tail.sent, head.events + tail.events)
  }

  /** Framing the message loop's events between opening and closing. */
  lemma Framed(evs: seq<Event>)
    requires forall ev :: ev in evs ==> ev.OnMessage()
    ensures var trace := [Open] + evs + [Close];
      && |trace| >= 2 && trace[0] == Open && trace[|trace| - 1] == Close
      && (forall k :: 0 < k < |trace| - 1 ==> trace[k].OnMessage())
      && CountSends(trace) == CountSends(evs)
  {
    var trace := [Open] + evs + [Close];
    forall k | 0 < k < |trace| - 1
      ensures trace[k].OnMessage()
    {
      assert trace[k] == evs[k - 1];
    }
    CountSendsAppend([Open], evs);
    CountSendsAppend([Open] + evs, [Close]);
  }

  /** The `error.message` the `catch` reports: that of the first step of
      the session that rejected. */
  function FirstFailure(g: Gateway): string {
    if g.connect.Error? then g.connect.reason
    else if g.openBox.Error? then g.openBox.reason
    else if g.search.ListError? then g.search.reason
    else ""
  }

  /** The body of the `try`/`finally` around the mailbox session: once the
      connection is open, every path ends with closing it. */
  function RunSession(s: Session): (r: (CycleResult, seq<Event>))
    ensures r.1 != [] ==> |r.1| >= 2 && r.1[0] == Open && r.1[|r.1| - 1] == Close
    ensures forall k :: 0 < k < |r.1| - 1 ==> r.1[k].OnMessage()
    ensures r.1 == [] <==> s.gateway.connect.Error?
    ensures r.0.Skipped? == false && r.0.ConfigMissing? == false
    ensures r.0.NoNewEmails? <==> (s.gateway.connect.Done? && s.gateway.openBox.Done? &&
                                   s.gateway.search.Listed? && s.gateway.search.results == [])
    ensures r.0.Processed? ==> (s.gateway.search.Listed? &&
                                r.0.emailCount == |s.gateway.search.results| > 0 &&
                                r.0.responseCount == CountSends(r.1))
    ensures r.0.Processed? <==> (s.gateway.connect.Done? && s.gateway.openBox.Done? &&
                                 s.gateway.search.Listed? && s.gateway.search.results != [])
    ensures !r.0.Processed? ==> r.1 == [] || r.1 == [Open, Close]
    ensures r.0.Failed? <==> (s.gateway.connect.Error? || s.gateway.openBox.Error? || s.gateway.search.ListError?)
    ensures r.0.Failed? ==> r.0.reason == FirstFailure(s.gateway)
  {
    var g := s.gateway;
    match g.connect
    case Error(reason) => (Failed(reason), [])
    case Done =>
      match g.openBox
      case Error(reason) => (Failed(reason), [Open, Close])
      case Done =>
        match g.search
        case ListError(reason) => (Failed(reason), [Open, Close])
        case Listed(results) =>
          if |results| == 0 then (NoNewEmails, [Open, Close])
          else
            var t := ProcessFrom(s, results, 0);
            Framed(t.events);
            (Processed(|results|, t.sent), [Open] + t.events + [Close])
  }

  /** The session a cycle runs with the stored settings. */
  function SessionOf(store: Store, g: Gateway): Session
    requires Truthy(store.emailConfig.email)
  {
    Session(store.emailConfig.email.value, store.rules, g)
  }

  /** `checkEmails()`: the guard first, stamping the time of the last
      check as soon as a cycle is admitted, then the settings check, then
      the mailbox session. */
  function CheckEmails(lastCheckTime: int, now: int, store: Store, g: Gateway): (c: Cycle)
    ensures c.result.Skipped? <==> !Guard.Admits(lastCheckTime, now)
    ensures c.result.Skipped? ==> c.lastCheckTime == lastCheckTime && c.trace == []
    ensures !c.result.Skipped? ==> c.lastCheckTime == now
    ensures c.result.ConfigMissing? <==> (Guard.Admits(lastCheckTime, now) &&
                                          (!Truthy(store.emailConfig.email) || !Truthy(store.emailConfig.password)))
    ensures c.result.ConfigMissing? ==> c.trace == []
    ensures c.result.NoNewEmails? <==> (Guard.Admits(lastCheckTime, now) &&
                                        Truthy(store.emailConfig.email) && Truthy(store.emailConfig.password) &&
                                        g.connect.Done? && g.openBox.Done? && g.search == Listed([]))
    ensures c.trace != [] <==> !c.result.Skipped? && !c.result.ConfigMissing? && g.connect.Done?
    ensures c.trace != [] ==> |c.trace| >= 2 && c.trace[0] == Open && c.trace[|c.trace| - 1] == Close
    ensures forall k :: 0 < k < |c.trace| - 1 ==> c.trace[k].OnMessage()
    ensures c.result.Processed? ==> (g.search.Listed? &&
                                     c.result.emailCount == |g.search.results| > 0 &&
                                     c.result.responseCount == CountSends(c.trace))
    ensures !c.result.Processed? ==> c.trace == [] || c.trace == [Open, Close]
    ensures c.result.Success() <==> (!Guard.Admits(lastCheckTime, now) ||
                                     (Truthy(store.emailConfig.email) && Truthy(store.emailConfig.password) &&
                                      g.connect.Done? && g.openBox.Done? && g.search.Listed?))
    ensures c.result.Failed? ==> c.result.Message() == FirstFailure(g)
    ensures c.result.Skipped? ==> c.result.Message() == "Skipped check - too soon"
    ensures c.result.ConfigMissing? ==> c.result.Message() == "Email configuration missing"
    ensures c.result.NoNewEmails? ==> c.result.Message() == "No new emails"
    ensures c.result.Processed? ==>
      c.result.Message() == "Processed " + NatToString(|g.search.results|) + " emails, sent " +
                            NatToString(CountSends(c.trace)) + " responses"
  {
    if !Guard.Admits(lastCheckTime, now) then
      Cycle(lastCheckTime, Skipped, [])
    else
      var config := store.emailConfig;
      if !Truthy(config.email) || !Truthy(config.password) then
        Cycle(now, ConfigMissing, [])
      else
        var r := RunSession(SessionOf(store, g));
        Cycle(now, r.0, r.1)
  }
}
