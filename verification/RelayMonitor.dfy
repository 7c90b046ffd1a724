/** What a relay session may do and say, told from outside: a history of the events its peers can
    see, and which next event each history allows. RelaySession is proved to stay inside it. */
module RelayMonitor {
  import opened Text
  import opened RelayReplies
  import W = SmtpWire
  import D = Disposition

  datatype Command = Mail(sender: string) | Rcpt(address: string) | Data | Body(octets: string)

  // The upstream's answer: a reply code, or a broken connection or malformed reply.
  datatype Reply = Code(code: int) | Broken

  datatype Exchange = Exchange(command: Command, reply: Reply)

  // What is to be relayed once the policy has let a message through.
  datatype Plan = Plan(actions: seq<string>, recipients: seq<string>, data: string)

  datatype Delivery = Undelivered | ByUpstream | ByHost

  datatype Event =
    | MailOk(sender: string)                   // the client is told 250 for MAIL
    | RcptOk(address: string)                  // the client is told 250 for RCPT
    | Cleared                                  // the client's transaction is dropped
    | ConnectFailed(failure: Failure)          // no connection to the upstream came about
    | Opened                                   // a connection to the upstream is ready
    | Sent(exchange: Exchange)                 // a command and its answer
    | Closed
    | Received(message: Message)               // a message was read, and the policy run on it
    | Decided                                  // the policy let it through
    | HostAck(recipients: seq<string>, data: string)   // the delivery host took the message
    | HostFailed(failure: Failure)             // the delivery host did not
    | Accepted                                 // the client is told 250 for its message
    | Refused(code: int)                       // the client is told this code for its message

  // The state an observer reconstructs.
  datatype View = View(
    sender: Option<string>, rcpts: seq<string>,
    open: bool, log: seq<Exchange>,             // the latest upstream transaction
    reopened: bool,                             // it was opened to deliver a message already read
    fault: Option<Failure>,                     // the latest failure outside a transaction
    judging: Option<Message>, plan: Option<Plan>, delivery: Delivery,
    received: seq<Message>, told: seq<int>,     // the messages read, and the replies to them
    accepted: nat,                              // messages the client was told are accepted
    mailOks: nat, rcptOks: nat)                 // MAILs and RCPTs the client was told 250 for

  const START := View(None, [], false, [], false, None, None, None, Undelivered, [], [], 0, 0, 0)

  // A delivery host gets the envelope as it is and carries out the routing itself.
  function PlannedRecipients(cfg: Config, actions: seq<string>, rcpts: seq<string>): seq<string> {
    if cfg.hostAdapter then rcpts else D.Rewritten(actions, rcpts)
  }

  function PlanFor(cfg: Config, m: Message, rcpts: seq<string>): Plan
    requires Relays(cfg, m)
  {
    Plan(m.run.actions, PlannedRecipients(cfg, m.run.actions, rcpts), Outgoing(cfg, m))
  }

  function See(cfg: Config, v: View, e: Event): View {
    match e
    case MailOk(sender) => v.(sender := Some(sender), rcpts := [], mailOks := v.mailOks + 1)
    case RcptOk(address) => v.(rcpts := v.rcpts + [address], rcptOks := v.rcptOks + 1)
    case Cleared => v.(sender := None, rcpts := [], judging := None, plan := None, delivery := Undelivered)
    case ConnectFailed(failure) => v.(fault := Some(failure))
    case Opened => v.(open := true, log := [], reopened := v.plan.Some?, fault := None)
    case Sent(x) => v.(log := v.log + [x], delivery := if IsDelivery(x) then ByUpstream else v.delivery)
    case Closed => v.(open := false)
    case Received(m) => v.(judging := Some(m), received := v.received + [m])
    case Decided =>
      if v.judging.Some? && Relays(cfg, v.judging.value) then
        v.(plan := Some(PlanFor(cfg, v.judging.value, v.rcpts)), fault := None, delivery := Undelivered)
      else v
    case HostAck(recipients, data) => v.(delivery := ByHost)
    case HostFailed(failure) => v.(fault := Some(failure))
    case Accepted =>
      v.(judging := None, plan := None, delivery := Undelivered, told := v.told + [250], accepted := v.accepted + 1)
    case Refused(code) => v.(judging := None, plan := None, delivery := Undelivered, told := v.told + [code])
  }

  function Observe(cfg: Config, history: seq<Event>): View {
    if history == [] then START
    else See(cfg, Observe(cfg, history[..|history| - 1]), history[|history| - 1])
  }

  // ------------------------------------------------- reading an upstream transaction

  predicate IsAcceptedRcpt(x: Exchange) {
    x.command.Rcpt? && x.reply.Code? && RecipientAccepted(x.reply.code)
  }

  predicate IsDelivery(x: Exchange) {
    x.command.Body? && x.reply == Code(250)
  }

  // The recipients the upstream accepted, in order.
  function AcceptedRcpts(log: seq<Exchange>): seq<string> {
    if log == [] then []
    else
      var front, x := log[..|log| - 1], log[|log| - 1];
      AcceptedRcpts(front) + if IsAcceptedRcpt(x) then [x.command.address] else []
  }

  // The transaction began with an accepted MAIL and has seen only answered RCPTs since.
  predicate Addressing(log: seq<Exchange>, sender: string) {
    && log != [] && log[0] == Exchange(Mail(sender), Code(250))
    && forall i :: 1 <= i < |log| ==> log[i].command.Rcpt? && log[i].reply.Code?
  }

  // The recipients asked about, and the codes answered, in order.
  function Asked(log: seq<Exchange>): seq<string> {
    if log == [] then []
    else
      var front, x := log[..|log| - 1], log[|log| - 1];
      Asked(front) + if x.command.Rcpt? then [x.command.address] else []
  }

  function RcptCodes(log: seq<Exchange>): seq<int> {
    if log == [] then []
    else
      var front, x := log[..|log| - 1], log[|log| - 1];
      RcptCodes(front) + if x.command.Rcpt? && x.reply.Code? then [x.reply.code] else []
  }

  lemma LogGrows(log: seq<Exchange>, x: Exchange)
    ensures Asked(log + [x]) == Asked(log) + if x.command.Rcpt? then [x.command.address] else []
    ensures RcptCodes(log + [x]) == RcptCodes(log) + if x.command.Rcpt? && x.reply.Code? then [x.reply.code] else []
    ensures AcceptedRcpts(log + [x]) == AcceptedRcpts(log) + if IsAcceptedRcpt(x) then [x.command.address] else []
  {
    assert (log + [x])[..|log|] == log;
  }

  function FailureOf(reply: Reply): Failure {
    if reply.Code? then Status(reply.code) else NoStatus
  }

  // A recipient loop that is over: it broke off, or every recipient has been asked.
  function LoopFailure(log: seq<Exchange>, recipients: seq<string>): Option<Failure>
    requires log != []
  {
    if log[|log| - 1].reply.Broken? then Some(NoStatus)
    else if Asked(log) == recipients then RcptOutcome(RcptCodes(log))
    else None
  }

  // A recipient loop after asking about `asked`, with its two running results.
  ghost predicate LoopSoFar(log: seq<Exchange>, sender: string, asked: seq<string>, accepted: int,
                            rejection: Option<int>) {
    && Addressing(log, sender) && Asked(log) == asked
    && (asked != [] ==> log[|log| - 1].command.Rcpt? && log[|log| - 1].reply.Code?)
    && accepted == CountAccepted(RcptCodes(log)) && rejection == Rejection(RcptCodes(log))
    && (rejection.None? ==> AcceptedRcpts(log) == asked)
  }

  lemma LoopStart(sender: string)
    ensures LoopSoFar([Exchange(Mail(sender), Code(250))], sender, [], 0, None)
  {
    var log := [Exchange(Mail(sender), Code(250))];
    assert log[..0] == [];
  }

  lemma LoopStep(log: seq<Exchange>, sender: string, asked: seq<string>, accepted: int,
                 rejection: Option<int>, address: string, code: int, log': seq<Exchange>)
    requires LoopSoFar(log, sender, asked, accepted, rejection)
    requires log' == log + [Exchange(Rcpt(address), Code(code))]
    ensures LoopSoFar(log', sender, asked + [address], accepted + (if RecipientAccepted(code) then 1 else 0),
                      NextRejection(rejection, code))
  {
    LogGrows(log, Exchange(Rcpt(address), Code(code)));
    CodesGrow(RcptCodes(log), code);
  }

  lemma LoopEnd(log: seq<Exchange>, sender: string, recipients: seq<string>, accepted: int, rejection: Option<int>)
    requires recipients != [] && LoopSoFar(log, sender, recipients, accepted, rejection)
    ensures LoopFailure(log, recipients) ==
            if rejection.None? then None else Some(Status(if accepted > 0 then 451 else rejection.value))
  {
  }

  // How a transaction that was not completed failed. A client's own recipient that was refused
  // has been reported at once and is no failure of the message.
  function LogFailure(log: seq<Exchange>, reopened: bool, recipients: seq<string>): Option<Failure> {
    if log == [] then None
    else
      var last := log[|log| - 1];
      match last.command
      case Mail(_) => if last.reply == Code(250) then None else Some(FailureOf(last.reply))
      case Rcpt(_) => if reopened then LoopFailure(log, recipients) else None
      case Data => Some(if last.reply == Code(354) then NoStatus else FailureOf(last.reply))
      case Body(_) => if last.reply == Code(250) then None else Some(FailureOf(last.reply))
  }

  // The failure of the latest attempt to get a transaction going.
  function AttemptFailure(v: View): Option<Failure> {
    if v.fault.Some? then v.fault
    else LogFailure(v.log, v.reopened, if v.plan.Some? then v.plan.value.recipients else [])
  }

  function ForwardFailure(v: View): Option<Failure>
    requires v.plan.Some? && v.sender.Some?
  {
    if !W.Sendable(v.plan.value.data) then Some(Status(550))
    else if !D.ValidEnvelope(v.sender.value, v.plan.value.recipients) then Some(NoStatus)
    else AttemptFailure(v)
  }

  // The rewritten envelope holds an address that no command may carry.
  predicate RewriteRefused(cfg: Config, v: View)
    requires v.plan.Some? && v.sender.Some?
  {
    && !cfg.hostAdapter && D.Rewrites(v.plan.value.actions)
    && !D.ValidEnvelope(v.sender.value, D.Targets(v.plan.value.actions, v.rcpts))
  }

  /** Why a planned message was not delivered. */
  function DeliveryFailure(cfg: Config, v: View): Option<Failure>
    requires v.plan.Some? && v.sender.Some?
  {
    if cfg.hostAdapter then v.fault
    else if RewriteRefused(cfg, v) then Some(NoStatus)
    else ForwardFailure(v)
  }

  // ------------------------------------------------------------ what is allowed

  ghost predicate Allowed(cfg: Config, v: View, e: Event) {
    match e
    case MailOk(sender) =>
      // told 250 only when the upstream said so for the same sender
      && v.judging.None? && v.plan.None?
      && (cfg.upstreamConfigured ==> v.open && v.log == [Exchange(Mail(sender), Code(250))])
    case RcptOk(address) =>
      // told 250 only when the upstream accepted this recipient too
      && v.sender.Some? && v.judging.None? && v.plan.None?
      && (cfg.upstreamConfigured ==>
            v.open && Addressing(v.log, v.sender.value) && AcceptedRcpts(v.log) == v.rcpts + [address])
    case Cleared => v.judging.None? && v.delivery.Undelivered?
    case ConnectFailed(failure) =>
      !v.open && v.delivery.Undelivered? && (!cfg.upstreamConfigured ==> failure == NoStatus)
    case Opened => !v.open && v.delivery.Undelivered?
    case Sent(x) => v.open && v.delivery.Undelivered? && AllowedCommand(v, x.command) && ReadableReply(x.reply)
    case Closed => v.open
    case Received(m) =>
      && v.sender.Some? && v.rcpts != [] && v.judging.None? && v.plan.None? && v.delivery.Undelivered?
      && WellFormedRun(m.run) && W.Framed(m.text)
    case Decided =>
      && v.sender.Some? && v.plan.None? && v.judging.Some? && Relays(cfg, v.judging.value)
      && (v.open ==> Addressing(v.log, v.sender.value))
    case HostAck(recipients, data) =>
      && cfg.hostAdapter && v.plan.Some? && v.delivery.Undelivered?
      && v.plan.value.recipients == recipients && v.plan.value.data == data
    case HostFailed(failure) =>
      && cfg.hostAdapter && v.plan.Some? && v.delivery.Undelivered?
      && (failure.Status? ==> 400 <= failure.code <= 599)
    case Accepted => v.plan.Some? && !v.delivery.Undelivered?
    case Refused(code) => v.delivery.Undelivered? && RefusalDue(cfg, v, code)
  }

  // A message is refused with the policy's code, or with what became of its delivery.
  ghost predicate RefusalDue(cfg: Config, v: View, code: int) {
    && v.judging.Some? && v.sender.Some?
    && (v.plan.None? ==> code == PolicyReply(cfg, v.judging.value.run) != 250)
    && (v.plan.Some? ==> DeliveryFailure(cfg, v).Some? && code == Reported(DeliveryFailure(cfg, v).value, 450))
  }

  // What the reply reader lets through.
  predicate ReadableReply(reply: Reply) {
    reply.Code? ==> 200 <= reply.code <= 599
  }

  ghost predicate AllowedCommand(v: View, c: Command) {
    match c
    case Mail(_) => v.log == []
    case Rcpt(_) => v.log != [] && !v.log[|v.log| - 1].command.Data? && v.log[|v.log| - 1].reply.Code?
    case Data =>
      // the upstream has accepted exactly the planned recipients, for the client's sender
      && v.plan.Some? && v.sender.Some?
      && Addressing(v.log, v.sender.value) && AcceptedRcpts(v.log) == v.plan.value.recipients
      && (v.reopened ==> LoopFailure(v.log, v.plan.value.recipients).None? && Asked(v.log) == v.plan.value.recipients)
    case Body(octets) =>
      && v.plan.Some? && octets == W.Wire(v.plan.value.data)
      && v.log != [] && v.log[|v.log| - 1] == Exchange(Data, Code(354))
  }

  ghost predicate Justified(cfg: Config, history: seq<Event>) {
    history == [] ||
    (var front := history[..|history| - 1];
     Justified(cfg, front) && Allowed(cfg, Observe(cfg, front), history[|history| - 1]))
  }

  lemma Extend(cfg: Config, history: seq<Event>, e: Event)
    requires Justified(cfg, history) && Allowed(cfg, Observe(cfg, history), e)
    ensures Justified(cfg, history + [e])
    ensures Observe(cfg, history + [e]) == See(cfg, Observe(cfg, history), e)
  {
    assert (history + [e])[..|history|] == history;
  }

  lemma {:induction false} JustifiedAt(cfg: Config, history: seq<Event>, i: nat)
    requires Justified(cfg, history) && i < |history|
    ensures Justified(cfg, history[..i]) && Allowed(cfg, Observe(cfg, history[..i]), history[i])
  {
    var front := history[..|history| - 1];
    if i < |history| - 1 {
      JustifiedAt(cfg, front, i);
      assert front[..i] == history[..i];
    }
  }

  // ------------------------------------------------- what a justified history means

  // The event that hands a message over.
  predicate Delivering(e: Event) {
    e.HostAck? || (e.Sent? && IsDelivery(e.exchange))
  }

  function Deliveries(history: seq<Event>): nat {
    if history == [] then 0
    else Deliveries(history[..|history| - 1]) + if Delivering(history[|history| - 1]) then 1 else 0
  }

  function Acceptances(history: seq<Event>): nat {
    if history == [] then 0
    else Acceptances(history[..|history| - 1]) + if history[|history| - 1].Accepted? then 1 else 0
  }

  // The exchanges of a completed delivery, whatever was refused on the way.
  ghost predicate Delivers(log: seq<Exchange>, sender: string, plan: Plan) {
    var n := |log| - 2;
    && n >= 1 && log[n] == Exchange(Data, Code(354))
    && log[n + 1] == Exchange(Body(W.Wire(plan.data)), Code(250))
    && Addressing(log[..n], sender) && AcceptedRcpts(log[..n]) == plan.recipients
  }

  // Every answer of a log is readable, and only the last may be a broken connection.
  ghost predicate Readable(log: seq<Exchange>) {
    && (forall i :: 0 <= i < |log| ==> ReadableReply(log[i].reply))
    && forall i :: 0 <= i < |log| - 1 ==> log[i].reply.Code?
  }

  // What the observer always finds.
  ghost predicate Coherent(cfg: Config, v: View) {
    && (v.judging.Some? ==> v.sender.Some? && v.received != [] && v.received[|v.received| - 1] == v.judging.value)
    && (v.plan.Some? ==>
          v.judging.Some? && Relays(cfg, v.judging.value) && v.plan.value == PlanFor(cfg, v.judging.value, v.rcpts))
    && (!v.delivery.Undelivered? ==> v.plan.Some?)
    && (v.delivery.ByHost? ==> cfg.hostAdapter)
    && |v.received| == |v.told| + (if v.judging.Some? then 1 else 0)
    && Readable(v.log)
    && LogCoherent(v)
  }

  ghost predicate LogCoherent(v: View) {
    && (v.delivery.ByUpstream? ==> v.plan.Some? && v.sender.Some? && Delivers(v.log, v.sender.value, v.plan.value))
    && (v.open && v.plan.Some? && v.log != [] && v.log[|v.log| - 1].command.Data? ==>
          var n := |v.log| - 1;
          && v.sender.Some? && Addressing(v.log[..n], v.sender.value)
          && AcceptedRcpts(v.log[..n]) == v.plan.value.recipients)
  }

  lemma LogCoherentStep(cfg: Config, v: View, x: Exchange)
    requires LogCoherent(v) && Allowed(cfg, v, Sent(x))
    ensures LogCoherent(See(cfg, v, Sent(x)))
  {
    var log := v.log + [x];
    assert log[..|v.log|] == v.log;
    if IsDelivery(x) {
      assert log[..|log| - 2] == v.log[..|v.log| - 1];
    }
  }

  lemma CoherentStep(cfg: Config, v: View, e: Event)
    requires Coherent(cfg, v) && Allowed(cfg, v, e)
    ensures Coherent(cfg, See(cfg, v, e))
  {
    match e
    case Sent(x) =>
      LogCoherentStep(cfg, v, x);
      assert forall i :: 0 <= i < |v.log| ==> (v.log + [x])[i] == v.log[i];
      assert v.log != [] ==> v.log[|v.log| - 1].reply.Code?;
    case _ =>
  }

  lemma {:induction false} AlwaysCoherent(cfg: Config, history: seq<Event>)
    requires Justified(cfg, history)
    ensures Coherent(cfg, Observe(cfg, history))
  {
    if history != [] {
      var front := history[..|history| - 1];
      AlwaysCoherent(cfg, front);
      CoherentStep(cfg, Observe(cfg, front), history[|history| - 1]);
    }
  }

  // The message under judgment has been let through, and is on its way as the policy left it.
  ghost predicate UnderWay(cfg: Config, v: View) {
    && v.sender.Some? && v.judging.Some? && Relays(cfg, v.judging.value)
    && v.received != [] && v.received[|v.received| - 1] == v.judging.value
    && v.plan == Some(PlanFor(cfg, v.judging.value, v.rcpts))
  }

  /** Whenever the client is told its message was accepted, its policy let it through, and the
      upstream transaction took the client's sender, exactly the recipients the policy left, in
      order, and the octets of the message as the policy left them, with a final 250; or the
      delivery host acknowledged just that plan. */
  lemma AcceptedMeansDelivered(cfg: Config, history: seq<Event>, i: nat)
    requires Justified(cfg, history) && i < |history| && history[i] == Accepted
    ensures var v := Observe(cfg, history[..i]);
      && UnderWay(cfg, v)
      && (Delivers(v.log, v.sender.value, PlanFor(cfg, v.judging.value, v.rcpts)) ||
          (v.delivery.ByHost? && cfg.hostAdapter))
  {
    JustifiedAt(cfg, history, i);
    AlwaysCoherent(cfg, history[..i]);
  }

  /** Nothing is sent for delivery to a partial audience: at every DATA the upstream has accepted
      exactly the recipients the policy left of the client's, no more and no fewer. */
  lemma DataMeansExactRecipients(cfg: Config, history: seq<Event>, i: nat)
    requires Justified(cfg, history) && i < |history| && history[i].Sent? && history[i].exchange.command.Data?
    ensures var v := Observe(cfg, history[..i]);
      && v.open && UnderWay(cfg, v) && Addressing(v.log, v.sender.value)
      && AcceptedRcpts(v.log) == PlannedRecipients(cfg, v.judging.value.run.actions, v.rcpts)
  {
    JustifiedAt(cfg, history, i);
    AlwaysCoherent(cfg, history[..i]);
  }

  /** Every message read gets exactly one reply, in order. */
  lemma EveryMessageAnswered(cfg: Config, history: seq<Event>)
    requires Justified(cfg, history)
    ensures var v := Observe(cfg, history); |v.received| == |v.told| + if v.judging.Some? then 1 else 0
  {
    AlwaysCoherent(cfg, history);
  }

  // ------------------------------------------------------------- what a refusal means

  // The recipient loop of a reopened transaction is what stopped the message.
  ghost predicate EndedInRcptLoop(cfg: Config, v: View) {
    && v.sender.Some? && v.plan.Some? && !cfg.hostAdapter && !RewriteRefused(cfg, v)
    && W.Sendable(v.plan.value.data) && D.ValidEnvelope(v.sender.value, v.plan.value.recipients)
    && v.fault.None? && v.reopened
    && v.log != [] && v.log[|v.log| - 1].command.Rcpt? && v.log[|v.log| - 1].reply.Code?
  }

  lemma {:induction false} CodesOfLog(log: seq<Exchange>)
    requires Readable(log) && (log != [] ==> log[|log| - 1].reply.Code?)
    ensures |RcptCodes(log)| == |Asked(log)|
    ensures forall k :: 0 <= k < |RcptCodes(log)| ==> 200 <= RcptCodes(log)[k] <= 599
  {
    if log != [] {
      var front := log[..|log| - 1];
      assert front != [] ==> front[|front| - 1] == log[|log| - 2];
      CodesOfLog(front);
    }
  }

  /** When the recipient loop of a reopened transaction stops a message, every recipient has been
      asked and answered; the client sees a 5xx exactly when each of them was refused with 5xx, and
      a 451 when some were accepted and some were not. */
  lemma RefusedAfterRcptLoop(cfg: Config, history: seq<Event>, i: nat)
    requires Justified(cfg, history) && i < |history| && history[i].Refused?
    requires EndedInRcptLoop(cfg, Observe(cfg, history[..i]))
    ensures var v := Observe(cfg, history[..i]);
      var codes := RcptCodes(v.log);
      && Asked(v.log) == v.plan.value.recipients && |codes| == |Asked(v.log)| > 0
      && (history[i].code >= 500 <==> forall c | c in codes :: c >= 500)
      && (Mixed(codes) ==> history[i].code == 451)
  {
    JustifiedAt(cfg, history, i);
    AlwaysCoherent(cfg, history[..i]);
    var v := Observe(cfg, history[..i]);
    LoopRefusal(cfg, v, history[i].code);
    CodesOfLog(v.log);
    ReportedOutcome(RcptCodes(v.log));
  }

  lemma LoopRefusal(cfg: Config, v: View, code: int)
    requires EndedInRcptLoop(cfg, v) && RefusalDue(cfg, v, code)
    ensures var outcome := RcptOutcome(RcptCodes(v.log));
      Asked(v.log) == v.plan.value.recipients && outcome.Some? && code == Reported(outcome.value, 450)
  {
    assert DeliveryFailure(cfg, v) == LoopFailure(v.log, v.plan.value.recipients);
  }

  // Why a client may be told a 5xx for its message, cause by cause.
  ghost predicate PermanentCause(cfg: Config, v: View, code: int) {
    v.judging.Some? &&
    if v.plan.None? then code == PolicyReply(cfg, v.judging.value.run)
    else
      || (code == 550 && !W.Sendable(v.plan.value.data))
      || v.fault == Some(Status(code))
      || (v.log != [] && !v.log[|v.log| - 1].command.Rcpt? && v.log[|v.log| - 1].reply == Code(code))
      || (v.log != [] && v.reopened && Asked(v.log) == v.plan.value.recipients && code in RcptCodes(v.log)
          && forall c | c in RcptCodes(v.log) :: c >= 500)
  }

  /** Over every history: a message is refused for good only when the policy or the size and framing
      rules refuse it, when the upstream or the host answered with that very code, or when every
      recipient of the reopened transaction was refused for good. */
  lemma PermanentMeansRefused(cfg: Config, history: seq<Event>, i: nat)
    requires Justified(cfg, history) && i < |history| && history[i].Refused? && history[i].code >= 500
    ensures PermanentCause(cfg, Observe(cfg, history[..i]), history[i].code)
  {
    JustifiedAt(cfg, history, i);
    CauseOfRefusal(cfg, Observe(cfg, history[..i]), history[i].code);
  }

  lemma CauseOfRefusal(cfg: Config, v: View, code: int)
    requires RefusalDue(cfg, v, code) && code >= 500
    ensures PermanentCause(cfg, v, code)
  {
    if v.plan.Some? && v.log != [] {
      LoopCause(v.log, v.plan.value.recipients);
    }
  }

  lemma LoopCause(log: seq<Exchange>, recipients: seq<string>)
    requires log != []
    ensures var f := LoopFailure(log, recipients);
      f.Some? && f.value.Status? && f.value.code >= 500 ==>
        && Asked(log) == recipients && f.value.code in RcptCodes(log)
        && forall c | c in RcptCodes(log) :: c >= 500
  {
    RcptOutcomeMeaning(RcptCodes(log));
    RejectionMeaning(RcptCodes(log));
  }

  /** Responsibility changes hands exactly once: every "message accepted" is matched by its own
      final 250 or host acknowledgement, and every such delivery is reported as accepted, except
      the one still to be reported. */
  lemma {:induction false} AcceptancesAreDeliveries(cfg: Config, history: seq<Event>)
    requires Justified(cfg, history)
    ensures Observe(cfg, history).accepted == Acceptances(history)
    ensures Deliveries(history) ==
            Acceptances(history) + if Observe(cfg, history).delivery.Undelivered? then 0 else 1
  {
    if history != [] {
      var front := history[..|history| - 1];
      AlwaysCoherent(cfg, front);
      AcceptancesAreDeliveries(cfg, front);
      HandOver(cfg, Observe(cfg, front), history[|history| - 1]);
    }
  }

  lemma HandOver(cfg: Config, v: View, e: Event)
    requires Coherent(cfg, v) && Allowed(cfg, v, e)
    ensures var w, told := See(cfg, v, e), if e.Accepted? then 1 else 0;
      && w.accepted == v.accepted + told
      && (if v.delivery.Undelivered? then 0 else 1) + (if Delivering(e) then 1 else 0) ==
         told + if w.delivery.Undelivered? then 0 else 1
  {
  }
}
