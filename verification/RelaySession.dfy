/** One SMTP session of the proxy and its upstream transaction (cmd/mailscript/proxy.go,
    upstream.go, submission.go). The peers are nondeterministic: every answer of the upstream,
    the delivery host, the TLS layer and the policy is arbitrary. Each command is proved to take
    the step RelayTurns gives it, to keep the session consistent with RelayMonitor, and its history
    justified. */
module RelaySession {
  import opened Text
  import opened RelayReplies
  import opened RelayMonitor
  import opened RelayTurns
  import opened RelayAnswers
  import W = SmtpWire
  import H = HeaderStrip
  import D = Disposition

  class Session {
    const cfg: Config
    var helo: string
    var mailSet: bool
    var sender: string
    var recipients: seq<string>
    var data: string
    var actions: seq<string>
    var replyCode: int
    var tlsActive: bool
    var authenticated: bool
    var upstream: bool                    // a transaction is open

    ghost var history: seq<Event>
    ghost var view: View

    constructor (cfg: Config)
      ensures this.cfg == cfg && Idle() && history == []
    {
      this.cfg := cfg;
      helo, mailSet, sender, recipients, data, actions, replyCode := "", false, "", [], "", [], 0;
      tlsActive, authenticated, upstream := false, false, false;
      history, view := [], START;
    }

    // The ghost side: the history is justified and the observer agrees with the fields.
    ghost predicate Witnessed()
      reads this
    {
      && Justified(cfg, history) && view == Observe(cfg, history)
      && view.sender == (if mailSet then Some(sender) else None)
      && view.open == upstream
    }

    // What holds of the session's own fields between commands.
    ghost predicate Consistent()
      reads this
    {
      && (mailSet ==> helo != "")
      && (!mailSet ==> sender == "") && (recipients != [] ==> mailSet) && |recipients| <= MAX_RECIPIENTS
      && (authenticated ==> tlsActive && cfg.submission)
      && (cfg.submission && mailSet ==> authenticated)
      && (tlsActive ==> cfg.tlsAvailable)
      && (upstream <==> mailSet && cfg.upstreamConfigured)
      && data == "" && actions == [] && replyCode == 0
    }

    // The open transaction has accepted exactly the session's envelope.
    ghost predicate EnvelopeHeld()
      reads this
    {
      upstream ==> Addressing(view.log, sender) && AcceptedRcpts(view.log) == recipients && !view.reopened
    }

    ghost predicate Idle()
      reads this
    {
      && Witnessed() && Consistent() && EnvelopeHeld()
      && view.rcpts == recipients && view.judging.None? && view.plan.None? && view.delivery.Undelivered?
    }

    ghost function Now(): Stage
      reads this
    {
      Stage(helo, tlsActive, authenticated, view)
    }

    ghost predicate NoTransaction()
      reads this
    {
      !mailSet && sender == "" && recipients == [] && data == "" && !upstream && actions == [] && replyCode == 0
    }

    ghost method Record(e: Event)
      requires Justified(cfg, history) && view == Observe(cfg, history) && Allowed(cfg, view, e)
      modifies this`history, this`view
      ensures history == old(history) + [e] && view == See(cfg, old(view), e)
      ensures Justified(cfg, history) && view == Observe(cfg, history)
    {
      Extend(cfg, history, e);
      history := history + [e];
      view := See(cfg, view, e);
    }

    // ------------------------------------------------------------ the upstream side

    // One command on the open connection; the answer is anything the reply reader lets through.
    method SendCommand(c: Command) returns (reply: Reply)
      requires Witnessed() && upstream && view.delivery.Undelivered? && AllowedCommand(view, c)
      modifies this`history, this`view
      ensures Witnessed() && ReadableReply(reply) && view == See(cfg, old(view), Sent(Exchange(c, reply)))
    {
      var answer: Reply := *;
      reply := if ReadableReply(answer) then answer else Broken;
      Record(Sent(Exchange(c, reply)));
    }

    method CloseUpstream()
      requires Witnessed()
      modifies this`upstream, this`history, this`view
      ensures Witnessed() && !upstream && view == old(view).(open := false)
    {
      if upstream {
        Record(Closed);
        upstream := false;
      }
    }

    method ResetTransaction()
      requires Witnessed() && view.judging.None? && view.delivery.Undelivered?
      modifies this`mailSet, this`sender, this`recipients, this`data, this`actions, this`replyCode, this`upstream,
               this`history, this`view
      ensures Witnessed() && NoTransaction()
      ensures view == old(view).(sender := None, rcpts := [], plan := None, open := false)
    {
      CloseUpstream();
      Record(Cleared);
      sender, recipients, data, mailSet, replyCode, actions := "", [], "", false, 0, [];
    }

    // Dial, greeting, EHLO, STARTTLS and AUTH: all or nothing.
    method ConnectUpstream(outcome: Option<Failure>) returns (failure: Option<Failure>)
      ensures failure == if cfg.upstreamConfigured then outcome else Some(NoStatus)
    {
      failure := if cfg.upstreamConfigured then outcome else Some(NoStatus);
    }

    method BeginUpstream() returns (failure: Option<Failure>)
      requires Witnessed() && !upstream && view.delivery.Undelivered?
      modifies this`upstream, this`history, this`view
      ensures Witnessed() && upstream == failure.None? && (upstream ==> cfg.upstreamConfigured)
      ensures view == old(view).(open := upstream, log := view.log, reopened := view.reopened, fault := view.fault)
      ensures upstream <==> view.fault.None? && view.log == [Exchange(Mail(sender), Code(250))]
      ensures upstream ==> view.reopened == view.plan.Some?
      ensures view.fault.None? ==> |view.log| == 1 && view.log[0].command == Mail(sender)
      ensures failure == AttemptFailure(view)
    {
      var outcome: Option<Failure> := *;
      failure := ConnectUpstream(outcome);
      if failure.Some? {
        Record(ConnectFailed(failure.value));
        return;
      }
      Record(Opened);
      upstream := true;
      var reply := SendCommand(Mail(sender));
      assert view.log[0] == Exchange(Mail(sender), reply);
      if reply != Code(250) {
        CloseUpstream();
        return Some(FailureOf(reply));
      }
    }

    // One RCPT of a transaction that is being addressed.
    method AskRecipient(address: string) returns (reply: Reply)
      requires Witnessed() && upstream && view.delivery.Undelivered? && Addressing(view.log, sender)
      modifies this`history, this`view
      ensures Witnessed() && ReadableReply(reply)
      ensures view == old(view).(log := old(view).log + [Exchange(Rcpt(address), reply)])
      ensures reply.Code? ==> Addressing(view.log, sender)
      ensures AcceptedRcpts(view.log) ==
              AcceptedRcpts(old(view).log) + if reply.Code? && RecipientAccepted(reply.code) then [address] else []
    {
      reply := SendRcpt(address);
      LogGrows(old(view).log, Exchange(Rcpt(address), reply));
    }

    method SendRcpt(address: string) returns (reply: Reply)
      requires Witnessed() && upstream && view.delivery.Undelivered? && Addressing(view.log, sender)
      modifies this`history, this`view
      ensures Witnessed() && ReadableReply(reply)
      ensures view == old(view).(log := old(view).log + [Exchange(Rcpt(address), reply)])
    {
      reply := SendCommand(Rcpt(address));
    }

    // The RCPT loop of a reopened transaction: one outcome for all recipients.
    method AddressRecipients() returns (failure: Option<Failure>)
      requires Witnessed() && upstream && view.delivery.Undelivered? && recipients != []
      requires view.log == [Exchange(Mail(sender), Code(250))]
      modifies this`upstream, this`history, this`view
      ensures Witnessed() && upstream == failure.None?
      ensures view == old(view).(open := upstream, log := view.log)
      ensures view.log != [] && view.log[|view.log| - 1].command.Rcpt?
      ensures failure == LoopFailure(view.log, recipients)
      ensures upstream ==> Addressed()
    {
      var accepted := 0;
      var rejection: Option<int> := None;
      var i := 0;
      LoopStart(sender);
      while i < |recipients|
        invariant i <= |recipients| && Witnessed() && upstream && view == old(view).(log := view.log)
        invariant Asking(i, accepted, rejection)
      {
        var reply;
        reply, accepted, rejection := AskNext(i, accepted, rejection);
        if reply.Broken? {
          CloseUpstream();
          return Some(NoStatus);
        }
        i := i + 1;
      }
      assert recipients[..|recipients|] == recipients;
      LoopEnd(view.log, sender, recipients, accepted, rejection);
      if rejection.Some? {
        CloseUpstream();
        failure := Some(Status(if accepted > 0 then 451 else rejection.value));
      } else {
        failure := None;
      }
    }

    // The first i recipients have been asked, with these results.
    ghost predicate Asking(i: nat, accepted: int, rejection: Option<int>)
      reads this
      requires i <= |recipients|
    {
      LoopSoFar(view.log, sender, recipients[..i], accepted, rejection)
    }

    // One turn of the loop.
    method AskNext(i: nat, accepted: int, rejection: Option<int>)
      returns (reply: Reply, accepted': int, rejection': Option<int>)
      requires Witnessed() && upstream && view.delivery.Undelivered?
      requires i < |recipients| && Asking(i, accepted, rejection)
      modifies this`history, this`view
      ensures Witnessed() && view == old(view).(log := old(view).log + [Exchange(Rcpt(recipients[i]), reply)])
      ensures reply.Code? ==> Asking(i + 1, accepted', rejection')
    {
      accepted', rejection' := accepted, rejection;
      reply := SendRcpt(recipients[i]);
      if reply.Broken? { return; }
      accepted', rejection' := Tally(reply.code, accepted, rejection);
      LoopStep(old(view).log, sender, recipients[..i], accepted, rejection, recipients[i], reply.code, view.log);
      OneMore(recipients, i);
    }

    static lemma OneMore(s: seq<string>, i: nat)
      requires i < |s|
      ensures s[..i + 1] == s[..i] + [s[i]]
    {
    }

    static method Tally(code: int, accepted: int, rejection: Option<int>)
      returns (accepted': int, rejection': Option<int>)
      ensures accepted' == accepted + if RecipientAccepted(code) then 1 else 0
      ensures rejection' == NextRejection(rejection, code)
    {
      accepted', rejection' := accepted, rejection;
      if RecipientAccepted(code) {
        accepted' := accepted + 1;
      } else if rejection.None? || rejection.value >= 500 || code < 500 {
        rejection' := Some(code);
      }
    }

    // The upstream has been asked about every recipient and has accepted them all.
    ghost predicate Addressed()
      reads this
    {
      && Addressing(view.log, sender) && AcceptedRcpts(view.log) == recipients && Asked(view.log) == recipients
      && LoopFailure(view.log, recipients).None?
    }

    // The planned message is in the fields, and an open transaction already has its envelope.
    ghost predicate Planned()
      reads this
    {
      && Witnessed() && mailSet && view.plan.Some? && view.delivery.Undelivered? && view.fault.None?
      && view.plan.value.recipients == recipients && view.plan.value.data == data && EnvelopeHeld()
    }

    // What a delivery changes that can be seen from outside.
    twostate predicate OnlyDelivered()
      reads this
    {
      view == old(view).(open := upstream, log := view.log, reopened := view.reopened, fault := view.fault,
                         delivery := view.delivery)
    }

    method ForwardToUpstream() returns (failure: Option<Failure>)
      requires Planned()
      modifies this`upstream, this`history, this`view
      ensures Witnessed() && OnlyDelivered()
      ensures view.delivery == if failure.None? then ByUpstream else Undelivered
      ensures failure.Some? ==> failure == ForwardFailure(view)
    {
      var ok := W.ValidateWireData(data);
      if !ok { return Some(Status(550)); }
      if !D.ValidEnvelope(sender, recipients) { return Some(NoStatus); }
      if !upstream {
        failure := Reopen();
        if failure.Some? { return; }
      }
      failure := SendMessage();
    }

    // A fresh transaction for the planned envelope.
    method Reopen() returns (failure: Option<Failure>)
      requires Witnessed() && !upstream && view.plan.Some? && view.delivery.Undelivered? && recipients != []
      requires view.plan.value.recipients == recipients
      modifies this`upstream, this`history, this`view
      ensures Witnessed() && upstream == failure.None?
      ensures view == old(view).(open := upstream, log := view.log, reopened := view.reopened, fault := view.fault)
      ensures upstream ==> Addressed() && view.fault.None?
      ensures failure.Some? ==> failure == AttemptFailure(view)
    {
      failure := BeginUpstream();
      if failure.Some? { return; }
      failure := AddressRecipients();
    }

    // DATA, the octets, and the final answer, in a transaction with the planned envelope.
    method SendMessage() returns (failure: Option<Failure>)
      requires Witnessed() && upstream && mailSet && view.plan.Some? && view.delivery.Undelivered? && view.fault.None?
      requires view.plan.value.recipients == recipients && view.plan.value.data == data
      requires Addressing(view.log, sender) && AcceptedRcpts(view.log) == recipients && (view.reopened ==> Addressed())
      modifies this`upstream, this`history, this`view
      ensures Witnessed() && !upstream
      ensures view == old(view).(open := false, log := view.log, delivery := view.delivery)
      ensures view.delivery == if failure.None? then ByUpstream else Undelivered
      ensures failure.Some? ==> failure == AttemptFailure(view)
    {
      var reply := SendCommand(Data);
      if reply != Code(354) {
        CloseUpstream();
        return Some(FailureOf(reply));
      }
      var octets := W.WriteMessage(data);
      var written: bool := *;
      if !written {
        CloseUpstream();
        return Some(NoStatus);
      }
      reply := SendCommand(Body(octets));
      CloseUpstream();
      failure := if reply == Code(250) then None else Some(FailureOf(reply));
    }

    // The delivery host's answer: an acknowledgement, a 4xx/5xx, or no usable answer.
    method HostDeliver() returns (failure: Option<Failure>)
      requires Planned() && cfg.hostAdapter
      modifies this`history, this`view
      ensures Witnessed() && view == old(view).(delivery := view.delivery, fault := view.fault)
      ensures view.delivery == if failure.None? then ByHost else Undelivered
      ensures failure == view.fault
    {
      var outcome: Option<Failure> := *;
      match outcome {
        case None =>
          Record(HostAck(recipients, data));
          failure := None;
        case Some(f) =>
          var usable := f.NoStatus? || 400 <= f.code <= 599;
          failure := Some(if usable then f else NoStatus);
          Record(HostFailed(failure.value));
      }
    }

    method Deliver() returns (failure: Option<Failure>)
      requires Witnessed() && mailSet && EnvelopeHeld() && view.rcpts == recipients
      requires view.delivery.Undelivered? && view.fault.None?
      requires view.plan == Some(Plan(actions, PlannedRecipients(cfg, actions, recipients), data))
      modifies this`recipients, this`upstream, this`history, this`view
      ensures Witnessed() && OnlyDelivered()
      ensures recipients == if RewriteRefused(cfg, view) then old(recipients) else view.plan.value.recipients
      ensures failure.None? <==> !view.delivery.Undelivered?
      ensures failure.Some? ==> failure == DeliveryFailure(cfg, view)
    {
      if cfg.hostAdapter {
        CloseUpstream();
        failure := HostDeliver();
        return;
      }
      var rewrite, targets := D.CollectTargets(actions, recipients);
      if rewrite {
        if !D.ValidEnvelope(sender, targets) { return Some(NoStatus); }
        recipients := D.DropDuplicates(targets);
        CloseUpstream();
      }
      failure := ForwardToUpstream();
    }

    // ---------------------------------------------------------- the client's commands

    method HandleHELO(parts: seq<string>) returns (reply: int)
      requires Idle() && forall p | p in parts :: p != ""
      modifies this
      ensures Idle() && HeloTaken(old(Now()), parts, Now(), reply)
    {
      if |parts| < 2 { return 501; }
      ResetTransaction();
      helo := parts[1];
      assert parts[1] in parts;
      reply := 250;
    }

    method HandleMAIL(path: Option<string>) returns (reply: int)
      requires Idle()
      modifies this
      ensures Idle() && MailTaken(cfg, old(Now()), path, Now(), reply)
    {
      if helo == "" { return 503; }
      if cfg.submission && !authenticated { return 530; }
      if mailSet { return 503; }
      if path.None? { return 501; }
      reply := StartTransaction(path.value);
    }

    method StartTransaction(address: string) returns (reply: int)
      requires Idle() && helo != "" && !mailSet && (cfg.submission ==> authenticated)
      modifies this
      ensures Idle() && Now() == old(Now()).(view := view) && Begun(cfg, old(view), address, view, reply)
    {
      ResetTransaction();
      sender := address;
      if cfg.upstreamConfigured {
        reply := StartUpstream();
      } else {
        AcknowledgeMail();
        reply := 250;
      }
    }

    // The sender is set, and the transaction not yet begun.
    ghost predicate Starting()
      reads this
    {
      && Witnessed() && helo != "" && (cfg.submission ==> authenticated)
      && !mailSet && recipients == [] && data == "" && actions == [] && replyCode == 0
      && (authenticated ==> tlsActive && cfg.submission) && (tlsActive ==> cfg.tlsAvailable)
      && view.rcpts == [] && view.judging.None? && view.plan.None? && view.delivery.Undelivered?
    }

    method StartUpstream() returns (reply: int)
      requires Starting() && !upstream && cfg.upstreamConfigured
      modifies this
      ensures Idle() && Now() == old(Now()).(view := view) && Begun(cfg, old(view), old(sender), view, reply)
    {
      var failure := BeginUpstream();
      if failure.None? {
        AcknowledgeMail();
        reply := 250;
      } else {
        ResetTransaction();
        reply := Reported(failure.value, 451);
      }
    }

    // The 250 to MAIL: the upstream, if there is one, has said so too.
    method AcknowledgeMail()
      requires Starting()
      requires upstream == cfg.upstreamConfigured
      requires upstream ==> view.log == [Exchange(Mail(sender), Code(250))] && !view.reopened
      modifies this`mailSet, this`history, this`view
      ensures Idle() && view == old(view).(sender := Some(sender), mailOks := old(view).mailOks + 1)
    {
      Record(MailOk(sender));
      mailSet := true;
    }

    method HandleRCPT(path: Option<string>) returns (reply: int)
      requires Idle()
      modifies this
      ensures Idle() && RcptTaken(cfg, old(Now()), path, Now(), reply)
    {
      if !mailSet { return 503; }
      if path.None? { return 501; }
      if |recipients| >= MAX_RECIPIENTS { return 452; }
      if upstream {
        reply := PassRcpt(path.value);
      } else {
        AddRecipient(path.value);
        reply := 250;
      }
    }

    // A recipient is added once the upstream, if there is one, has accepted it.
    method PassRcpt(address: string) returns (reply: int)
      requires Idle() && upstream && |recipients| < MAX_RECIPIENTS
      modifies this
      ensures Idle() && PassedOn(old(Now()), address, Now(), reply)
    {
      var answer := AskRecipient(address);
      reply := RcptReply(answer);
      if answer.Broken? {
        ResetTransaction();
      } else if RecipientAccepted(answer.code) {
        AddRecipient(address);
      }
      assert Now() == old(Now()).(view := AfterRcpt(old(view), address, answer));
    }

    method AddRecipient(address: string)
      requires Witnessed() && Consistent() && mailSet && |recipients| < MAX_RECIPIENTS
      requires view.rcpts == recipients && view.judging.None? && view.plan.None? && view.delivery.Undelivered?
      requires upstream ==>
        Addressing(view.log, sender) && AcceptedRcpts(view.log) == recipients + [address] && !view.reopened
      modifies this`recipients, this`history, this`view
      ensures Idle() && recipients == old(recipients) + [address]
      ensures view == old(view).(rcpts := recipients, rcptOks := old(view).rcptOks + 1)
    {
      Record(RcptOk(address));
      recipients := recipients + [address];
    }

    // The text a successful policy run leaves: stripped of client markers, edited, and marked
    // again when the message is quarantined.
    method EditMessage(policy: PolicyRun, quarantine: bool)
      requires WellFormedRun(policy) && policy.Ran? && W.Framed(data)
      modifies this`data
      ensures W.Framed(data) && data == EditedText(old(data), policy, quarantine)
    {
      H.ChangesKeepFraming(data, policy.removed, policy.names, policy.values);
      data := H.ApplyHeaderChanges(data, policy.removed, policy.names, policy.values);
      if quarantine {
        H.NewFieldFramed(H.MARKER, "true");
        W.FramedConcat(H.NewField(H.MARKER, "true"), data);
        data := H.NewField(H.MARKER, "true") + data;
      }
    }

    // The verdict on the actions: 250, or the refusal to report.
    method Decide(acts: seq<string>) returns (d: D.Decision)
      ensures d.code == Verdict(cfg, acts)
      ensures d.code == 250 <==>
        forall a :: a in acts ==> !D.EffectOf(a, TakesHeld(cfg)).Block? && (D.NeedsHost(a) ==> cfg.hostAdapter)
      ensures d.code == 250 ==> (d.quarantine <==> Held(cfg, acts))
    {
      VerdictMeaning(cfg, acts);
      d := D.PolicyDisposition(acts, cfg.forwardQuarantine || cfg.hostAdapter);
      var unsupported := D.Unsupported(acts);
      if d.code == 250 && unsupported && !cfg.hostAdapter {
        d := D.Decision(451, false);
      }
    }

    // What the policy makes of the message: a text to relay, or a refusal.
    method ProcessWithMailScript(policy: PolicyRun) returns (accepted: bool)
      requires WellFormedRun(policy) && W.Framed(data) && replyCode == 0
      modifies this`data, this`actions, this`replyCode
      ensures var m := Message(old(data), policy);
        && (accepted <==> Relays(cfg, m))
        && (accepted ==> actions == policy.actions && data == Outgoing(cfg, m))
        && (!accepted ==> 400 <= PolicyReply(cfg, policy) == (if replyCode == 0 then 550 else replyCode) <= 599)
    {
      H.MachineKeepsFraming(data, H.MARKER, false);
      data := H.StripHeader(data, H.MARKER);
      if policy.ParseFailure? { return false; }
      if policy.ScriptFailure? {
        replyCode := 451;
        return false;
      }
      actions := policy.actions;
      var d := Decide(actions);
      VerdictMeaning(cfg, actions);
      replyCode := d.code;
      EditMessage(policy, d.code == 250 && d.quarantine);
      accepted := d.code == 250;
    }

    // The policy has let the message through: deliver, and report what became of it.
    method RelayMessage() returns (reply: int)
      requires Witnessed() && mailSet && recipients != [] && EnvelopeHeld()
      requires view.judging.Some? && Relays(cfg, view.judging.value)
      requires actions == view.judging.value.run.actions && data == Outgoing(cfg, view.judging.value)
      requires view.rcpts == recipients && view.plan.None? && view.delivery.Undelivered?
      modifies this`recipients, this`upstream, this`history, this`view
      ensures Witnessed() && view.judging.None? && view.delivery.Undelivered? && view.received == old(view).received
      ensures view.told == old(view).told + [reply] && (reply == 250 || 400 <= reply <= 599)
      ensures view.mailOks == old(view).mailOks && view.rcptOks == old(view).rcptOks
      ensures view.accepted == old(view.accepted) + if reply == 250 then 1 else 0
    {
      Record(Decided);
      var failure := Deliver();
      if failure.Some? {
        reply := Reported(failure.value, 450);
        Record(Refused(reply));
      } else {
        Record(Accepted);
        reply := 250;
      }
    }

    // A message has been read: policy, then delivery, then the final reply.
    method HandleMessage(text: string, policy: PolicyRun) returns (reply: int)
      requires Idle() && mailSet && recipients != [] && WellFormedRun(policy) && W.Framed(text)
      modifies this
      ensures Witnessed() && view.judging.None? && view.delivery.Undelivered? && helo == old(helo)
      ensures tlsActive == old(tlsActive) && authenticated == old(authenticated)
      ensures view.received == old(view).received + [Message(text, policy)]
      ensures view.told == old(view).told + [reply] && (reply == 250 || 400 <= reply <= 599)
      ensures view.mailOks == old(view).mailOks && view.rcptOks == old(view).rcptOks
      ensures view.accepted == old(view.accepted) + if reply == 250 then 1 else 0
      ensures reply == 250 ==> Relays(cfg, Message(text, policy))
      ensures !Relays(cfg, Message(text, policy)) ==> reply == PolicyReply(cfg, policy)
    {
      TakeIn(text, policy);
      reply := JudgeMessage(policy);
    }

    method TakeIn(text: string, policy: PolicyRun)
      requires Idle() && mailSet && recipients != [] && WellFormedRun(policy) && W.Framed(text)
      modifies this`data, this`history, this`view
      ensures Witnessed() && data == text
      ensures var m := Message(text, policy);
        view == old(view).(judging := Some(m), received := old(view).received + [m])
    {
      Record(Received(Message(text, policy)));
      data := text;
    }

    // The message in `data` is under judgment.
    method JudgeMessage(policy: PolicyRun) returns (reply: int)
      requires Witnessed() && mailSet && recipients != [] && EnvelopeHeld() && replyCode == 0
      requires WellFormedRun(policy) && W.Framed(data) && view.judging == Some(Message(data, policy))
      requires view.rcpts == recipients && view.plan.None? && view.delivery.Undelivered?
      modifies this`data, this`actions, this`replyCode, this`recipients, this`upstream, this`history, this`view
      ensures Witnessed() && view.judging.None? && view.delivery.Undelivered? && view.received == old(view).received
      ensures view.told == old(view).told + [reply] && (reply == 250 || 400 <= reply <= 599)
      ensures view.mailOks == old(view).mailOks && view.rcptOks == old(view).rcptOks
      ensures view.accepted == old(view.accepted) + if reply == 250 then 1 else 0
      ensures reply == 250 ==> Relays(cfg, old(view).judging.value)
      ensures !Relays(cfg, old(view).judging.value) ==> reply == PolicyReply(cfg, policy)
    {
      var accepted := ProcessWithMailScript(policy);
      if !accepted {
        reply := if replyCode == 0 then 550 else replyCode;
        Record(Refused(reply));
        return;
      }
      reply := RelayMessage();
    }

    method HandleDATA(input: W.Received, policy: PolicyRun) returns (reply: Option<int>)
      requires Idle() && WellFormedRun(policy)
      requires input.Message? ==> W.Framed(input.data)
      modifies this
      ensures Idle() && DataTaken(cfg, old(Now()), input, policy, Now(), reply)
    {
      if !mailSet || |recipients| == 0 { return Some(503); }
      match input {
        case ReadError => reply := None;
        case BadFraming => reply := Some(550);
        case TooLarge => reply := Some(552);
        case Message(text) =>
          var code := HandleMessage(text, policy);
          reply := Some(code);
      }
      ResetTransaction();
    }

    method HandleRSET() returns (reply: int)
      requires Idle()
      modifies this
      ensures Idle() && reply == 250 && Now() == old(Now()).(view := Dropped(old(view)))
    {
      ResetTransaction();
      reply := 250;
    }

    method HandleSTARTTLS(handshake: bool) returns (reply: int)
      requires Idle()
      modifies this
      ensures Idle() && TlsTaken(cfg, old(Now()), handshake, Now(), reply)
    {
      if !cfg.tlsAvailable || tlsActive { return 454; }
      reply := 220;
      if !handshake { return; }
      ResetTransaction();
      helo, authenticated, tlsActive := "", false, true;
    }

    method HandleAUTH(parts: seq<string>, lineRead: bool, decoded: Option<string>, login: Option<Failure>)
      returns (reply: int)
      requires Idle()
      modifies this`authenticated
      ensures Idle() && AuthTaken(cfg, old(Now()), parts, lineRead, decoded, login, Now(), reply)
    {
      if !cfg.submission { return 502; }
      if !tlsActive { return 538; }
      if helo == "" || mailSet || authenticated { return 503; }
      if |parts| < 2 || |parts| > 3 || !EqualFold(parts[1], "PLAIN") { return 504; }
      if |parts| == 2 && !lineRead { return 334; }
      if !GoodCredentials(decoded) { return 501; }
      authenticated := true;
      var failure := ConnectUpstream(login);
      if failure.Some? {
        authenticated := false;
        return if failure.value == Status(535) then 535 else 454;
      }
      reply := 235;
    }

    // handleSMTPConnection: command lines until the client leaves. A closed socket does not stop
    // lines that are already buffered, so nothing here depends on the connection being open.
    method Run(turns: seq<Turn>) returns (accepted: nat, replies: seq<Option<int>>, ghost stages: seq<Stage>)
      requires Idle() && view.accepted == 0
      requires forall t | t in turns :: WellFormedRun(t.policy)
      modifies this
      ensures Justified(cfg, history) && view == Observe(cfg, history) && !upstream
      ensures accepted == Acceptances(history) == Deliveries(history) && |view.told| == |view.received|
      ensures Transcript(cfg, turns, stages, replies) && stages[0] == old(Now())
      ensures view == stages[|replies|].view.(open := false)
      ensures view.received == old(view).received + MessagesOf(turns, stages, |replies|)
      ensures MailEvents(history) == MailEvents(old(history)) + Granted(MAIL, turns, replies)
      ensures RcptEvents(history) == RcptEvents(old(history)) + Granted(RCPT, turns, replies)
    {
      accepted, replies, stages := TakeTurns(turns);
      CloseUpstream();
      AcceptancesAreDeliveries(cfg, history);
      EveryMessageAnswered(cfg, history);
      MessagesRead(cfg, turns, stages, replies, |replies|);
      PromisesAreReplies(cfg, turns, stages, replies, old(history), history);
    }

    method TakeTurns(turns: seq<Turn>) returns (accepted: nat, replies: seq<Option<int>>, ghost stages: seq<Stage>)
      requires Idle() && view.accepted == 0
      requires forall t | t in turns :: WellFormedRun(t.policy)
      modifies this
      ensures Idle() && view.accepted == accepted
      ensures Transcript(cfg, turns, stages, replies) && stages[0] == old(Now()) && stages[|replies|] == Now()
    {
      accepted, replies, stages := 0, [], [Now()];
      var quit := false;
      while |replies| < |turns| && !quit
        invariant Idle() && view.accepted == accepted && Opening(cfg, turns, stages, replies)
        invariant quit <==> replies != [] && SaysGoodbye(replies[|replies| - 1])
        invariant stages[0] == old(Now()) && stages[|replies|] == Now()
        decreases |turns| - |replies|
      {
        var t := turns[|replies|];
        assert t in turns;
        var reply, took;
        reply, took, quit := TakeTurn(t);
        OneMoreTurn(cfg, turns, stages, replies, Now(), reply);
        if took { accepted := accepted + 1; }
        replies, stages := replies + [reply], stages + [Now()];
      }
    }

    // A command line, obeyed; `took` when it brought a message that was accepted.
    method TakeTurn(t: Turn) returns (reply: Option<int>, took: bool, quit: bool)
      requires Idle() && WellFormedRun(t.policy)
      modifies this
      ensures Idle() && Turned(cfg, old(Now()), t, Now(), reply) && (quit <==> SaysGoodbye(reply))
      ensures view.accepted == old(view.accepted) + if took then 1 else 0
    {
      reply, took := TakeLine(t);
      GoodbyeIsQuit(cfg, old(Now()), t, Now(), reply);
      quit := Order(t) == QUIT;
    }

    method TakeLine(t: Turn) returns (reply: Option<int>, took: bool)
      requires Idle() && WellFormedRun(t.policy)
      modifies this
      ensures Idle() && Turned(cfg, old(Now()), t, Now(), reply)
      ensures view.accepted == old(view.accepted) + if took then 1 else 0
    {
      var words := Fields(TrimSpace(t.line));
      took := false;
      if VerbOf(words) == DATA {
        reply := ReceiveMessage(t.more, t.policy);
        took := reply == Some(250);
      } else if VerbOf(words) == Nothing {
        reply := None;
      } else {
        FieldsAreTokens(TrimSpace(t.line), BLANKS);
        var code := Obey(t, words);
        reply := Some(code);
      }
    }

    method Obey(t: Turn, words: seq<string>) returns (reply: int)
      requires Idle() && words == Words(t) && (forall w | w in words :: w != "")
      requires Order(t) != DATA && Order(t) != Nothing
      modifies this
      ensures Idle() && Obeyed(cfg, old(Now()), t, Now(), reply) && view.accepted == old(view.accepted)
    {
      match VerbOf(words)
      case AUTH => reply := HandleAUTH(words, t.lineRead, t.decoded, t.login);
      case HELO => reply := HandleHELO(words);
      case MAIL => reply := HandleMAIL(t.path);
      case RCPT => reply := HandleRCPT(t.path);
      case RSET => reply := HandleRSET();
      case STARTTLS => reply := HandleSTARTTLS(t.handshake);
      case NOOP => reply := 250;
      case QUIT => reply := 221;
      case _ => reply := 500;
    }

    // DATA, read from the octets the client sends after the command.
    method ReceiveMessage(more: string, policy: PolicyRun) returns (reply: Option<int>)
      requires Idle() && WellFormedRun(policy)
      modifies this
      ensures Idle() && DataTaken(cfg, old(Now()), W.Receive(more, "").0, policy, Now(), reply)
      ensures view.accepted == old(view.accepted) + if reply == Some(250) then 1 else 0
    {
      var reader := new W.Reader(more);
      var input := reader.ReadData();
      W.ReceivedIsFramed(more);
      assert more[0..] == more;
      reply := HandleDATA(input, policy);
    }
  }
}
