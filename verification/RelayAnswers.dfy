/** What a client is told for MAIL, RCPT and its messages, code by code: nothing is promised that
    the upstream has not promised, and its refusals are passed on as they are. */
module RelayAnswers {
  import opened Text
  import opened RelayReplies
  import opened RelayMonitor
  import opened RelayTurns
  import TextRules
  import W = SmtpWire
  import D = Disposition

  // The code a client sees for an upstream answer that was no success.
  predicate PassedOnAs(answer: Reply, told: int, fallback: int) {
    match answer
    case Broken => told == fallback
    case Code(c) => told == if 400 <= c <= 599 then c else fallback
  }

  /** A RCPT is answered 250 exactly when its recipient joins the transaction. Passed on, it is one
      exchange, and the reply is 250 exactly for 250, 251 and 252, the upstream's own 4xx or 5xx,
      and 451 for anything else; the transaction is lost exactly when the connection broke. */
  lemma RcptAnswered(cfg: Config, turns: seq<Turn>, stages: seq<Stage>, replies: seq<Option<int>>, i: nat)
    requires Transcript(cfg, turns, stages, replies) && i < |replies| && Order(turns[i]) == RCPT
    ensures var v, v', path := stages[i].view, stages[i + 1].view, turns[i].path;
      && replies[i].Some?
      && (replies[i] == Some(250) <==> path.Some? && v'.rcpts == v.rcpts + [path.value])
      && (v.sender.None? ==> replies[i] == Some(503))
      && (v.sender.Some? && path.None? ==> replies[i] == Some(501))
      && (v.sender.Some? && path.Some? && |v.rcpts| >= 100 ==> replies[i] == Some(452))
      && (v.sender.Some? && path.Some? && |v.rcpts| < 100 ==>
            if cfg.upstreamConfigured then AskedUpstream(v, path.value, v', replies[i].value)
            else replies[i] == Some(250))
  {
    RcptTurn(cfg, stages[i], turns[i].path, stages[i + 1], replies[i].value);
  }

  // One RCPT exchange has been added, and the reply is what its answer calls for.
  ghost predicate AskedUpstream(v: View, address: string, v': View, told: int) {
    && |v'.log| == |v.log| + 1 && v'.log[..|v.log|] == v.log && v'.log[|v.log|].command == Rcpt(address)
    && var answer := v'.log[|v.log|].reply;
    && (told == 250 <==> answer == Code(250) || answer == Code(251) || answer == Code(252))
    && (told != 250 ==> PassedOnAs(answer, told, 451))
    && (v'.sender.None? <==> answer.Broken?)
  }

  lemma RcptTurn(cfg: Config, s: Stage, path: Option<string>, s': Stage, reply: int)
    requires RcptTaken(cfg, s, path, s', reply)
    ensures var v, v' := s.view, s'.view;
      && (reply == 250 <==> path.Some? && v'.rcpts == v.rcpts + [path.value])
      && (v.sender.None? ==> reply == 503) && (v.sender.Some? && path.None? ==> reply == 501)
      && (v.sender.Some? && path.Some? && |v.rcpts| >= 100 ==> reply == 452)
      && (v.sender.Some? && path.Some? && |v.rcpts| < 100 ==>
            if cfg.upstreamConfigured then AskedUpstream(v, path.value, v', reply) else reply == 250)
    ensures s'.view.rcptOks == s.view.rcptOks + (if reply == 250 then 1 else 0)
    ensures s'.view.mailOks == s.view.mailOks
  {
    var v, v' := s.view, s'.view;
    assert path.Some? ==> |v.rcpts + [path.value]| == |v.rcpts| + 1;
    if v.sender.Some? && path.Some? && |v.rcpts| < MAX_RECIPIENTS && cfg.upstreamConfigured {
      var answer :| ReadableReply(answer) && reply == RcptReply(answer) &&
        s' == s.(view := AfterRcpt(s.view, path.value, answer));
      assert v'.log == v.log + [Exchange(Rcpt(path.value), answer)];
    }
  }

  /** A MAIL is answered 250 exactly when it starts the transaction; with an upstream, exactly when
      the upstream said 250 to the same sender. Its own 4xx or 5xx is passed on, as is that of a
      connection that failed, and 451 stands for anything else. */
  lemma MailAnswered(cfg: Config, turns: seq<Turn>, stages: seq<Stage>, replies: seq<Option<int>>, i: nat)
    requires Transcript(cfg, turns, stages, replies) && i < |replies| && Order(turns[i]) == MAIL
    ensures var s, v, v', path := stages[i], stages[i].view, stages[i + 1].view, turns[i].path;
      && replies[i].Some?
      && (replies[i] == Some(250) <==> path.Some? && v.sender.None? && v'.sender == path)
      && (MayMail(cfg, s) && path.Some? ==>
            if cfg.upstreamConfigured then TriedUpstream(v', path.value, replies[i].value) else replies[i] == Some(250))
      && (!MayMail(cfg, s) ==> replies[i] == Some(503) || replies[i] == Some(530))
      && (MayMail(cfg, s) && path.None? ==> replies[i] == Some(501))
  {
    MailTurn(cfg, stages[i], turns[i].path, stages[i + 1], replies[i].value);
  }

  predicate MayMail(cfg: Config, s: Stage) {
    s.helo != "" && (cfg.submission ==> s.authenticated) && s.view.sender.None?
  }

  // The outcome of a MAIL that went upstream, and the reply to it.
  ghost predicate TriedUpstream(v: View, address: string, told: int) {
    match v.fault
    case Some(Status(c)) => told == if 400 <= c <= 599 then c else 451
    case Some(NoStatus) => told == 451
    case None =>
      && |v.log| == 1 && v.log[0].command == Mail(address)
      && (told == 250 <==> v.log[0].reply == Code(250))
      && (told != 250 ==> PassedOnAs(v.log[0].reply, told, 451))
  }

  lemma MailTurn(cfg: Config, s: Stage, path: Option<string>, s': Stage, reply: int)
    requires MailTaken(cfg, s, path, s', reply)
    ensures var v, v' := s.view, s'.view;
      && (reply == 250 <==> path.Some? && v.sender.None? && v'.sender == path)
      && (MayMail(cfg, s) && path.Some? ==>
            if cfg.upstreamConfigured then TriedUpstream(v', path.value, reply) else reply == 250)
      && (!MayMail(cfg, s) ==> reply == 503 || reply == 530)
      && (MayMail(cfg, s) && path.None? ==> reply == 501)
    ensures s'.view.mailOks == s.view.mailOks + (if reply == 250 then 1 else 0)
    ensures s'.view.rcptOks == s.view.rcptOks
  {
    if MayMail(cfg, s) && path.Some? && cfg.upstreamConfigured {
      var v := s'.view;
      assert v.fault.None? ==>
        AttemptFailure(v) == if v.log[0].reply == Code(250) then None else Some(FailureOf(v.log[0].reply));
    }
  }

  // ------------------------------------------------------------------- the counts

  function Grant(verb: Verb, t: Turn, reply: Option<int>): nat {
    if Order(t) == verb && reply == Some(250) then 1 else 0
  }

  function Grants(verb: Verb, turns: seq<Turn>, replies: seq<Option<int>>): (r: seq<nat>)
    requires |replies| <= |turns|
    ensures |r| == |replies|
  {
    seq(|replies|, i requires 0 <= i < |replies| => Grant(verb, turns[i], replies[i]))
  }

  function Sum(s: seq<nat>): nat {
    if s == [] then 0 else Sum(s[..|s| - 1]) + s[|s| - 1]
  }

  // How many turns with this verb were answered 250.
  function Granted(verb: Verb, turns: seq<Turn>, replies: seq<Option<int>>): nat
    requires |replies| <= |turns|
  {
    Sum(Grants(verb, turns, replies))
  }

  function MailEvents(history: seq<Event>): nat {
    if history == [] then 0
    else MailEvents(history[..|history| - 1]) + if history[|history| - 1].MailOk? then 1 else 0
  }

  function RcptEvents(history: seq<Event>): nat {
    if history == [] then 0
    else RcptEvents(history[..|history| - 1]) + if history[|history| - 1].RcptOk? then 1 else 0
  }

  lemma {:induction false} EventsCounted(cfg: Config, history: seq<Event>)
    ensures Observe(cfg, history).mailOks == MailEvents(history)
    ensures Observe(cfg, history).rcptOks == RcptEvents(history)
  {
    if history != [] { EventsCounted(cfg, history[..|history| - 1]); }
  }

  lemma TurnCounts(cfg: Config, s: Stage, t: Turn, s': Stage, reply: Option<int>)
    requires Turned(cfg, s, t, s', reply)
    ensures s'.view.mailOks == s.view.mailOks + Grant(MAIL, t, reply)
    ensures s'.view.rcptOks == s.view.rcptOks + Grant(RCPT, t, reply)
  {
    match Order(t)
    case MAIL => MailTurn(cfg, s, t.path, s', reply.value);
    case RCPT => RcptTurn(cfg, s, t.path, s', reply.value);
    case _ =>
  }

  lemma {:induction false} SumSteps(counts: seq<int>, steps: seq<nat>)
    requires |counts| == |steps| + 1 && forall i :: 0 <= i < |steps| ==> counts[i + 1] == counts[i] + steps[i]
    ensures counts[|steps|] == counts[0] + Sum(steps)
  {
    var n := |steps|;
    if n > 0 { SumSteps(counts[..n], steps[..n - 1]); }
  }

  lemma MailsAddUp(cfg: Config, turns: seq<Turn>, stages: seq<Stage>, replies: seq<Option<int>>)
    requires Transcript(cfg, turns, stages, replies)
    ensures stages[|replies|].view.mailOks == stages[0].view.mailOks + Granted(MAIL, turns, replies)
  {
    var n, steps := |stages|, Grants(MAIL, turns, replies);
    var counts: seq<int> := seq(n, i requires 0 <= i < n => stages[i].view.mailOks);
    forall i | 0 <= i < |replies| ensures counts[i + 1] == counts[i] + steps[i] {
      TurnCounts(cfg, stages[i], turns[i], stages[i + 1], replies[i]);
    }
    SumSteps(counts, steps);
  }

  lemma RcptsAddUp(cfg: Config, turns: seq<Turn>, stages: seq<Stage>, replies: seq<Option<int>>)
    requires Transcript(cfg, turns, stages, replies)
    ensures stages[|replies|].view.rcptOks == stages[0].view.rcptOks + Granted(RCPT, turns, replies)
  {
    var n, steps := |stages|, Grants(RCPT, turns, replies);
    var counts: seq<int> := seq(n, i requires 0 <= i < n => stages[i].view.rcptOks);
    forall i | 0 <= i < |replies| ensures counts[i + 1] == counts[i] + steps[i] {
      TurnCounts(cfg, stages[i], turns[i], stages[i + 1], replies[i]);
    }
    SumSteps(counts, steps);
  }

  /** The 250s a session gives to MAIL and RCPT are, in number, exactly the promises in its history,
      each of which the upstream had made first. */
  lemma PromisesAreReplies(cfg: Config, turns: seq<Turn>, stages: seq<Stage>, replies: seq<Option<int>>,
                           before: seq<Event>, after: seq<Event>)
    requires Transcript(cfg, turns, stages, replies)
    requires var v, w := Observe(cfg, before), Observe(cfg, after);
      && v.mailOks == stages[0].view.mailOks && v.rcptOks == stages[0].view.rcptOks
      && w.mailOks == stages[|replies|].view.mailOks && w.rcptOks == stages[|replies|].view.rcptOks
    ensures MailEvents(after) == MailEvents(before) + Granted(MAIL, turns, replies)
    ensures RcptEvents(after) == RcptEvents(before) + Granted(RCPT, turns, replies)
  {
    MailsAddUp(cfg, turns, stages, replies);
    RcptsAddUp(cfg, turns, stages, replies);
    EventsCounted(cfg, before);
    EventsCounted(cfg, after);
  }

  // ------------------------------------------------------------ refused messages

  // The message went to the upstream, and neither it nor its envelope stood in the way.
  ghost predicate Tried(cfg: Config, v: View) {
    && v.sender.Some? && v.plan.Some? && !cfg.hostAdapter && !RewriteRefused(cfg, v)
    && W.Sendable(v.plan.value.data) && D.ValidEnvelope(v.sender.value, v.plan.value.recipients)
  }

  /** When the upstream fails a message at MAIL, at DATA or after its octets, the client is told the
      upstream's own 4xx or 5xx, and 450 for any other answer and for a broken connection. */
  lemma FailureIsPassedOn(cfg: Config, history: seq<Event>, i: nat)
    requires Justified(cfg, history) && i < |history| && history[i].Refused?
    requires var v := Observe(cfg, history[..i]);
      Tried(cfg, v) && v.fault.None? && v.log != [] && !v.log[|v.log| - 1].command.Rcpt?
    ensures var v := Observe(cfg, history[..i]); PassedOnAs(v.log[|v.log| - 1].reply, history[i].code, 450)
  {
    JustifiedAt(cfg, history, i);
    LogIsPassedOn(cfg, Observe(cfg, history[..i]), history[i].code);
  }

  lemma LogIsPassedOn(cfg: Config, v: View, code: int)
    requires Tried(cfg, v) && v.fault.None? && v.log != [] && !v.log[|v.log| - 1].command.Rcpt?
    requires RefusalDue(cfg, v, code)
    ensures PassedOnAs(v.log[|v.log| - 1].reply, code, 450)
  {
    assert DeliveryFailure(cfg, v) == LogFailure(v.log, v.reopened, v.plan.value.recipients);
  }

  /** So it is with a connection that did not come about, and with a delivery host that refuses. */
  lemma FaultIsPassedOn(cfg: Config, history: seq<Event>, i: nat)
    requires Justified(cfg, history) && i < |history| && history[i].Refused?
    requires var v := Observe(cfg, history[..i]);
      v.sender.Some? && v.plan.Some? && v.fault.Some? && (cfg.hostAdapter || Tried(cfg, v))
    ensures var f := Observe(cfg, history[..i]).fault.value;
      history[i].code == if f.Status? && 400 <= f.code <= 599 then f.code else 450
  {
    JustifiedAt(cfg, history, i);
  }

  /** A message that cannot be sent on is refused with 550, an envelope that cannot with 450, and
      neither reaches the upstream as a command. */
  lemma UnsendableIsRefused(cfg: Config, history: seq<Event>, i: nat)
    requires Justified(cfg, history) && i < |history| && history[i].Refused? && !cfg.hostAdapter
    requires var v := Observe(cfg, history[..i]); v.sender.Some? && v.plan.Some? && !Tried(cfg, v)
    ensures var v := Observe(cfg, history[..i]);
      history[i].code == if !RewriteRefused(cfg, v) && !W.Sendable(v.plan.value.data) then 550 else 450
  {
    JustifiedAt(cfg, history, i);
  }

  /** A message its policy does not let through gets 550 when the message cannot be parsed and 451
      when a script fails; otherwise the code of the actions. */
  lemma PolicyRefusal(cfg: Config, history: seq<Event>, i: nat)
    requires Justified(cfg, history) && i < |history| && history[i].Refused?
    requires Observe(cfg, history[..i]).plan.None?
    ensures var v := Observe(cfg, history[..i]);
      && v.judging.Some?
      && var run := v.judging.value.run;
      && (run.ParseFailure? ==> history[i].code == 550) && (run.ScriptFailure? ==> history[i].code == 451)
      && (run.Ran? ==> history[i].code == Verdict(cfg, run.actions) && history[i].code != 250)
  {
    JustifiedAt(cfg, history, i);
  }

  // -------------------------------------------------------------- reading commands

  /** A command is known by its first word, in any letter case. */
  lemma CommandWords(t: Turn)
    requires Words(t) != []
    ensures var word := Words(t)[0];
      && (Order(t) == AUTH <==> EqualFold(word, "AUTH")) && (Order(t) == MAIL <==> EqualFold(word, "MAIL"))
      && (Order(t) == RCPT <==> EqualFold(word, "RCPT")) && (Order(t) == DATA <==> EqualFold(word, "DATA"))
      && (Order(t) == RSET <==> EqualFold(word, "RSET")) && (Order(t) == NOOP <==> EqualFold(word, "NOOP"))
      && (Order(t) == QUIT <==> EqualFold(word, "QUIT")) && (Order(t) == STARTTLS <==> EqualFold(word, "STARTTLS"))
      && (Order(t) == HELO <==> EqualFold(word, "HELO") || EqualFold(word, "EHLO"))
  {
    LowerVerbs();
    OrderOf(t, Lower(Words(t)[0]));
  }

  lemma OrderOf(t: Turn, word: string)
    requires Words(t) != [] && word == Lower(Words(t)[0])
    ensures (Order(t) == AUTH <==> word == "auth") && (Order(t) == MAIL <==> word == "mail")
    ensures (Order(t) == RCPT <==> word == "rcpt") && (Order(t) == DATA <==> word == "data")
    ensures (Order(t) == RSET <==> word == "rset") && (Order(t) == NOOP <==> word == "noop")
    ensures (Order(t) == QUIT <==> word == "quit") && (Order(t) == STARTTLS <==> word == "starttls")
    ensures Order(t) == HELO <==> word == "helo" || word == "ehlo"
  {
  }

  lemma LowerVerbs()
    ensures Lower("AUTH") == "auth" && Lower("HELO") == "helo" && Lower("EHLO") == "ehlo" && Lower("MAIL") == "mail"
    ensures Lower("RCPT") == "rcpt" && Lower("DATA") == "data" && Lower("RSET") == "rset" && Lower("NOOP") == "noop"
    ensures Lower("QUIT") == "quit" && Lower("STARTTLS") == "starttls"
  {
  }

  // The message of AUTH PLAIN, section 2 of RFC 4616.
  predicate PlainMessage(s: string, authzid: string, user: string, password: string) {
    && s == authzid + "\0" + user + "\0" + password
    && '\0' !in authzid && '\0' !in user && '\0' !in password
    && user != "" && password != "" && (authzid == "" || authzid == user)
  }

  /** Credentials are good exactly when they are a user and a password, for the user alone. */
  lemma CredentialsExactly(decoded: Option<string>)
    ensures GoodCredentials(decoded) <==>
      decoded.Some? && exists authzid, user, password :: PlainMessage(decoded.value, authzid, user, password)
  {
    if GoodCredentials(decoded) {
      TextRules.JoinOfSplit(decoded.value, '\0');
      var f := Split(decoded.value, '\0');
      JoinThree(f[0], f[1], f[2]);
      assert f == [f[0], f[1], f[2]];
      assert PlainMessage(decoded.value, f[0], f[1], f[2]);
    } else if decoded.Some? {
      forall a, u, p | PlainMessage(decoded.value, a, u, p) ensures false {
        JoinThree(a, u, p);
        TextRules.SplitOfJoin([a, u, p], '\0');
      }
    }
  }

  lemma JoinThree(a: string, b: string, c: string)
    ensures Join([a, b, c], "\0") == a + "\0" + b + "\0" + c
  {
    assert Join([b, c], "\0") == b + "\0" + c;
  }
}
