/** What each command does to a client session (cmd/mailscript/proxy.go 339-637, 838-876;
    submission.go), and what follows over a whole one. RelaySession takes exactly these steps. */
module RelayTurns {
  import opened Text
  import opened RelayReplies
  import opened RelayMonitor
  import W = SmtpWire

  const MAX_RECIPIENTS := 100

  // One command line, and whatever the world answers while it is handled: the octets behind it,
  // the parsed path, the policy run, the TLS handshake, the AUTH response, the upstream login.
  datatype Turn = Turn(line: string, more: string, path: Option<string>, policy: PolicyRun, handshake: bool,
                       lineRead: bool, decoded: Option<string>, login: Option<Failure>)

  // A session between two commands; its transaction is the one the observer sees.
  datatype Stage = Stage(helo: string, tlsActive: bool, authenticated: bool, view: View)

  function Words(t: Turn): seq<string> {
    Fields(TrimSpace(t.line))
  }

  datatype Verb = AUTH | HELO | MAIL | RCPT | DATA | RSET | NOOP | QUIT | STARTTLS | Unknown | Nothing

  // EHLO is answered like HELO, but for the list of extensions.
  function VerbOf(words: seq<string>): Verb {
    if words == [] then Nothing
    else
      var verb := Lower(words[0]);
      if verb == "auth" then AUTH
      else if verb == "helo" || verb == "ehlo" then HELO
      else if verb == "mail" then MAIL
      else if verb == "rcpt" then RCPT
      else if verb == "data" then DATA
      else if verb == "rset" then RSET
      else if verb == "noop" then NOOP
      else if verb == "quit" then QUIT
      else if verb == "starttls" then STARTTLS
      else Unknown
  }

  function Order(t: Turn): Verb {
    VerbOf(Words(t))
  }

  // No transaction any more, on either side.
  function Dropped(v: View): View {
    v.(sender := None, rcpts := [], open := false)
  }

  // ------------------------------------------------------------------- the commands

  predicate HeloTaken(s: Stage, words: seq<string>, s': Stage, reply: int) {
    if |words| < 2 then reply == 501 && s' == s
    else reply == 250 && s' == s.(helo := words[1], view := Dropped(s.view))
  }

  ghost predicate MailTaken(cfg: Config, s: Stage, path: Option<string>, s': Stage, reply: int) {
    if s.helo == "" then reply == 503 && s' == s
    else if cfg.submission && !s.authenticated then reply == 530 && s' == s
    else if s.view.sender.Some? then reply == 503 && s' == s
    else if path.None? then reply == 501 && s' == s
    else s' == s.(view := s'.view) && Begun(cfg, s.view, path.value, s'.view, reply)
  }

  // A MAIL that was tried: 250 exactly when the upstream, if any, agreed; otherwise its own refusal.
  ghost predicate Begun(cfg: Config, v: View, address: string, v': View, reply: int) {
    && v' == v.(sender := if reply == 250 then Some(address) else None, rcpts := [],
                open := reply == 250 && cfg.upstreamConfigured,
                log := v'.log, reopened := v'.reopened, fault := v'.fault,
                mailOks := v.mailOks + if reply == 250 then 1 else 0)
    && if !cfg.upstreamConfigured then
         reply == 250 && v'.log == v.log && v'.reopened == v.reopened && v'.fault == v.fault
       else
         && (v'.fault.None? ==> |v'.log| == 1 && v'.log[0].command == Mail(address))
         && reply == if AttemptFailure(v').None? then 250 else Reported(AttemptFailure(v').value, 451)
  }

  // The reply to a RCPT that was passed on.
  function RcptReply(answer: Reply): int {
    if answer.Broken? then 451
    else if RecipientAccepted(answer.code) then 250
    else Reported(Status(answer.code), 451)
  }

  // The transaction goes with a broken connection, and with nothing else.
  function AfterRcpt(v: View, address: string, answer: Reply): View {
    var asked := v.(log := v.log + [Exchange(Rcpt(address), answer)]);
    if answer.Broken? then Dropped(asked)
    else if RecipientAccepted(answer.code) then asked.(rcpts := v.rcpts + [address], rcptOks := v.rcptOks + 1)
    else asked
  }

  ghost predicate RcptTaken(cfg: Config, s: Stage, path: Option<string>, s': Stage, reply: int) {
    if s.view.sender.None? then reply == 503 && s' == s
    else if path.None? then reply == 501 && s' == s
    else if |s.view.rcpts| >= MAX_RECIPIENTS then reply == 452 && s' == s
    else if !cfg.upstreamConfigured then
      reply == 250 &&
      s' == s.(view := s.view.(rcpts := s.view.rcpts + [path.value], rcptOks := s.view.rcptOks + 1))
    else PassedOn(s, path.value, s', reply)
  }

  ghost predicate PassedOn(s: Stage, address: string, s': Stage, reply: int) {
    exists answer :: ReadableReply(answer) && reply == RcptReply(answer) &&
      s' == s.(view := AfterRcpt(s.view, address, answer))
  }

  predicate InTransaction(v: View) {
    v.sender.Some? && v.rcpts != []
  }

  ghost predicate DataTaken(cfg: Config, s: Stage, input: W.Received, policy: PolicyRun, s': Stage,
                            reply: Option<int>) {
    if !InTransaction(s.view) then reply == Some(503) && s' == s
    else
      match input
      case ReadError => reply == None && s' == s.(view := Dropped(s.view))
      case BadFraming => reply == Some(550) && s' == s.(view := Dropped(s.view))
      case TooLarge => reply == Some(552) && s' == s.(view := Dropped(s.view))
      case Message(text) =>
        reply.Some? && s' == s.(view := s'.view) && Judged(cfg, s.view, Message(text, policy), s'.view, reply.value)
  }

  // A message has been read and answered, and the transaction is over.
  ghost predicate Judged(cfg: Config, v: View, m: Message, v': View, reply: int) {
    && v'.sender.None? && v'.rcpts == [] && !v'.open && v'.mailOks == v.mailOks && v'.rcptOks == v.rcptOks
    && v'.received == v.received + [m] && v'.told == v.told + [reply]
    && v'.accepted == v.accepted + (if reply == 250 then 1 else 0)
    && (reply == 250 || 400 <= reply <= 599) && (reply == 250 ==> Relays(cfg, m))
    && (!Relays(cfg, m) ==> reply == PolicyReply(cfg, m.run))
  }

  // Section 4.2 of RFC 3207: the session starts over once TLS is up.
  predicate TlsTaken(cfg: Config, s: Stage, handshake: bool, s': Stage, reply: int) {
    if !cfg.tlsAvailable || s.tlsActive then reply == 454 && s' == s
    else reply == 220 && s' == if handshake then Stage("", true, false, Dropped(s.view)) else s
  }

  predicate GoodCredentials(decoded: Option<string>) {
    decoded.Some? &&
    var fields := Split(decoded.value, '\0');
    |fields| == 3 && fields[1] != "" && fields[2] != "" && (fields[0] == "" || fields[0] == fields[1])
  }

  // `decoded` is the base64 response, from the command or from the next line; None if malformed.
  predicate AuthTaken(cfg: Config, s: Stage, words: seq<string>, lineRead: bool, decoded: Option<string>,
                      login: Option<Failure>, s': Stage, reply: int) {
    if !cfg.submission then reply == 502 && s' == s
    else if !s.tlsActive then reply == 538 && s' == s
    else if s.helo == "" || s.view.sender.Some? || s.authenticated then reply == 503 && s' == s
    else if |words| < 2 || |words| > 3 || !EqualFold(words[1], "PLAIN") then reply == 504 && s' == s
    else if |words| == 2 && !lineRead then reply == 334 && s' == s
    else if !GoodCredentials(decoded) then reply == 501 && s' == s
    else if cfg.upstreamConfigured && login.None? then reply == 235 && s' == s.(authenticated := true)
    else reply == (if cfg.upstreamConfigured && login == Some(Status(535)) then 535 else 454) && s' == s
  }

  /** One line of the client's, from reading it to answering it. */
  ghost predicate Turned(cfg: Config, s: Stage, t: Turn, s': Stage, reply: Option<int>) {
    match Order(t)
    case Nothing => reply == None && s' == s
    case DATA => DataTaken(cfg, s, W.Receive(t.more, "").0, t.policy, s', reply)
    case _ => reply.Some? && Obeyed(cfg, s, t, s', reply.value)
  }

  ghost predicate Obeyed(cfg: Config, s: Stage, t: Turn, s': Stage, reply: int) {
    match Order(t)
    case AUTH => AuthTaken(cfg, s, Words(t), t.lineRead, t.decoded, t.login, s', reply)
    case HELO => HeloTaken(s, Words(t), s', reply)
    case MAIL => MailTaken(cfg, s, t.path, s', reply)
    case RCPT => RcptTaken(cfg, s, t.path, s', reply)
    case RSET => reply == 250 && s' == s.(view := Dropped(s.view))
    case STARTTLS => TlsTaken(cfg, s, t.handshake, s', reply)
    case NOOP => reply == 250 && s' == s
    case QUIT => reply == 221 && s' == s
    case _ => reply == 500 && s' == s
  }

  // -------------------------------------------------------------------- a session

  predicate SaysGoodbye(reply: Option<int>) {
    reply == Some(221)
  }

  /** A session is closed on QUIT and on nothing else. */
  lemma GoodbyeIsQuit(cfg: Config, s: Stage, t: Turn, s': Stage, reply: Option<int>)
    requires Turned(cfg, s, t, s', reply)
    ensures SaysGoodbye(reply) <==> Order(t) == QUIT
  {
  }

  // The first turns of a session, each taken from the stage the one before left.
  ghost predicate Opening(cfg: Config, turns: seq<Turn>, stages: seq<Stage>, replies: seq<Option<int>>) {
    && |stages| == |replies| + 1 && |replies| <= |turns|
    && (forall i :: 0 <= i < |replies| ==> Turned(cfg, stages[i], turns[i], stages[i + 1], replies[i]))
    && (forall i :: 0 <= i < |replies| - 1 ==> !SaysGoodbye(replies[i]))
  }

  // Another turn comes.
  predicate More(turns: seq<Turn>, replies: seq<Option<int>>) {
    |replies| < |turns| && (replies == [] || !SaysGoodbye(replies[|replies| - 1]))
  }

  /** A whole session: all turns, or those up to a QUIT. */
  ghost predicate Transcript(cfg: Config, turns: seq<Turn>, stages: seq<Stage>, replies: seq<Option<int>>) {
    Opening(cfg, turns, stages, replies) && !More(turns, replies)
  }

  lemma OneMoreTurn(cfg: Config, turns: seq<Turn>, stages: seq<Stage>, replies: seq<Option<int>>, s': Stage,
                    reply: Option<int>)
    requires Opening(cfg, turns, stages, replies) && More(turns, replies)
    requires Turned(cfg, stages[|replies|], turns[|replies|], s', reply)
    ensures Opening(cfg, turns, stages + [s'], replies + [reply])
  {
  }

  // The message a turn takes in, if any.
  function MessageOf(s: Stage, t: Turn): seq<Message> {
    if Order(t) == DATA then Taken(s, W.Receive(t.more, "").0, t.policy) else []
  }

  function Taken(s: Stage, input: W.Received, policy: PolicyRun): seq<Message> {
    if InTransaction(s.view) && input.Message? then [Message(input.data, policy)] else []
  }

  function MessagesOf(turns: seq<Turn>, stages: seq<Stage>, n: nat): seq<Message>
    requires n <= |turns| && n <= |stages|
  {
    if n == 0 then [] else MessagesOf(turns, stages, n - 1) + MessageOf(stages[n - 1], turns[n - 1])
  }

  lemma TurnReads(cfg: Config, s: Stage, t: Turn, s': Stage, reply: Option<int>)
    requires Turned(cfg, s, t, s', reply)
    ensures s'.view.received == s.view.received + MessageOf(s, t)
  {
    match Order(t)
    case Nothing =>
    case DATA => DataReads(cfg, s, W.Receive(t.more, "").0, t.policy, s', reply);
    case _ => CommandReads(cfg, s, t, s', reply.value);
  }

  lemma CommandReads(cfg: Config, s: Stage, t: Turn, s': Stage, reply: int)
    requires Obeyed(cfg, s, t, s', reply)
    ensures s'.view.received == s.view.received
  {
  }

  lemma DataReads(cfg: Config, s: Stage, input: W.Received, policy: PolicyRun, s': Stage, reply: Option<int>)
    requires DataTaken(cfg, s, input, policy, s', reply)
    ensures s'.view.received == s.view.received + Taken(s, input, policy)
  {
  }

  lemma {:induction false} MessagesAddUp(turns: seq<Turn>, stages: seq<Stage>, n: nat)
    requires n <= |turns| && n < |stages|
    requires forall i :: 0 <= i < n ==>
      stages[i + 1].view.received == stages[i].view.received + MessageOf(stages[i], turns[i])
    ensures stages[n].view.received == stages[0].view.received + MessagesOf(turns, stages, n)
  {
    if n > 0 { MessagesAddUp(turns, stages, n - 1); }
  }

  /** The messages judged in a session are those its DATA turns bring, in order, and no others. */
  lemma MessagesRead(cfg: Config, turns: seq<Turn>, stages: seq<Stage>, replies: seq<Option<int>>, n: nat)
    requires Transcript(cfg, turns, stages, replies) && n <= |replies|
    ensures stages[n].view.received == stages[0].view.received + MessagesOf(turns, stages, n)
  {
    forall i | 0 <= i < n
      ensures stages[i + 1].view.received == stages[i].view.received + MessageOf(stages[i], turns[i])
    {
      TurnReads(cfg, stages[i], turns[i], stages[i + 1], replies[i]);
    }
    MessagesAddUp(turns, stages, n);
  }

  // A login that succeeded, after a TLS handshake.
  predicate LogsIn(cfg: Config, s: Stage, t: Turn, reply: Option<int>) {
    && Order(t) == AUTH && reply == Some(235) && s.tlsActive && GoodCredentials(t.decoded)
    && cfg.upstreamConfigured && t.login.None?
  }

  ghost predicate Submits(cfg: Config, s: Stage) {
    cfg.submission && s.view.sender.Some? ==> s.authenticated
  }

  lemma TurnLogsIn(cfg: Config, s: Stage, t: Turn, s': Stage, reply: Option<int>)
    requires Turned(cfg, s, t, s', reply)
    ensures s'.authenticated && !s.authenticated ==> LogsIn(cfg, s, t, reply)
    ensures Submits(cfg, s) ==> Submits(cfg, s')
  {
  }

  lemma {:induction false} LoginSince(cfg: Config, turns: seq<Turn>, stages: seq<Stage>, replies: seq<Option<int>>,
                                      n: nat)
    requires n < |stages| && n <= |turns| && n <= |replies| && !stages[0].authenticated
    requires forall i :: 0 <= i < n ==>
      (stages[i + 1].authenticated && !stages[i].authenticated ==> LogsIn(cfg, stages[i], turns[i], replies[i]))
    ensures stages[n].authenticated ==>
      exists j :: 0 <= j < n && LogsIn(cfg, stages[j], turns[j], replies[j]) && StaysIn(stages, j + 1, n)
  {
    if n > 0 && stages[n].authenticated {
      LoginSince(cfg, turns, stages, replies, n - 1);
      var j := n - 1;
      if stages[n - 1].authenticated {
        j :| 0 <= j < n - 1 && LogsIn(cfg, stages[j], turns[j], replies[j]) && StaysIn(stages, j + 1, n - 1);
      }
      assert StaysIn(stages, j + 1, n);
    }
  }

  lemma {:induction false} SubmitsThroughout(cfg: Config, stages: seq<Stage>, n: nat)
    requires n < |stages| && Submits(cfg, stages[0])
    requires forall i :: 0 <= i < n ==> (Submits(cfg, stages[i]) ==> Submits(cfg, stages[i + 1]))
    ensures Submits(cfg, stages[n])
  {
    if n > 0 { SubmitsThroughout(cfg, stages, n - 1); }
  }

  predicate StaysIn(stages: seq<Stage>, a: nat, b: nat)
    requires b < |stages|
  {
    forall k :: a <= k <= b ==> stages[k].authenticated
  }

  /** In submission mode no message is read, let alone relayed, before the client has logged in
      under TLS with credentials the upstream took; and it has been logged in ever since. */
  lemma SubmittedMeansLoggedIn(cfg: Config, turns: seq<Turn>, stages: seq<Stage>, replies: seq<Option<int>>, i: nat)
    requires Transcript(cfg, turns, stages, replies) && i < |replies| && cfg.submission
    requires !stages[0].authenticated && stages[0].view.sender.None?
    requires MessageOf(stages[i], turns[i]) != []
    ensures exists j :: 0 <= j < i && LogsIn(cfg, stages[j], turns[j], replies[j]) && StaysIn(stages, j + 1, i)
  {
    forall k | 0 <= k < i
      ensures stages[k + 1].authenticated && !stages[k].authenticated ==> LogsIn(cfg, stages[k], turns[k], replies[k])
      ensures Submits(cfg, stages[k]) ==> Submits(cfg, stages[k + 1])
    {
      TurnLogsIn(cfg, stages[k], turns[k], stages[k + 1], replies[k]);
    }
    LoginSince(cfg, turns, stages, replies, i);
    SubmitsThroughout(cfg, stages, i);
  }
}
