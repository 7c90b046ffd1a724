/** What the gateway answers a client: the verdict of a policy run, the text it lets through, and
    the status of a failed delivery (cmd/mailscript/proxy.go 593-685, upstream.go 208-265). */
module RelayReplies {
  import opened Text
  import H = HeaderStrip
  import D = Disposition

  datatype Config = Config(
    upstreamConfigured: bool, tlsAvailable: bool, submission: bool, hostAdapter: bool, forwardQuarantine: bool)

  // --------------------------------------------------------------- the policy run

  // What a policy run may leave behind.
  datatype PolicyRun =
    | ParseFailure
    | ScriptFailure
    | Ran(actions: seq<string>, removed: seq<string>, names: seq<string>, values: map<string, string>)

  // A message as it was received, and the policy's run on it.
  datatype Message = Message(text: string, run: PolicyRun)

  // add_header lets a pair through only when it cannot break its own line.
  predicate WellFormedRun(p: PolicyRun) {
    p.Ran? ==> forall n | n in p.names :: n in p.values && H.SafePair(n, p.values[n])
  }

  function EditedText(text: string, policy: PolicyRun, quarantine: bool): string
    requires WellFormedRun(policy) && policy.Ran?
  {
    var edited := H.AddAll(H.StripAll(text, policy.removed), policy.names, policy.values);
    if quarantine then H.NewField(H.MARKER, "true") + edited else edited
  }

  // A held message may be passed on marked, when somebody behind the gateway files it.
  predicate TakesHeld(cfg: Config) {
    cfg.forwardQuarantine || cfg.hostAdapter
  }

  predicate Held(cfg: Config, actions: seq<string>) {
    exists a :: a in actions && D.EffectOf(a, TakesHeld(cfg)) == D.Hold
  }

  /** The reply code the actions call for; 250 lets the message through. */
  function Verdict(cfg: Config, actions: seq<string>): int {
    var code := D.FirstCode(actions, TakesHeld(cfg));
    if code == 250 && !cfg.hostAdapter && (exists a :: a in actions && D.NeedsHost(a)) then 451 else code
  }

  function PolicyReply(cfg: Config, run: PolicyRun): int {
    match run
    case ParseFailure => 550
    case ScriptFailure => 451
    case Ran(actions, _, _, _) => Verdict(cfg, actions)
  }

  predicate Relays(cfg: Config, m: Message) {
    m.run.Ran? && WellFormedRun(m.run) && PolicyReply(cfg, m.run) == 250
  }

  // The text sent on: client markers stripped, the policy's changes made, our own marker on top
  // exactly when the policy holds the message.
  function Outgoing(cfg: Config, m: Message): string
    requires m.run.Ran? && WellFormedRun(m.run)
  {
    EditedText(H.Strip(m.text, H.MARKER), m.run, Held(cfg, m.run.actions))
  }

  /** A message is let through exactly when its policy ran, no action blocks it, and every action
      that only a delivery host can carry out has one. */
  lemma VerdictMeaning(cfg: Config, actions: seq<string>)
    ensures Verdict(cfg, actions) == 250 <==>
      forall a :: a in actions ==> !D.EffectOf(a, TakesHeld(cfg)).Block? && (D.NeedsHost(a) ==> cfg.hostAdapter)
    ensures Verdict(cfg, actions) == 250 || 400 <= Verdict(cfg, actions) <= 599
  {
    D.FirstCodeMeaning(actions, TakesHeld(cfg));
  }

  // ------------------------------------------------------------- upstream failures

  // An upstream failure that carries a status, or one that does not.
  datatype Failure = Status(code: int) | NoStatus

  // The status a client sees for a failure; `fallback` when there is none to relay.
  function Reported(f: Failure, fallback: int): (code: int)
    ensures 400 <= fallback <= 599 ==> 400 <= code <= 599
    ensures f.Status? && 400 <= f.code <= 599 ==> code == f.code
  {
    if f.Status? && 400 <= f.code <= 599 then f.code else fallback
  }

  predicate RecipientAccepted(code: int) {
    code == 250 || code == 251 || code == 252
  }

  // The last refusal below 500, or else the last refusal.
  function NextRejection(before: Option<int>, code: int): Option<int> {
    if RecipientAccepted(code) then before
    else if before.None? || before.value >= 500 || code < 500 then Some(code)
    else before
  }

  // The rejection the loop ends with.
  function Rejection(codes: seq<int>): Option<int> {
    if codes == [] then None else NextRejection(Rejection(codes[..|codes| - 1]), codes[|codes| - 1])
  }

  function CountAccepted(codes: seq<int>): nat {
    if codes == [] then 0
    else CountAccepted(codes[..|codes| - 1]) + if RecipientAccepted(codes[|codes| - 1]) then 1 else 0
  }

  // One outcome for all recipients: the failure reported for these replies, if any.
  function RcptOutcome(codes: seq<int>): Option<Failure> {
    match Rejection(codes)
    case None => None
    case Some(code) => Some(Status(if CountAccepted(codes) > 0 then 451 else code))
  }

  lemma {:induction false} RejectionMeaning(codes: seq<int>)
    ensures Rejection(codes).None? <==> forall c | c in codes :: RecipientAccepted(c)
    ensures Rejection(codes).Some? ==> Rejection(codes).value in codes && !RecipientAccepted(Rejection(codes).value)
    ensures Rejection(codes).Some? && Rejection(codes).value >= 500 <==>
            (exists c | c in codes :: !RecipientAccepted(c)) &&
            forall c | c in codes :: RecipientAccepted(c) || c >= 500
    ensures CountAccepted(codes) > 0 <==> exists c | c in codes :: RecipientAccepted(c)
  {
    if codes != [] {
      var front, last := codes[..|codes| - 1], codes[|codes| - 1];
      RejectionMeaning(front);
      assert codes == front + [last];
    }
  }

  lemma CodesGrow(codes: seq<int>, code: int)
    ensures Rejection(codes + [code]) == NextRejection(Rejection(codes), code)
    ensures CountAccepted(codes + [code]) == CountAccepted(codes) + if RecipientAccepted(code) then 1 else 0
  {
    assert (codes + [code])[..|codes|] == codes;
  }

  /** A mixed outcome is always temporary; a permanent one means that the upstream refused every
      recipient permanently; and there is no failure only if it accepted them all. */
  lemma RcptOutcomeMeaning(codes: seq<int>)
    ensures RcptOutcome(codes).None? <==> forall c | c in codes :: c == 250 || c == 251 || c == 252
    ensures Mixed(codes) ==> RcptOutcome(codes) == Some(Status(451))
    ensures (RcptOutcome(codes).Some? && RcptOutcome(codes).value.code >= 500) <==>
            (codes != [] && forall c | c in codes :: c >= 500)
  {
    RejectionMeaning(codes);
    if codes != [] && forall c | c in codes :: c >= 500 {
      assert codes[0] in codes && !RecipientAccepted(codes[0]);
    }
  }

  // Some recipients accepted, some not.
  predicate Mixed(codes: seq<int>) {
    && (exists a :: a in codes && (a == 250 || a == 251 || a == 252))
    && exists b :: b in codes && b != 250 && b != 251 && b != 252
  }

  /** What the client sees of a recipient loop that failed. */
  lemma ReportedOutcome(codes: seq<int>)
    requires RcptOutcome(codes).Some? && forall c | c in codes :: 200 <= c <= 599
    ensures Reported(RcptOutcome(codes).value, 450) >= 500 <==> forall c | c in codes :: c >= 500
    ensures Mixed(codes) ==> Reported(RcptOutcome(codes).value, 450) == 451
  {
    RcptOutcomeMeaning(codes);
    RejectionMeaning(codes);
  }
}
