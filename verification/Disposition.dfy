/** What the actions of a policy run mean for delivery (cmd/mailscript/delivery.go
    policyDisposition and unsupportedDeliveryAction, upstream.go deliver). */
module Disposition {
  import opened Text
  import opened Numbers

  datatype Decision = Decision(code: int, quarantine: bool)

  // ------------------------------------------------------------- reading actions

  const SMTP_ERROR := "smtp_error:"

  // The code of an smtp_error action: the text between its first two colons.
  function ErrorCode(action: string): int
    requires HasPrefix(action, SMTP_ERROR)
  {
    var rest := action[|SMTP_ERROR|..];
    match Atoi(rest[..Find(rest, ':')])
    case None => 451
    case Some(n) => if 400 <= n <= 599 then n else 451
  }

  datatype Effect = Block(code: int) | Hold | Pass

  // What one action does on its own. A held message is refused unless a
  // trusted peer takes quarantined mail.
  function EffectOf(action: string, forwardQuarantine: bool): Effect {
    if action == "reject" || action == "bounce" || action == "drop" || action == "discard" then Block(550)
    else if action == "defer" then Block(451)
    else if HasPrefix(action, SMTP_ERROR) then Block(ErrorCode(action))
    else if action == "quarantine" || action == "fileinto:Spam" then
      if forwardQuarantine then Hold else Block(550)
    else Pass
  }

  // The code of the first blocking action; an accept cannot override it. 250 when none blocks.
  function FirstCode(actions: seq<string>, forwardQuarantine: bool): int {
    if actions == [] then 250
    else
      match EffectOf(actions[0], forwardQuarantine)
      case Block(code) => code
      case _ => FirstCode(actions[1..], forwardQuarantine)
  }

  lemma {:induction false} FirstCodeMeaning(actions: seq<string>, forwardQuarantine: bool)
    ensures FirstCode(actions, forwardQuarantine) == 250 <==>
            forall a :: a in actions ==> !EffectOf(a, forwardQuarantine).Block?
    ensures FirstCode(actions, forwardQuarantine) == 250 || 400 <= FirstCode(actions, forwardQuarantine) <= 599
  {
    if actions != [] {
      BlockCode(actions[0], forwardQuarantine);
      FirstCodeMeaning(actions[1..], forwardQuarantine);
    }
  }

  lemma {:induction false} FirstCodeIs(actions: seq<string>, forwardQuarantine: bool, i: nat)
    requires FirstBlock(actions, forwardQuarantine, i)
    ensures FirstCode(actions, forwardQuarantine) == EffectOf(actions[i], forwardQuarantine).code
  {
    if i > 0 {
      var rest := actions[1..];
      assert !EffectOf(actions[0], forwardQuarantine).Block?;
      assert forall k :: 0 <= k < i - 1 ==> rest[k] == actions[k + 1];
      FirstCodeIs(rest, forwardQuarantine, i - 1);
    }
  }

  method PolicyDisposition(actions: seq<string>, forwardQuarantine: bool) returns (d: Decision)
    ensures (exists i :: 0 <= i < |actions| && FirstBlock(actions, forwardQuarantine, i)) <==> d.code != 250
    ensures forall i :: 0 <= i < |actions| && FirstBlock(actions, forwardQuarantine, i) ==>
              d == Decision(EffectOf(actions[i], forwardQuarantine).code, false)
    ensures d.code == 250 ==> (d.quarantine <==> exists a :: a in actions && EffectOf(a, forwardQuarantine) == Hold)
    ensures d.code == FirstCode(actions, forwardQuarantine)
  {
    FirstCodeMeaning(actions, forwardQuarantine);
    d := Decision(250, false);
    for i := 0 to |actions|
      invariant d.code == 250
      invariant forall k :: 0 <= k < i ==> !EffectOf(actions[k], forwardQuarantine).Block?
      invariant d.quarantine <==> exists k :: 0 <= k < i && EffectOf(actions[k], forwardQuarantine) == Hold
    {
      match EffectOf(actions[i], forwardQuarantine)
      case Block(code) =>
        BlockCode(actions[i], forwardQuarantine);
        assert FirstBlock(actions, forwardQuarantine, i);
        FirstCodeIs(actions, forwardQuarantine, i);
        return Decision(code, false);
      case Hold =>
        d := d.(quarantine := true);
      case Pass =>
    }
  }

  // The first blocking action settles the reply; an accept cannot override it.
  predicate FirstBlock(actions: seq<string>, forwardQuarantine: bool, i: nat) {
    && i < |actions| && EffectOf(actions[i], forwardQuarantine).Block?
    && forall k :: 0 <= k < i ==> !EffectOf(actions[k], forwardQuarantine).Block?
  }

  lemma BlockCode(action: string, forwardQuarantine: bool)
    ensures var e := EffectOf(action, forwardQuarantine); e.Block? ==> 400 <= e.code <= 599
  {
  }

  // Actions only a delivery host can carry out.
  predicate NeedsHost(action: string) {
    || action == "add_to_digest"
    || (action != "fileinto:Spam" && exists p :: p in HOST_ACTIONS && HasPrefix(action, p))
  }

  const HOST_ACTIONS: seq<string> :=
    ["fileinto:", "auto_reply:", "force_second_pass:", "reply_with_smtp_dsn:", "set_dlp:", "skip_dlp:",
     "skip_malware_check:", "skip_spam_check:", "skip_whitelist_check:", "set_filter_rules:"]

  method Unsupported(actions: seq<string>) returns (r: bool)
    ensures r <==> exists a :: a in actions && NeedsHost(a)
  {
    for i := 0 to |actions|
      invariant forall k :: 0 <= k < i ==> !NeedsHost(actions[k])
    {
      if NeedsHost(actions[i]) { return true; }
    }
    return false;
  }

  // -------------------------------------------------------- envelope rewriting

  function Before(action: string): string {
    action[..Find(action, ':')]
  }

  function After(action: string): string {
    action[if Find(action, ':') < |action| then Find(action, ':') + 1 else |action|..]
  }

  predicate IsReplacement(action: string) {
    Find(action, ':') < |action| && (Before(action) == "redirect" || Before(action) == "divert_to")
  }

  predicate IsCopy(action: string) {
    Find(action, ':') < |action| && Before(action) == "screen_to"
  }

  function Replacements(actions: seq<string>): seq<string> {
    if actions == [] then []
    else (if IsReplacement(actions[0]) then [After(actions[0])] else []) + Replacements(actions[1..])
  }

  function Copies(actions: seq<string>): seq<string> {
    if actions == [] then []
    else (if IsCopy(actions[0]) then [After(actions[0])] else []) + Copies(actions[1..])
  }

  function Dedup(s: seq<string>): seq<string> {
    if s == [] then []
    else
      var front, last := s[..|s| - 1], s[|s| - 1];
      if last in front then Dedup(front) else Dedup(front) + [last]
  }

  // The envelope before duplicates are dropped.
  function Targets(actions: seq<string>, recipients: seq<string>): seq<string> {
    (if Replacements(actions) == [] then recipients else Replacements(actions)) + Copies(actions)
  }

  predicate Rewrites(actions: seq<string>) {
    Replacements(actions) != [] || Copies(actions) != []
  }

  // The recipients a relayed message goes to.
  function Rewritten(actions: seq<string>, recipients: seq<string>): seq<string> {
    if Rewrites(actions) then Dedup(Targets(actions, recipients)) else recipients
  }

  lemma {:induction false} DedupKeepsMembers(s: seq<string>)
    ensures forall x :: x in Dedup(s) <==> x in s
  {
    if s != [] {
      DedupKeepsMembers(s[..|s| - 1]);
      assert s == s[..|s| - 1] + [s[|s| - 1]];
    }
  }

  lemma {:induction false} DedupDistinct(s: seq<string>)
    ensures forall i, j :: 0 <= i < j < |Dedup(s)| ==> Dedup(s)[i] != Dedup(s)[j]
  {
    if s != [] {
      DedupDistinct(s[..|s| - 1]);
      DedupKeepsMembers(s[..|s| - 1]);
    }
  }

  method CollectTargets(actions: seq<string>, recipients: seq<string>) returns (rewrite: bool, targets: seq<string>)
    ensures rewrite == Rewrites(actions) && targets == Targets(actions, recipients)
  {
    var replacements, copies := [], [];
    for i := 0 to |actions|
      invariant Replacements(actions) == replacements + Replacements(actions[i..])
      invariant Copies(actions) == copies + Copies(actions[i..])
    {
      assert actions[i..][0] == actions[i] && actions[i..][1..] == actions[i + 1..];
      if IsReplacement(actions[i]) {
        replacements := replacements + [After(actions[i])];
      } else if IsCopy(actions[i]) {
        copies := copies + [After(actions[i])];
      }
    }
    assert replacements + [] == replacements && copies + [] == copies;
    rewrite := |replacements| > 0 || |copies| > 0;
    targets := (if |replacements| > 0 then replacements else recipients) + copies;
  }

  method DropDuplicates(targets: seq<string>) returns (unique: seq<string>)
    ensures unique == Dedup(targets)
  {
    unique := [];
    var seen: set<string> := {};
    for i := 0 to |targets|
      invariant unique == Dedup(targets[..i])
      invariant forall x :: x in seen <==> x in targets[..i]
    {
      assert targets[..i + 1][..i] == targets[..i];
      if targets[i] !in seen {
        unique := unique + [targets[i]];
        seen := seen + {targets[i]};
      }
    }
    assert targets[..|targets|] == targets;
  }

  // ---------------------------------------------------------------- addresses

  predicate ValidAddress(address: string, allowEmpty: bool) {
    if address == "" then allowEmpty
    else forall c | c in address :: c != '<' && c != '>' && c as int >= 32 && c as int != 127
  }

  predicate ValidEnvelope(from: string, to: seq<string>) {
    ValidAddress(from, true) && to != [] && forall a | a in to :: ValidAddress(a, false)
  }
}
