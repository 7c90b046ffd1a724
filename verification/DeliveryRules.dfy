/** The words of a policy's actions: which refuse a message and with what code, which hold it, and
    where the others send it. */
module DeliveryRules {
  import opened Text
  import opened Numbers
  import opened Disposition
  import opened RelayReplies
  import TextRules
  import TagStrip

  // ------------------------------------------------------------------- refusals

  // The action refuses a message with this code; a held message is refused when nobody takes it.
  predicate Refuses(action: string, taken: bool, code: int) {
    || ((action == "reject" || action == "bounce" || action == "drop" || action == "discard") && code == 550)
    || (action == "defer" && code == 451)
    || ((action == "quarantine" || action == "fileinto:Spam") && !taken && code == 550)
    || (HasPrefix(action, "smtp_error:") && code == AskedCode(action[11..]))
  }

  // The number before the colon, if it is a 4xx or 5xx code.
  function AskedCode(text: string): int {
    var n := Atoi(text[..Find(text, ':')]);
    if n.Some? && 400 <= n.value <= 599 then n.value else 451
  }

  lemma AskedCodeMeaning(n: nat, tail: string)
    requires tail == "" || tail[0] == ':'
    ensures AskedCode(TextRules.Shown(n) + tail) == if 400 <= n <= 599 then n else 451
  {
    var s := TextRules.Shown(n);
    forall k | 0 <= k < |s| ensures (s + tail)[k] != ':' { assert '0' <= s[k] <= '9'; }
    TagStrip.FindIs(s + tail, ':', |s|);
    assert (s + tail)[..|s|] == s;
    TextRules.AtoiMeaning(n);
  }

  lemma EffectMeaning(action: string, taken: bool)
    ensures var e := EffectOf(action, taken);
      && (forall code :: Refuses(action, taken, code) <==> e == Block(code))
      && (e == Hold <==> taken && (action == "quarantine" || action == "fileinto:Spam"))
  {
    assert SMTP_ERROR == "smtp_error:" && |SMTP_ERROR| == 11;
    FirstLetters(action);
  }

  // No word above begins like another.
  lemma FirstLetters(action: string)
    ensures HasPrefix(action, "smtp_error:") ==> |action| >= 11 && action[0] == 's'
    ensures action in ["reject", "bounce", "drop", "discard", "defer", "quarantine", "fileinto:Spam"] ==>
            action[0] != 's'
  {
    if HasPrefix(action, "smtp_error:") { assert action[0] == "smtp_error:"[0]; }
  }

  ghost predicate Harmless(action: string, taken: bool) {
    forall code :: !Refuses(action, taken, code)
  }

  lemma HarmlessMeaning(action: string, taken: bool)
    ensures Harmless(action, taken) <==> !EffectOf(action, taken).Block?
  {
    EffectMeaning(action, taken);
    var e := EffectOf(action, taken);
    if e.Block? { assert Refuses(action, taken, e.code); }
  }

  /** The first action that refuses a message decides its code, whatever else the policy asks. */
  lemma FirstRefusalDecides(cfg: Config, before: seq<string>, action: string, after: seq<string>, code: int)
    requires var taken := cfg.forwardQuarantine || cfg.hostAdapter;
      Refuses(action, taken, code) && forall b | b in before :: Harmless(b, taken)
    ensures Verdict(cfg, before + [action] + after) == code && 400 <= code <= 599
  {
    var taken, all := cfg.forwardQuarantine || cfg.hostAdapter, before + [action] + after;
    EffectMeaning(action, taken);
    forall k | 0 <= k < |before| ensures !EffectOf(all[k], taken).Block? {
      assert all[k] == before[k] && before[k] in before;
      HarmlessMeaning(before[k], taken);
    }
    assert all[|before|] == action;
    FirstCodeIs(all, taken, |before|);
    BlockCode(action, taken);
  }

  // Only a delivery host can carry it out.
  predicate HostOnly(action: string) {
    || action == "add_to_digest" || (HasPrefix(action, "fileinto:") && action != "fileinto:Spam")
    || HasPrefix(action, "auto_reply:") || HasPrefix(action, "force_second_pass:")
    || HasPrefix(action, "reply_with_smtp_dsn:") || HasPrefix(action, "set_dlp:") || HasPrefix(action, "skip_dlp:")
    || HasPrefix(action, "skip_malware_check:") || HasPrefix(action, "skip_spam_check:")
    || HasPrefix(action, "skip_whitelist_check:") || HasPrefix(action, "set_filter_rules:")
  }

  lemma HostOnlyMeaning(action: string)
    ensures NeedsHost(action) <==> HostOnly(action)
  {
    var h := HOST_ACTIONS;
    assert h[0] == "fileinto:" && h[1] == "auto_reply:" && h[2] == "force_second_pass:";
    assert h[3] == "reply_with_smtp_dsn:" && h[4] == "set_dlp:" && h[5] == "skip_dlp:" && h[6] == "skip_malware_check:";
    assert h[7] == "skip_spam_check:" && h[8] == "skip_whitelist_check:" && h[9] == "set_filter_rules:";
    if action == "fileinto:Spam" { assert action[0] == 'f'; }
  }

  /** Without a refusal a message goes on, unless an action needs a delivery host and there is none;
      then it is deferred. It is held when it is quarantined. */
  lemma NoRefusal(cfg: Config, actions: seq<string>)
    requires forall a | a in actions :: Harmless(a, cfg.forwardQuarantine || cfg.hostAdapter)
    ensures Verdict(cfg, actions) ==
            if !cfg.hostAdapter && (exists a :: a in actions && HostOnly(a)) then 451 else 250
    ensures Held(cfg, actions) <==>
            (cfg.forwardQuarantine || cfg.hostAdapter) && ("quarantine" in actions || "fileinto:Spam" in actions)
  {
    var taken := cfg.forwardQuarantine || cfg.hostAdapter;
    forall a | a in actions ensures !EffectOf(a, taken).Block? {
      HarmlessMeaning(a, taken);
    }
    FirstCodeMeaning(actions, taken);
    forall a ensures NeedsHost(a) <==> HostOnly(a) { HostOnlyMeaning(a); }
    HeldMeaning(cfg, actions);
  }

  lemma HeldMeaning(cfg: Config, actions: seq<string>)
    ensures Held(cfg, actions) <==>
            (cfg.forwardQuarantine || cfg.hostAdapter) && ("quarantine" in actions || "fileinto:Spam" in actions)
  {
    var taken := cfg.forwardQuarantine || cfg.hostAdapter;
    forall a ensures EffectOf(a, taken) == Hold <==> taken && (a == "quarantine" || a == "fileinto:Spam") {
      EffectMeaning(a, taken);
    }
  }

  // ------------------------------------------------------------------- rewriting

  // The action is this word with this address.
  predicate Sends(action: string, word: string, address: string) {
    action == word + ":" + address
  }

  lemma SentTo(action: string, word: string, address: string)
    requires Sends(action, word, address) && ':' !in word
    ensures Find(action, ':') == |word| < |action| && Before(action) == word && After(action) == address
  {
    TagStrip.FindIs(action, ':', |word|);
    assert action[..|word|] == word && action[|word| + 1..] == address;
  }

  lemma SendsSomewhere(action: string)
    requires Find(action, ':') < |action|
    ensures Sends(action, Before(action), After(action)) && ':' !in Before(action)
  {
    TextRules.CutAt(action, ':');
  }

  predicate Redirects(action: string, address: string) {
    Sends(action, "redirect", address) || Sends(action, "divert_to", address)
  }

  lemma ActionMeaning(action: string, address: string)
    ensures IsReplacement(action) && After(action) == address <==> Redirects(action, address)
    ensures IsCopy(action) && After(action) == address <==> Sends(action, "screen_to", address)
  {
    if Find(action, ':') < |action| { SendsSomewhere(action); }
    if Sends(action, "redirect", address) { SentTo(action, "redirect", address); }
    if Sends(action, "divert_to", address) { SentTo(action, "divert_to", address); }
    if Sends(action, "screen_to", address) { SentTo(action, "screen_to", address); }
  }

  lemma {:induction false} InReplacements(actions: seq<string>, x: string)
    ensures x in Replacements(actions) <==> exists a :: a in actions && Redirects(a, x)
  {
    if actions != [] {
      InReplacements(actions[1..], x);
      ActionMeaning(actions[0], x);
      assert actions == [actions[0]] + actions[1..];
    }
  }

  lemma {:induction false} InCopies(actions: seq<string>, x: string)
    ensures x in Copies(actions) <==> exists a :: a in actions && Sends(a, "screen_to", x)
  {
    if actions != [] {
      InCopies(actions[1..], x);
      ActionMeaning(actions[0], x);
      assert actions == [actions[0]] + actions[1..];
    }
  }

  ghost predicate Redirected(actions: seq<string>) {
    exists a, x :: a in actions && Redirects(a, x)
  }

  lemma RedirectedMeaning(actions: seq<string>)
    ensures Redirected(actions) <==> Replacements(actions) != []
  {
    if Replacements(actions) != [] {
      InReplacements(actions, Replacements(actions)[0]);
    }
    if a, x :| a in actions && Redirects(a, x) {
      InReplacements(actions, x);
    }
  }

  /** Who gets a message: those it is redirected or diverted to, or its own recipients when there is
      none; and besides those it is screened to. Nobody gets it twice. */
  lemma RewrittenMeaning(actions: seq<string>, recipients: seq<string>, x: string)
    ensures x in Rewritten(actions, recipients) <==>
      || (exists a :: a in actions && Redirects(a, x))
      || (!Redirected(actions) && x in recipients)
      || exists a :: a in actions && Sends(a, "screen_to", x)
    ensures Rewrites(actions) ==>
      forall i, j :: 0 <= i < j < |Rewritten(actions, recipients)| ==>
        Rewritten(actions, recipients)[i] != Rewritten(actions, recipients)[j]
  {
    InReplacements(actions, x);
    InCopies(actions, x);
    RedirectedMeaning(actions);
    DedupKeepsMembers(Targets(actions, recipients));
    DedupDistinct(Targets(actions, recipients));
  }

  /** An address with angle brackets or control characters never goes into a command. */
  lemma EnvelopeMeaning(from: string, to: seq<string>)
    ensures ValidEnvelope(from, to) <==>
      to != [] && "" !in to && forall a, c :: (a == from || a in to) && c in a ==>
        c != '<' && c != '>' && c as int >= 32 && c as int != 127
  {
    if ValidEnvelope(from, to) {
      forall a, c | (a == from || a in to) && c in a
        ensures c != '<' && c != '>' && c as int >= 32 && c as int != 127
      {
        assert ValidAddress(a, a == from);
      }
    }
  }
}
