/** DKIM verification (pkg/authverify/dkim.go 91-400): one signature, and the message.
    Hashes, signatures, base64 and the key lookup are functions of the environment. */
module Dkim {
  import opened Text
  import opened Numbers
  import opened Canonical
  import opened TagStrip
  import opened TagList
  import opened HeaderChoice
  import opened SignedHeaders

  datatype Verdict = NoResult | Pass | Fail | Policy | TempError | PermError

  datatype Algorithm = Rsa | Ed25519

  datatype KeyAnswer = NoKey | PublicKey(algorithm: Algorithm, bits: nat, bytes: string)

  datatype Env = Env(
    enabled: bool, now: int,
    key: (string, string) -> KeyAnswer,                 // selector, domain
    hash: string -> string,
    base64: string -> Option<string>,
    verify: (KeyAnswer, string, string) -> bool)        // key, digest, signature

  datatype Outcome = Outcome(verdict: Verdict, domain: string, names: seq<string>, signed: nat, size: nat,
                             truncated: bool, expired: bool, future: bool)

  const MIN_RSA_BITS := 1024
  const MAX_SIGNATURES := 10
  const CLOCK_SKEW := 48 * 3600

  const REFUSED := Outcome(PermError, "", [], 0, 0, false, false, false)

  // What the tags of a signature ask for, once they have been accepted.
  datatype Plan = Plan(
    names: seq<string>, headerMode: Mode, bodyMode: Mode, limit: string,
    algorithm: Algorithm, b: string, bh: string, domain: string, selector: string, future: bool)

  datatype Prepared = Stop(outcome: Outcome) | Go(plan: Plan)

  // ---------------------------------------------------------------- the tag checks

  predicate CoversFrom(names: seq<string>) {
    "from" in NameKeys(names)
  }

  function ModeNamed(name: string): Option<Mode> {
    if name == "simple" then Some(Simple) else if name == "relaxed" then Some(Relaxed) else None
  }

  // c=header/body, both simple by default.
  function HeaderModeOf(tags: Tags): Option<Mode> {
    var c := TrimSpace(Get(tags, "c"));
    if c == "" then Some(Simple) else ModeNamed(Key(c[..Find(c, '/')]))
  }

  function BodyModeOf(tags: Tags): Option<Mode> {
    var c := TrimSpace(Get(tags, "c"));
    if Find(c, '/') == |c| then Some(Simple) else ModeNamed(Key(c[Find(c, '/') + 1..]))
  }

  function AlgorithmOf(tags: Tags): Option<Algorithm> {
    var a := Key(Get(tags, "a"));
    if a == "rsa-sha256" then Some(Rsa) else if a == "ed25519-sha256" then Some(Ed25519) else None
  }

  predicate Expired(env: Env, tags: Tags) {
    var x := Atoi(TrimSpace(Get(tags, "x")));
    x.Some? && env.now > x.value
  }

  predicate FarAhead(env: Env, tags: Tags) {
    var t := Atoi(TrimSpace(Get(tags, "t")));
    t.Some? && t.value > env.now + CLOCK_SKEW
  }

  function Prepare(env: Env, raw: string, needVersion: bool): Prepared {
    match Strict(raw)
    case None => Stop(REFUSED)
    case Some(tags) => if needVersion && Get(tags, "v") != "1" then Stop(REFUSED) else PrepareTags(env, tags)
  }

  function PrepareTags(env: Env, tags: Tags): Prepared {
    var domain, selector := Key(Get(tags, "d")), TrimSpace(Get(tags, "s"));
    var b, bh := NoBlanks(Get(tags, "b")), NoBlanks(Get(tags, "bh"));
    var names := HeaderNames(Get(tags, "h"));
    var out := REFUSED.(domain := domain);
    if domain == "" || selector == "" || b == "" || bh == "" || names == [] then Stop(out)
    else if !CoversFrom(names) then Stop(out.(names := names))
    else if Key(Get(tags, "a")) == "rsa-sha1" then Stop(out.(names := names, verdict := Policy))
    else if AlgorithmOf(tags).None? then Stop(out.(names := names))
    else if TrimSpace(Get(tags, "x")) != "" && Atoi(TrimSpace(Get(tags, "x"))).None? then Stop(out.(names := names))
    else if Expired(env, tags) then Stop(out.(names := names, verdict := Fail, expired := true))
    else if HeaderModeOf(tags).None? || BodyModeOf(tags).None? then
      Stop(out.(names := names, future := FarAhead(env, tags)))
    else Go(Plan(names, HeaderModeOf(tags).value, BodyModeOf(tags).value, TrimSpace(Get(tags, "l")),
                 AlgorithmOf(tags).value, b, bh, domain, selector, FarAhead(env, tags)))
  }

  // ----------------------------------------------------- body, key and signature

  // The part of the canonical body that is hashed: all of it, or l= octets.
  function Limit(plan: Plan, canonical: string): Option<nat> {
    if plan.limit == "" then Some(|canonical|)
    else
      var l := Atoi(plan.limit);
      if l.None? || l.value < 0 then None
      else if l.value < |canonical| then Some(l.value)
      else Some(|canonical|)
  }

  function SignatureVerdict(env: Env, plan: Plan, input: string): Verdict {
    match env.key(plan.selector, plan.domain)
    case NoKey => PermError
    case PublicKey(algorithm, bits, bytes) =>
      if algorithm != plan.algorithm || env.base64(plan.b).None? then PermError
      else if algorithm == Rsa && bits < MIN_RSA_BITS then Policy
      else if env.verify(PublicKey(algorithm, bits, bytes), env.hash(input), env.base64(plan.b).value) then Pass
      else Fail
  }

  function BodyVerdict(env: Env, plan: Plan, signed: string, input: string): Verdict {
    match env.base64(plan.bh)
    case None => PermError
    case Some(expected) => if env.hash(signed) != expected then Fail else SignatureVerdict(env, plan, input)
  }

  function Carry(env: Env, plan: Plan, canonical: string, input: string): Outcome {
    var out := Outcome(PermError, plan.domain, plan.names, |canonical|, |canonical|, false, false, plan.future);
    match Limit(plan, canonical)
    case None => out
    case Some(n) =>
      if n > |canonical| then out
      else out.(verdict := BodyVerdict(env, plan, canonical[..n], input), signed := n, truncated := n < |canonical|)
  }

  /** The outcome for the signature field at `idx`. */
  function OneOutcome(env: Env, headers: seq<Field>, idx: nat, body: string, fieldName: string,
                      needVersion: bool): Outcome
    requires idx < |headers|
  {
    match Prepare(env, headers[idx].value, needVersion)
    case Stop(outcome) => outcome
    case Go(plan) =>
      Carry(env, plan, Body(body, plan.bodyMode), SignedInput(headers, idx, plan.names, plan.headerMode, fieldName))
  }

  method VerifyOne(env: Env, headers: seq<Field>, idx: nat, body: string, fieldName: string, needVersion: bool)
    returns (out: Outcome)
    requires idx < |headers|
    ensures out == OneOutcome(env, headers, idx, body, fieldName, needVersion)
  {
    match Prepare(env, headers[idx].value, needVersion) {
      case Stop(outcome) => return outcome;
      case Go(plan) =>
        var canonical := CanonicalizeBody(body, plan.bodyMode);
        var input := BuildSignedHeaderInput(headers, idx, plan.names, headers[idx].value, plan.headerMode, fieldName);
        out := Carry(env, plan, canonical, input);
    }
  }

  // --------------------------------------------------------------- the message

  // Positions of the fields called key.
  function Positions(headers: seq<Field>, key: string): seq<nat> {
    All(Keys(headers), |headers|, key)
  }

  function SignaturePositions(headers: seq<Field>): seq<nat> {
    var all := Positions(headers, "dkim-signature");
    if |all| > MAX_SIGNATURES then all[..MAX_SIGNATURES] else all
  }

  lemma {:induction false} PositionsInRange(keys: seq<string>, skip: nat, key: string, n: nat)
    requires n <= |keys|
    ensures forall k :: 0 <= k < |Instances(keys, skip, key, n)| ==>
              Instances(keys, skip, key, n)[k] < |keys| && keys[Instances(keys, skip, key, n)[k]] == key
  {
    if n > 0 { PositionsInRange(keys, skip, key, n - 1); }
  }

  datatype DkimResult = DkimResult(verdict: Verdict, signatures: seq<Outcome>, domains: seq<string>)

  function OutcomeAt(env: Env, headers: seq<Field>, idx: nat, body: string): Outcome {
    if idx < |headers| then OneOutcome(env, headers, idx, body, "DKIM-Signature", true) else REFUSED
  }

  function OutcomesAt(env: Env, headers: seq<Field>, at: seq<nat>, body: string): (r: seq<Outcome>)
    ensures |r| == |at|
  {
    seq(|at|, k requires 0 <= k < |at| => OutcomeAt(env, headers, at[k], body))
  }

  function PassingDomains(outcomes: seq<Outcome>, n: nat): seq<string>
    requires n <= |outcomes|
  {
    if n == 0 then []
    else PassingDomains(outcomes, n - 1) + if outcomes[n - 1].verdict == Pass then [outcomes[n - 1].domain] else []
  }

  predicate AnyPass(outcomes: seq<Outcome>) {
    exists k :: 0 <= k < |outcomes| && outcomes[k].verdict == Pass
  }

  function Overall(outcomes: seq<Outcome>): Verdict {
    if AnyPass(outcomes) then Pass else if |outcomes| == 1 then outcomes[0].verdict else Fail
  }

  function DkimOf(env: Env, headers: seq<Field>, body: string): DkimResult {
    var at := SignaturePositions(headers);
    if at == [] then DkimResult(NoResult, [], [])
    else if !env.enabled then DkimResult(TempError, [REFUSED.(verdict := TempError)], [])
    else if |Positions(headers, "from")| > 1 then DkimResult(PermError, [REFUSED], [])
    else
      var outcomes := OutcomesAt(env, headers, at, body);
      DkimResult(Overall(outcomes), outcomes, PassingDomains(outcomes, |outcomes|))
  }

  method FieldPositions(headers: seq<Field>, name: string) returns (at: seq<nat>)
    ensures at == Positions(headers, Lower(name))
  {
    at := [];
    var i := 0;
    while i < |headers|
      invariant i <= |headers| && at == Instances(Keys(headers), |headers|, Lower(name), i)
    {
      if EqualFold(TrimSpace(headers[i].name), name) {
        at := at + [i];
      }
      i := i + 1;
    }
  }

  method CheckEach(env: Env, headers: seq<Field>, at: seq<nat>, body: string)
    returns (outcomes: seq<Outcome>, domains: seq<string>)
    requires forall k :: 0 <= k < |at| ==> at[k] < |headers|
    ensures outcomes == OutcomesAt(env, headers, at, body)
    ensures domains == PassingDomains(outcomes, |outcomes|)
  {
    outcomes, domains := [], [];
    var k := 0;
    while k < |at|
      invariant k <= |at| && Checked(env, headers, at, body, k, outcomes, domains)
    {
      var one := VerifyOne(env, headers, at[k], body, "DKIM-Signature", true);
      CheckedMore(env, headers, at, body, k, outcomes, domains, one);
      outcomes := outcomes + [one];
      if one.verdict == Pass {
        domains := domains + [one.domain];
      }
      k := k + 1;
    }
    assert at[..k] == at;
  }

  // The outcomes of the first k signatures, and the domains that passed.
  ghost predicate Checked(env: Env, headers: seq<Field>, at: seq<nat>, body: string, k: nat,
                          outcomes: seq<Outcome>, domains: seq<string>)
    requires k <= |at|
  {
    outcomes == OutcomesAt(env, headers, at[..k], body) && domains == PassingDomains(outcomes, |outcomes|)
  }

  lemma CheckedMore(env: Env, headers: seq<Field>, at: seq<nat>, body: string, k: nat,
                    outcomes: seq<Outcome>, domains: seq<string>, one: Outcome)
    requires k < |at| && Checked(env, headers, at, body, k, outcomes, domains)
    requires one == OutcomeAt(env, headers, at[k], body)
    ensures Checked(env, headers, at, body, k + 1, outcomes + [one],
                    domains + if one.verdict == Pass then [one.domain] else [])
  {
    PassingMore(outcomes, one, k);
    OutcomesMore(env, headers, at, body, k);
  }

  lemma OutcomesMore(env: Env, headers: seq<Field>, at: seq<nat>, body: string, k: nat)
    requires k < |at|
    ensures OutcomesAt(env, headers, at[..k + 1], body) ==
            OutcomesAt(env, headers, at[..k], body) + [OutcomeAt(env, headers, at[k], body)]
  {
  }

  lemma {:induction false} PassingMore(outcomes: seq<Outcome>, more: Outcome, n: nat)
    requires n <= |outcomes|
    ensures PassingDomains(outcomes + [more], n) == PassingDomains(outcomes, n)
  {
    if n > 0 { PassingMore(outcomes, more, n - 1); }
  }

  method StrongestOutcome(outcomes: seq<Outcome>) returns (verdict: Verdict)
    ensures verdict == Overall(outcomes)
  {
    verdict := Fail;
    for k := 0 to |outcomes|
      invariant verdict == Fail && forall m :: 0 <= m < k ==> outcomes[m].verdict != Pass
    {
      if outcomes[k].verdict == Pass { return Pass; }
    }
    if |outcomes| == 1 { verdict := outcomes[0].verdict; }
  }

  lemma FieldNames()
    ensures Lower("DKIM-Signature") == "dkim-signature" && Lower("From") == "from"
  {
  }

  method VerifyDKIM(env: Env, headers: seq<Field>, body: string) returns (r: DkimResult)
    ensures r == DkimOf(env, headers, body)
  {
    FieldNames();
    PositionsInRange(Keys(headers), |headers|, "dkim-signature", |headers|);
    var at := FieldPositions(headers, "DKIM-Signature");
    if |at| == 0 { return DkimResult(NoResult, [], []); }
    if |at| > MAX_SIGNATURES { at := at[..MAX_SIGNATURES]; }
    if !env.enabled { return DkimResult(TempError, [REFUSED.(verdict := TempError)], []); }
    var from := FieldPositions(headers, "From");
    if |from| > 1 { return DkimResult(PermError, [REFUSED], []); }
    var outcomes, domains := CheckEach(env, headers, at, body);
    var verdict := StrongestOutcome(outcomes);
    return DkimResult(verdict, outcomes, domains);
  }

  // ------------------------------------------------------------- what a pass means

  // The published key, strong enough and of the signature's kind, verified the hash of the input.
  predicate KeyVouches(env: Env, selector: string, domain: string, algorithm: Algorithm, b: string, input: string) {
    var key := env.key(selector, domain);
    && key.PublicKey? && key.algorithm == algorithm && (algorithm == Rsa ==> key.bits >= MIN_RSA_BITS)
    && env.base64(b).Some? && env.verify(key, env.hash(input), env.base64(b).value)
  }

  // The tags name a signer, keys and fields, and nothing in them is refused.
  predicate GoodTags(env: Env, tags: Tags, needVersion: bool) {
    && (needVersion ==> Get(tags, "v") == "1")
    && Key(Get(tags, "d")) != "" && TrimSpace(Get(tags, "s")) != ""
    && NoBlanks(Get(tags, "b")) != "" && NoBlanks(Get(tags, "bh")) != ""
    && CoversFrom(HeaderNames(Get(tags, "h"))) && AlgorithmOf(tags).Some?
    && (TrimSpace(Get(tags, "x")) != "" ==> Atoi(TrimSpace(Get(tags, "x"))).Some? && !Expired(env, tags))
    && HeaderModeOf(tags).Some? && BodyModeOf(tags).Some?
  }

  // The bh= tag holds the hash of the part of the canonical body that l= selects.
  predicate BodyMatches(env: Env, tags: Tags, canonical: string) {
    var n := Selected(TrimSpace(Get(tags, "l")), canonical);
    0 <= n <= |canonical| && env.base64(NoBlanks(Get(tags, "bh"))) == Some(env.hash(canonical[..n]))
  }

  /** The many early exits amount to this: a signature passes exactly when its tags are good, the
      body matches and the key vouches for the header fields. */
  lemma PassExactly(env: Env, headers: seq<Field>, idx: nat, body: string, fieldName: string,
                    needVersion: bool, tags: Tags)
    requires idx < |headers| && Strict(headers[idx].value) == Some(tags)
    ensures OneOutcome(env, headers, idx, body, fieldName, needVersion).verdict == Pass <==>
      && GoodTags(env, tags, needVersion) && BodyMatches(env, tags, Body(body, BodyModeOf(tags).value))
      && KeyVouches(env, TrimSpace(Get(tags, "s")), Key(Get(tags, "d")), AlgorithmOf(tags).value,
                    NoBlanks(Get(tags, "b")), SignedInput(headers, idx, HeaderNames(Get(tags, "h")),
                                                          HeaderModeOf(tags).value, fieldName))
  {
    GoesOnExactly(env, headers[idx].value, needVersion, tags);
    PrepareNeverPasses(env, headers[idx].value, needVersion);
    var p := Prepare(env, headers[idx].value, needVersion);
    if p.Go? {
      CarryExactly(env, p.plan, tags, Body(body, p.plan.bodyMode),
                   SignedInput(headers, idx, p.plan.names, p.plan.headerMode, fieldName));
    }
  }

  ghost predicate PlanOf(plan: Plan, tags: Tags) {
    && plan.names == HeaderNames(Get(tags, "h")) && plan.limit == TrimSpace(Get(tags, "l"))
    && HeaderModeOf(tags) == Some(plan.headerMode) && BodyModeOf(tags) == Some(plan.bodyMode)
    && AlgorithmOf(tags) == Some(plan.algorithm)
    && plan.b == NoBlanks(Get(tags, "b")) && plan.bh == NoBlanks(Get(tags, "bh"))
    && plan.domain == Key(Get(tags, "d")) && plan.selector == TrimSpace(Get(tags, "s"))
  }

  lemma GoesOnExactly(env: Env, raw: string, needVersion: bool, tags: Tags)
    requires Strict(raw) == Some(tags)
    ensures var p := Prepare(env, raw, needVersion);
      (p.Go? <==> GoodTags(env, tags, needVersion)) && (p.Go? ==> PlanOf(p.plan, tags))
  {
    TagsGoOn(env, tags);
  }

  lemma TagsGoOn(env: Env, tags: Tags)
    ensures var p := PrepareTags(env, tags);
      (p.Go? <==> GoodTags(env, tags, false)) && (p.Go? ==> PlanOf(p.plan, tags))
  {
    Sha1IsNoAlgorithm(tags);
    NoNamesNoFrom(HeaderNames(Get(tags, "h")));
  }

  lemma Sha1IsNoAlgorithm(tags: Tags)
    ensures Key(Get(tags, "a")) == "rsa-sha1" ==> AlgorithmOf(tags).None?
  {
  }

  lemma NoNamesNoFrom(names: seq<string>)
    ensures CoversFrom(names) ==> names != []
  {
  }

  // The number of octets that l= selects; negative when there is none.
  function Selected(limit: string, canonical: string): int {
    if limit == "" then |canonical|
    else if Atoi(limit).None? then -1
    else if Atoi(limit).value < |canonical| then Atoi(limit).value
    else |canonical|
  }

  lemma LimitIsSelected(plan: Plan, canonical: string)
    ensures var n := Selected(plan.limit, canonical);
      Limit(plan, canonical) == (if n < 0 then None else Some(n)) && n <= |canonical|
  {
  }

  lemma CarryExactly(env: Env, plan: Plan, tags: Tags, canonical: string, input: string)
    requires PlanOf(plan, tags)
    ensures Carry(env, plan, canonical, input).verdict == Pass <==>
            BodyMatches(env, tags, canonical) &&
            KeyVouches(env, plan.selector, plan.domain, plan.algorithm, plan.b, input)
  {
    LimitIsSelected(plan, canonical);
    BodyPassExactly(env, plan, canonical, input);
  }

  lemma BodyPassExactly(env: Env, plan: Plan, canonical: string, input: string)
    ensures forall n :: 0 <= n <= |canonical| ==>
      (BodyVerdict(env, plan, canonical[..n], input) == Pass <==>
       env.base64(plan.bh) == Some(env.hash(canonical[..n])) &&
       KeyVouches(env, plan.selector, plan.domain, plan.algorithm, plan.b, input))
  {
  }

  // The key named by the signature verified a hash of bytes that include `text`.
  ghost predicate Vouched(env: Env, headers: seq<Field>, idx: nat, fieldName: string, plan: Plan, text: string)
    requires idx < |headers|
  {
    var input := SignedInput(headers, idx, plan.names, plan.headerMode, fieldName);
    var key := env.key(plan.selector, plan.domain);
    && key.PublicKey? && env.base64(plan.b).Some?
    && env.verify(key, env.hash(input), env.base64(plan.b).value)
    && Within(text, input)
  }

  lemma CarryPassed(env: Env, plan: Plan, canonical: string, input: string)
    requires Carry(env, plan, canonical, input).verdict == Pass
    ensures var key := env.key(plan.selector, plan.domain);
      key.PublicKey? && env.base64(plan.b).Some? && env.verify(key, env.hash(input), env.base64(plan.b).value)
  {
  }

  lemma {:induction false} SkipElsewhere(keys: seq<string>, skip: nat, key: string, n: nat)
    requires n <= |keys| && (skip < |keys| ==> keys[skip] != key)
    ensures Instances(keys, skip, key, n) == Instances(keys, |keys|, key, n)
  {
    if n > 0 { SkipElsewhere(keys, skip, key, n - 1); }
  }

  // The only instance of a key has none below it.
  lemma OnlyInstance(keys: seq<string>, skip: nat, key: string)
    requires skip < |keys| && keys[skip] != key && |All(keys, |keys|, key)| == 1
    ensures var i := All(keys, |keys|, key)[0];
      IsInstance(keys, skip, key, i) && Below(keys, skip, key, i) == 0
  {
    var i := All(keys, |keys|, key)[0];
    SkipElsewhere(keys, skip, key, |keys|);
    FromBottomMeaning(keys, skip, key, 0, i);
  }

  /** With one From field, a passing signature has that field among the bytes it signs. */
  lemma PassCoversFrom(env: Env, headers: seq<Field>, idx: nat, body: string, fieldName: string, needVersion: bool)
    requires idx < |headers| && Key(headers[idx].name) != "from" && |Positions(headers, "from")| == 1
    requires OneOutcome(env, headers, idx, body, fieldName, needVersion).verdict == Pass
    ensures var p, i := Prepare(env, headers[idx].value, needVersion), Positions(headers, "from")[0];
      p.Go? && i < |headers| &&
      Vouched(env, headers, idx, fieldName, p.plan, CanonicalField(headers[i], p.plan.headerMode))
  {
    PrepareNeverPasses(env, headers[idx].value, needVersion);
    var plan := Prepare(env, headers[idx].value, needVersion).plan;
    OnlyInstance(Keys(headers), idx, "from");
    PlanCoversFrom(env, headers[idx].value, needVersion);
    MentionedIsHashed(headers, idx, plan.names, plan.headerMode, fieldName, "from", Positions(headers, "from")[0]);
    CarryPassed(env, plan, Body(body, plan.bodyMode),
                SignedInput(headers, idx, plan.names, plan.headerMode, fieldName));
  }

  lemma PrepareNeverPasses(env: Env, raw: string, needVersion: bool)
    ensures var p := Prepare(env, raw, needVersion); p.Stop? ==> p.outcome.verdict != Pass
  {
  }

  lemma PlanCoversFrom(env: Env, raw: string, needVersion: bool)
    ensures var p := Prepare(env, raw, needVersion); p.Go? ==> CoversFrom(p.plan.names)
  {
  }

  lemma {:induction false} PassingDomainsMeaning(outcomes: seq<Outcome>, n: nat, d: string)
    requires n <= |outcomes|
    ensures d in PassingDomains(outcomes, n) <==>
            exists k :: 0 <= k < n && outcomes[k].verdict == Pass && outcomes[k].domain == d
  {
    if n > 0 { PassingDomainsMeaning(outcomes, n - 1, d); }
  }

  /** A message passes only with at most one From field, and then one of its first ten signatures
      passes; its domain is reported, and so is no other domain. */
  lemma DkimPassMeans(env: Env, headers: seq<Field>, body: string)
    ensures var r, at := DkimOf(env, headers, body), SignaturePositions(headers);
      r.verdict == Pass <==>
        env.enabled && |Positions(headers, "from")| <= 1 &&
        exists k :: 0 <= k < |at| && k < MAX_SIGNATURES && OutcomeAt(env, headers, at[k], body).verdict == Pass
    ensures forall d :: d in DkimOf(env, headers, body).domains <==> PassedFor(env, headers, body, d)
  {
    var at := SignaturePositions(headers);
    var outcomes := OutcomesAt(env, headers, at, body);
    if at != [] && env.enabled && |Positions(headers, "from")| <= 1 {
      if AnyPass(outcomes) {
        var k :| 0 <= k < |outcomes| && outcomes[k].verdict == Pass;
        assert OutcomeAt(env, headers, at[k], body).verdict == Pass;
      }
      if k :| 0 <= k < |at| && OutcomeAt(env, headers, at[k], body).verdict == Pass {
        assert outcomes[k].verdict == Pass;
      }
    }
    forall d ensures d in DkimOf(env, headers, body).domains <==> PassedFor(env, headers, body, d) {
      PassingDomainsMeaning(outcomes, |outcomes|, d);
    }
  }

  predicate PassedFor(env: Env, headers: seq<Field>, body: string, d: string) {
    var outcomes := OutcomesAt(env, headers, SignaturePositions(headers), body);
    env.enabled && |Positions(headers, "from")| <= 1 &&
    exists k :: 0 <= k < |outcomes| && outcomes[k].verdict == Pass && outcomes[k].domain == d
  }

  // ------------------------------------------------------- what leaves it unchanged

  /** Bodies with one simple canonical form give the same outcome to every signature, relaxed ones
      included. */
  lemma SameBodySameResult(env: Env, headers: seq<Field>, a: string, b: string)
    requires Body(a, Simple) == Body(b, Simple)
    ensures DkimOf(env, headers, a) == DkimOf(env, headers, b)
  {
    RelaxedOfSimple(a);
    RelaxedOfSimple(b);
    var at := SignaturePositions(headers);
    forall k | 0 <= k < |at| ensures OutcomeAt(env, headers, at[k], a) == OutcomeAt(env, headers, at[k], b) {
      SameBodySameOutcome(env, headers, at[k], a, b);
    }
    assert OutcomesAt(env, headers, at, a) == OutcomesAt(env, headers, at, b);
  }

  lemma SameBodySameOutcome(env: Env, headers: seq<Field>, idx: nat, a: string, b: string)
    requires Body(a, Simple) == Body(b, Simple) && Body(a, Relaxed) == Body(b, Relaxed)
    ensures OutcomeAt(env, headers, idx, a) == OutcomeAt(env, headers, idx, b)
  {
    if idx < |headers| {
      var p := Prepare(env, headers[idx].value, true);
      if p.Go? { assert Body(a, p.plan.bodyMode) == Body(b, p.plan.bodyMode); }
    }
  }

  /** Line breaks added at the end of the message, and bare LFs on the way, do not matter to DKIM
      (the latter as long as no CRLF of the kept body follows a bare CR). */
  lemma TransportKeepsResult(env: Env, headers: seq<Field>, body: string, breaks: string)
    requires forall c | c in breaks :: Break(c)
    ensures DkimOf(env, headers, body + breaks) == DkimOf(env, headers, body)
    ensures !CrBeforeCRLF(TrimRight(body, CRLF)) ==> DkimOf(env, headers, ToLF(body)) == DkimOf(env, headers, body)
  {
    AppendedBreaks(body, breaks, Simple);
    SameBodySameResult(env, headers, body + breaks, body);
    if !CrBeforeCRLF(TrimRight(body, CRLF)) {
      SimpleLineEndings(body);
      SameBodySameResult(env, headers, ToLF(body), body);
    }
  }

  /** With l= below both sizes, only that much of the body decides the verdict, and everything
      beyond it raises the truncation flag. */
  lemma BeyondTheLimit(env: Env, plan: Plan, a: string, b: string, n: nat, input: string)
    requires plan.limit != "" && Atoi(plan.limit) == Some(n) && n <= |a| && n <= |b| && a[..n] == b[..n]
    ensures Carry(env, plan, a, input).verdict == Carry(env, plan, b, input).verdict
    ensures Carry(env, plan, b, input).truncated <==> n < |b|
  {
    assert |a| == n ==> a[..n] == a;
    assert |b| == n ==> b[..n] == b;
  }

  // Whether the signature at idx asks for the key more often than the message has it.
  predicate OversignedAt(env: Env, headers: seq<Field>, idx: nat, key: string) {
    idx < |headers| &&
    var p := Prepare(env, headers[idx].value, true);
    p.Go? && Oversigned(Keys(headers), idx, NameKeys(p.plan.names), key, |p.plan.names|)
  }

  lemma TopKeepsOutcome(env: Env, f: Field, headers: seq<Field>, idx: nat, body: string)
    requires idx < |headers| && !OversignedAt(env, headers, idx, Key(f.name))
    ensures OutcomeAt(env, [f] + headers, idx + 1, body) == OutcomeAt(env, headers, idx, body)
  {
    var p := Prepare(env, headers[idx].value, true);
    assert ([f] + headers)[idx + 1] == headers[idx];
    if p.Go? {
      AddedField(f, headers, idx, p.plan.names, p.plan.headerMode, "DKIM-Signature");
    }
  }

  lemma PositionsWithTop(f: Field, headers: seq<Field>, key: string)
    requires Key(f.name) != key
    ensures Positions([f] + headers, key) == Shifted(Positions(headers, key))
  {
    WithTop(f, headers, Simple);
    AllWithTop(Key(f.name), Keys(headers), |headers|, key);
  }

  lemma SignaturesWithTop(f: Field, headers: seq<Field>)
    requires Key(f.name) != "dkim-signature"
    ensures SignaturePositions([f] + headers) == Shifted(SignaturePositions(headers))
  {
    PositionsWithTop(f, headers, "dkim-signature");
    var all := Positions(headers, "dkim-signature");
    if |all| > MAX_SIGNATURES {
      assert Shifted(all)[..MAX_SIGNATURES] == Shifted(all[..MAX_SIGNATURES]);
    }
  }

  /** A relay that puts a field on top (a trace field, say) changes no DKIM result, unless the
      field is a From or a signature, or a signature guards its name by oversigning. */
  lemma TopFieldKeepsResult(env: Env, f: Field, headers: seq<Field>, body: string)
    requires Key(f.name) != "dkim-signature" && Key(f.name) != "from"
    requires forall k :: 0 <= k < |SignaturePositions(headers)| ==>
      !OversignedAt(env, headers, SignaturePositions(headers)[k], Key(f.name))
    ensures DkimOf(env, [f] + headers, body) == DkimOf(env, headers, body)
  {
    var at := SignaturePositions(headers);
    SignaturesWithTop(f, headers);
    PositionsWithTop(f, headers, "from");
    PositionsInRange(Keys(headers), |headers|, "dkim-signature", |headers|);
    forall k | 0 <= k < |at|
      ensures OutcomeAt(env, [f] + headers, Shifted(at)[k], body) == OutcomeAt(env, headers, at[k], body)
    {
      TopKeepsOutcome(env, f, headers, at[k], body);
    }
    assert OutcomesAt(env, [f] + headers, Shifted(at), body) == OutcomesAt(env, headers, at, body);
  }
}
