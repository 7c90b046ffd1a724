/** The words of ARC (section 4.1 and 5.2 of RFC 8617): which fields belong to a chain, what cv=
    decides, and which verdict a seal gets for what. */
module ArcRules {
  import opened Text
  import opened Numbers
  import opened Canonical
  import opened TagStrip
  import opened TagList
  import opened HeaderChoice
  import opened SignedHeaders
  import opened Dkim
  import opened ArcChain

  lemma ResultsNames()
    ensures Lower("ARC-Authentication-Results") == "arc-authentication-results"
    ensures Lower("Authentication-Results") == "authentication-results"
  {
    OwnResultsName();
    assert Lower("ARC-Authentication-Results") == "arc-authentication-results";
  }

  lemma OwnResultsName()
    ensures Lower("Authentication-Results") == "authentication-results"
  {
  }

  lemma SignatureNames()
    ensures Lower("ARC-Message-Signature") == "arc-message-signature" && Lower("ARC-Seal") == "arc-seal"
  {
  }

  predicate Named(f: Field, name: string) {
    EqualFold(TrimSpace(f.name), name)
  }

  predicate IsArcField(f: Field) {
    Named(f, "ARC-Authentication-Results") || Named(f, "ARC-Message-Signature") || Named(f, "ARC-Seal")
  }

  /** A field belongs to a chain by its name alone, in any letter case, and to the set that its i=
      tag numbers, from 1 to 50; without such a number the chain is malformed. */
  lemma MarkMeaning(f: Field)
    ensures var number := Atoi(TrimSpace(Get(Lenient(f.value), "i")));
      match MarkOf(f)
      case NotArc => !IsArcField(f)
      case BadArc => IsArcField(f) && (number.None? || number.value < 1 || number.value > 50)
      case Arc(kind, i) =>
        && number == Some(i) && 1 <= i <= 50
        && (kind == ResultsField <==> Named(f, "ARC-Authentication-Results"))
        && (kind == MessageField <==> Named(f, "ARC-Message-Signature"))
        && (kind == SealField <==> Named(f, "ARC-Seal"))
  {
    ResultsNames();
    SignatureNames();
  }

  // What the signatures of set i say, once its cv= is right.
  function SignaturesSay(env: Env, headers: seq<Field>, sets: Sets, body: string, i: int, tags: Tags): Verdict
    requires Complete(sets, i, |headers|)
  {
    var message := MessageVerdict(env, headers, sets[i].message.value, body);
    if i == |sets| && message != Pass then message
    else SealVerdict(env, tags, SealInput(Texts(headers, Relaxed), OwnSeals(headers), sets, i))
  }

  predicate RightCv(i: int, tags: Tags) {
    (i == 1 && EqualFold(Get(tags, "cv"), "none")) || (i != 1 && EqualFold(Get(tags, "cv"), "pass"))
  }

  /** A complete set whose seal parses is settled by its cv= alone when that is wrong: the chain
      fails. With cv=none in set 1, and cv=pass in any other, its signatures settle it. */
  lemma CvDecides(env: Env, headers: seq<Field>, sets: Sets, body: string, i: int, details: seq<Detail>, tags: Tags)
    requires Complete(sets, i, |headers|) && Strict(headers[sets[i].seal.value].value) == Some(tags)
    ensures var p := CheckSet(env, headers, sets, body, i, i == |sets|, details);
      if RightCv(i, tags) then
        var v := SignaturesSay(env, headers, sets, body, i, tags);
        if p.Going? then v == Pass else v != Pass && p.result.verdict == v
      else p.Ended? && p.result.verdict == Fail
  {
    assert Lower("none") == "none" && Lower("pass") == "pass";
  }

  /** A message signature that signs one of the four fields is an error; otherwise it is what it is
      as a DKIM signature. */
  lemma MessageMeaning(env: Env, headers: seq<Field>, idx: nat, body: string)
    requires idx < |headers|
    ensures var out := OneOutcome(env, headers, idx, body, "ARC-Message-Signature", false);
      MessageVerdict(env, headers, idx, body) ==
      if exists k :: 0 <= k < |out.names| && ForbiddenName(out.names[k]) then PermError else out.verdict
  {
    var out := OneOutcome(env, headers, idx, body, "ARC-Message-Signature", false);
    CoversMeaning(out.names, |out.names|);
  }

  predicate ForbiddenName(name: string) {
    || EqualFold(name, "Authentication-Results") || EqualFold(name, "ARC-Authentication-Results")
    || EqualFold(name, "ARC-Message-Signature") || EqualFold(name, "ARC-Seal")
  }

  lemma {:induction false} CoversMeaning(names: seq<string>, n: nat)
    requires n <= |names|
    ensures CoversArc(names, n) <==> exists k :: 0 <= k < n && ForbiddenName(names[k])
  {
    if n > 0 {
      CoversMeaning(names, n - 1);
      ResultsNames();
      SignatureNames();
      assert Forbidden(Lower(names[n - 1])) == ForbiddenName(names[n - 1]);
    }
  }

  /** A seal: permerror when a tag is missing, b= is no base64 or there is no key; policy for another
      algorithm, and for an RSA seal without an RSA key of 1024 bits; fail when the key does not
      verify the hash of its input. */
  lemma SealMeaning(env: Env, tags: Tags, input: string)
    ensures var v, a := SealVerdict(env, tags, input), Lower(Get(tags, "a"));
      var domain, selector := Lower(Get(tags, "d")), TrimSpace(Get(tags, "s"));
      var key, signature := env.key(selector, domain), env.base64(NoBlanks(Get(tags, "b")));
      if domain == "" || selector == "" || Get(tags, "b") == "" || Get(tags, "i") == "" || Get(tags, "cv") == "" then
        v == PermError
      else if a != "rsa-sha256" && a != "ed25519-sha256" then v == Policy
      else if signature.None? || key.NoKey? then v == PermError
      else if a == "rsa-sha256" && (key.algorithm != Rsa || key.bits < 1024) then v == Policy
      else v == if key.algorithm == (if a == "rsa-sha256" then Rsa else Ed25519) &&
                   env.verify(key, env.hash(input), signature.value) then Pass else Fail
  {
  }
}
