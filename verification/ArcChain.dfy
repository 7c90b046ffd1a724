/** ARC chain verification (pkg/authverify/arc.go), section 5.2 of RFC 8617. */
module ArcChain {
  import opened Text
  import opened Numbers
  import opened Canonical
  import opened TagStrip
  import opened TagList
  import opened HeaderChoice
  import opened SignedHeaders
  import opened Dkim

  // ------------------------------------------------------------ reading the fields

  const MAX_INSTANCE := 50

  type Instance = i: int | 1 <= i <= 50 witness 1

  datatype Kind = ResultsField | MessageField | SealField

  // What one header field is to the chain.
  datatype Mark = NotArc | BadArc | Arc(kind: Kind, instance: Instance)

  datatype Slots = Slots(results: Option<nat>, message: Option<nat>, seal: Option<nat>)

  type Sets = map<Instance, Slots>

  const EMPTY := Slots(None, None, None)

  function KindOf(key: string): Option<Kind> {
    if key == "arc-authentication-results" then Some(ResultsField)
    else if key == "arc-message-signature" then Some(MessageField)
    else if key == "arc-seal" then Some(SealField)
    else None
  }

  function InstanceOf(tags: Tags): Option<Instance> {
    match Atoi(TrimSpace(Get(tags, "i")))
    case Some(n) => if 1 <= n <= MAX_INSTANCE then Some(n) else None
    case None => None
  }

  function MarkOf(f: Field): Mark {
    match KindOf(Key(f.name))
    case None => NotArc
    case Some(kind) =>
      var instance := InstanceOf(Lenient(f.value));
      if instance.None? then BadArc else Arc(kind, instance.value)
  }

  function Marks(headers: seq<Field>): (r: seq<Mark>)
    ensures |r| == |headers|
  {
    seq(|headers|, j requires 0 <= j < |headers| => MarkOf(headers[j]))
  }

  function Slot(s: Slots, kind: Kind): Option<nat> {
    match kind
    case ResultsField => s.results
    case MessageField => s.message
    case SealField => s.seal
  }

  function Fill(s: Slots, kind: Kind, j: nat): Slots {
    match kind
    case ResultsField => s.(results := Some(j))
    case MessageField => s.(message := Some(j))
    case SealField => s.(seal := Some(j))
  }

  function SlotsOf(sets: Sets, i: Instance): Slots {
    if i in sets then sets[i] else EMPTY
  }

  function AddMark(sets: Sets, mark: Mark, j: nat): Option<Sets> {
    match mark
    case NotArc => Some(sets)
    case BadArc => None
    case Arc(kind, i) =>
      if Slot(SlotsOf(sets, i), kind).Some? then None else Some(sets[i := Fill(SlotsOf(sets, i), kind, j)])
  }

  // The sets after the first n fields; None when a field is malformed or repeated.
  function Scan(marks: seq<Mark>, n: nat): Option<Sets>
    requires n <= |marks|
  {
    if n == 0 then Some(map[])
    else
      match Scan(marks, n - 1)
      case None => None
      case Some(sets) => AddMark(sets, marks[n - 1], n - 1)
  }

  function ArcFields(marks: seq<Mark>, n: nat): nat
    requires n <= |marks|
  {
    if n == 0 then 0 else ArcFields(marks, n - 1) + if marks[n - 1].NotArc? then 0 else 1
  }

  lemma {:induction false} RefusedScanStays(marks: seq<Mark>, n: nat, m: nat)
    requires n <= m <= |marks| && Scan(marks, n).None?
    ensures Scan(marks, m).None?
  {
    if n < m { RefusedScanStays(marks, n, m - 1); }
  }

  // ------------------------------------------------------------------- one set

  datatype Detail = Detail(instance: int, domain: string, selector: string, cv: string,
                           message: Verdict, seal: Verdict)

  datatype ArcResult = ArcResult(verdict: Verdict, details: seq<Detail>)

  datatype Progress = Ended(result: ArcResult) | Going(details: seq<Detail>)

  predicate Complete(sets: Sets, i: int, size: nat) {
    1 <= i <= MAX_INSTANCE && i in sets &&
    var s: Slots := sets[i];
    && s.results.Some? && s.results.value < size && s.message.Some? && s.message.value < size
    && s.seal.Some? && s.seal.value < size
  }

  // Whether one of the first n names is forbidden to a message signature.
  predicate CoversArc(names: seq<string>, n: nat)
    requires n <= |names|
  {
    n > 0 && (CoversArc(names, n - 1) || Forbidden(Lower(names[n - 1])))
  }

  predicate Forbidden(name: string) {
    name == "authentication-results" || KindOf(name).Some?
  }

  // The verdict on a set's message signature.
  function MessageVerdict(env: Env, headers: seq<Field>, idx: nat, body: string): Verdict
    requires idx < |headers|
  {
    var out := OneOutcome(env, headers, idx, body, "ARC-Message-Signature", false);
    if CoversArc(out.names, |out.names|) then PermError else out.verdict
  }

  function ExpectedCv(i: int): string {
    if i == 1 then "none" else "pass"
  }

  // The canonical text of a seal as it is verified: b= emptied, no CRLF at the end.
  function OwnSeal(f: Field): string {
    TrimSuffix(CanonicalField(Field(f.name, StripSignature(f.value)), Relaxed), CRLF)
  }

  function OwnSeals(headers: seq<Field>): (r: seq<string>)
    ensures |r| == |headers|
  {
    seq(|headers|, j requires 0 <= j < |headers| => OwnSeal(headers[j]))
  }

  // All three fields of the sets up to n, in order. `texts` are the canonical fields.
  function Sealed(texts: seq<string>, sets: Sets, n: nat): string {
    if n == 0 || n > MAX_INSTANCE then ""
    else
      var s := SlotsOf(sets, n);
      Sealed(texts, sets, n - 1) + TextOr(texts, s.results) + TextOr(texts, s.message) + TextOr(texts, s.seal)
  }

  /** The bytes that the seal of instance i signs. */
  function SealInput(texts: seq<string>, own: seq<string>, sets: Sets, i: Instance): string {
    var s := SlotsOf(sets, i);
    Sealed(texts, sets, i - 1) + TextOr(texts, s.results) + TextOr(texts, s.message) + TextOr(own, s.seal)
  }

  method WriteFieldText(headers: seq<Field>, j: nat, before: string) returns (input: string)
    requires j < |headers|
    ensures input == before + TextOr(Texts(headers, Relaxed), Some(j))
  {
    input := before + CanonicalField(headers[j], Relaxed);
  }

  method WriteOwnSeal(headers: seq<Field>, j: nat, before: string) returns (input: string)
    requires j < |headers|
    ensures input == before + TextOr(OwnSeals(headers), Some(j))
  {
    var value := StripSignature(headers[j].value);
    var line := CanonicalField(Field(headers[j].name, value), Relaxed);
    line := TrimSuffix(line, CRLF);
    input := before + line;
  }

  method WritePair(headers: seq<Field>, sets: Sets, n: Instance, before: string) returns (input: string)
    requires Complete(sets, n, |headers|)
    ensures var texts, s := Texts(headers, Relaxed), SlotsOf(sets, n);
      input == before + TextOr(texts, s.results) + TextOr(texts, s.message)
  {
    input := WriteFieldText(headers, sets[n].results.value, before);
    input := WriteFieldText(headers, sets[n].message.value, input);
  }

  method BuildARCSealInput(headers: seq<Field>, sets: Sets, instance: Instance) returns (input: string)
    requires forall n: int :: 1 <= n <= instance ==> Complete(sets, n, |headers|)
    ensures input == SealInput(Texts(headers, Relaxed), OwnSeals(headers), sets, instance)
  {
    ghost var texts := Texts(headers, Relaxed);
    input := "";
    var n: int := 1;
    while true
      invariant 1 <= n <= instance && input == Sealed(texts, sets, n - 1)
      decreases instance - n
    {
      assert Complete(sets, n, |headers|);
      input := WritePair(headers, sets, n, input);
      if n == instance {
        input := WriteOwnSeal(headers, sets[n].seal.value, input);
        return;
      }
      input := WriteFieldText(headers, sets[n].seal.value, input);
      n := n + 1;
    }
  }

  function SealKeyVerdict(env: Env, algorithm: Algorithm, key: KeyAnswer, input: string, signature: string): Verdict {
    if key.NoKey? then PermError
    else if algorithm == Rsa && (key.algorithm != Rsa || key.bits < MIN_RSA_BITS) then Policy
    else if key.algorithm != algorithm || !env.verify(key, env.hash(input), signature) then Fail
    else Pass
  }

  function SealVerdict(env: Env, tags: Tags, input: string): Verdict {
    var domain, selector := Lower(Get(tags, "d")), TrimSpace(Get(tags, "s"));
    var a := Lower(Get(tags, "a"));
    if domain == "" || selector == "" || Get(tags, "b") == "" || Get(tags, "i") == "" || Get(tags, "cv") == ""
    then PermError
    else if a != "rsa-sha256" && a != "ed25519-sha256" then Policy
    else
      match env.base64(NoBlanks(Get(tags, "b")))
      case None => PermError
      case Some(signature) =>
        SealKeyVerdict(env, if a == "rsa-sha256" then Rsa else Ed25519, env.key(selector, domain), input, signature)
  }

  // One turn of the walk over the sets; `last` marks the newest one.
  function CheckSet(env: Env, headers: seq<Field>, sets: Sets, body: string, i: int, last: bool,
                    details: seq<Detail>): Progress {
    if !Complete(sets, i, |headers|) then Ended(ArcResult(PermError, details))
    else
      match Strict(headers[sets[i].seal.value].value)
      case None => Ended(ArcResult(PermError, details))
      case Some(tags) => CheckTags(env, headers, sets, body, i, last, details, tags)
  }

  function CheckTags(env: Env, headers: seq<Field>, sets: Sets, body: string, i: int, last: bool, details: seq<Detail>,
                     tags: Tags): Progress
    requires Complete(sets, i, |headers|)
  {
    var detail := Detail(i, Lower(Get(tags, "d")), Get(tags, "s"), Lower(Get(tags, "cv")), NoResult, NoResult);
    if detail.cv != ExpectedCv(i) then Ended(ArcResult(Fail, details + [detail]))
    else
      var message := MessageVerdict(env, headers, sets[i].message.value, body);
      var detail := detail.(message := message);
      if message != Pass && last then Ended(ArcResult(message, details + [detail]))
      else
        var seal := SealVerdict(env, tags, SealInput(Texts(headers, Relaxed), OwnSeals(headers), sets, i));
        var details := details + [detail.(seal := seal)];
        if seal != Pass then Ended(ArcResult(seal, details)) else Going(details)
  }

  // What CheckSet says, for the sets of one message.
  function Checker(env: Env, headers: seq<Field>, sets: Sets, body: string): (int, seq<Detail>) -> Progress {
    (i, details) => CheckSet(env, headers, sets, body, i, i == |sets|, details)
  }

  // The walk over instances 1..k.
  function Walked(check: (int, seq<Detail>) -> Progress, k: nat): Progress {
    if k == 0 then Going([])
    else
      match Walked(check, k - 1)
      case Ended(r) => Ended(r)
      case Going(details) => check(k, details)
  }

  function WalkResult(p: Progress): ArcResult {
    match p
    case Ended(r) => r
    case Going(details) => ArcResult(Pass, details)
  }

  function ArcOf(env: Env, headers: seq<Field>, body: string): ArcResult {
    var marks := Marks(headers);
    match Scan(marks, |marks|)
    case None => ArcResult(PermError, [])
    case Some(sets) =>
      if ArcFields(marks, |marks|) == 0 then ArcResult(NoResult, [])
      else if |Positions(headers, "from")| != 1 then ArcResult(PermError, [])
      else if !env.enabled then ArcResult(TempError, [])
      else WalkResult(Walked(Checker(env, headers, sets, body), |sets|))
  }

  // ------------------------------------------------------------------ the methods

  lemma {:induction false} EndedStays(check: (int, seq<Detail>) -> Progress, k: nat, n: nat)
    requires k <= n && Walked(check, k).Ended?
    ensures Walked(check, n) == Walked(check, k)
  {
    if k < n { EndedStays(check, k, n - 1); }
  }

  // Every turn of a walk that is still going said to go on.
  lemma {:induction false} WalkedTurn(check: (int, seq<Detail>) -> Progress, k: nat, i: int)
    returns (details: seq<Detail>)
    requires Walked(check, k).Going? && 1 <= i <= k
    ensures check(i, details).Going?
  {
    if i < k { details := WalkedTurn(check, k - 1, i); } else { details := Walked(check, k - 1).details; }
  }

  lemma {:induction false} EndedTurn(check: (int, seq<Detail>) -> Progress, k: nat)
    returns (i: int, details: seq<Detail>)
    requires Walked(check, k).Ended?
    ensures 1 <= i <= k && check(i, details) == Walked(check, k)
  {
    if Walked(check, k - 1).Ended? {
      i, details := EndedTurn(check, k - 1);
    } else {
      i, details := k, Walked(check, k - 1).details;
    }
  }

  method ScanFields(headers: seq<Field>) returns (sets: Option<Sets>, arcFields: nat)
    ensures sets == Scan(Marks(headers), |headers|)
    ensures sets.Some? ==> arcFields == ArcFields(Marks(headers), |headers|)
  {
    ghost var marks := Marks(headers);
    var found: Sets := map[];
    arcFields := 0;
    var j := 0;
    while j < |headers|
      invariant j <= |headers| && Scan(marks, j) == Some(found) && arcFields == ArcFields(marks, j)
    {
      var next := OneField(found, headers[j], j);
      arcFields := arcFields + if MarkOf(headers[j]).NotArc? then 0 else 1;
      j := j + 1;
      if next.None? {
        RefusedScanStays(marks, j, |headers|);
        return None, arcFields;
      }
      found := next.value;
    }
    return Some(found), arcFields;
  }

  method OneField(sets: Sets, f: Field, j: nat) returns (next: Option<Sets>)
    ensures next == AddMark(sets, MarkOf(f), j)
  {
    var kind := KindOf(Key(f.name));
    if kind.None? { return Some(sets); }
    var tags := ParseLenient(f.value);
    var instance := InstanceOf(tags);
    if instance.None? { return None; }
    var set_ := SlotsOf(sets, instance.value);
    if Slot(set_, kind.value).Some? { return None; }
    return Some(sets[instance.value := Fill(set_, kind.value, j)]);
  }

  method MessageSignature(env: Env, headers: seq<Field>, idx: nat, body: string) returns (verdict: Verdict)
    requires idx < |headers|
    ensures verdict == MessageVerdict(env, headers, idx, body)
  {
    var out := VerifyOne(env, headers, idx, body, "ARC-Message-Signature", false);
    verdict := out.verdict;
    var k := 0;
    while k < |out.names|
      invariant k <= |out.names| && verdict == if CoversArc(out.names, k) then PermError else out.verdict
    {
      if Forbidden(Lower(out.names[k])) {
        verdict := PermError;
      }
      k := k + 1;
    }
  }

  method OneSet(env: Env, headers: seq<Field>, sets: Sets, body: string, i: int, details: seq<Detail>)
    returns (p: Progress)
    requires forall n: int :: 1 <= n < i ==> Complete(sets, n, |headers|)
    ensures p == CheckSet(env, headers, sets, body, i, i == |sets|, details)
  {
    if !Complete(sets, i, |headers|) { return Ended(ArcResult(PermError, details)); }
    var tags := ParseStrict(headers[sets[i].seal.value].value);
    if tags.None? { return Ended(ArcResult(PermError, details)); }
    p := OneSetTags(env, headers, sets, body, i, i == |sets|, details, tags.value);
  }

  method OneSetTags(env: Env, headers: seq<Field>, sets: Sets, body: string, i: int, last: bool, details: seq<Detail>,
                    tags: Tags) returns (p: Progress)
    requires forall n: int :: 1 <= n <= i ==> Complete(sets, n, |headers|)
    requires Complete(sets, i, |headers|)
    ensures p == CheckTags(env, headers, sets, body, i, last, details, tags)
  {
    var detail := Detail(i, Lower(Get(tags, "d")), Get(tags, "s"), Lower(Get(tags, "cv")), NoResult, NoResult);
    if detail.cv != ExpectedCv(i) { return Ended(ArcResult(Fail, details + [detail])); }
    var message := MessageSignature(env, headers, sets[i].message.value, body);
    detail := detail.(message := message);
    if message != Pass && last { return Ended(ArcResult(message, details + [detail])); }
    var input := BuildARCSealInput(headers, sets, i);
    var seal := SealVerdict(env, tags, input);
    detail := detail.(seal := seal);
    if seal != Pass { return Ended(ArcResult(seal, details + [detail])); }
    return Going(details + [detail]);
  }

  lemma TurnComplete(env: Env, headers: seq<Field>, sets: Sets, body: string, k: nat, i: int)
    requires Walked(Checker(env, headers, sets, body), k).Going? && 1 <= i <= k
    ensures Complete(sets, i, |headers|)
  {
    var details := WalkedTurn(Checker(env, headers, sets, body), k, i);
    SetChecked(env, headers, sets, body, i, details);
  }

  method NextSet(env: Env, headers: seq<Field>, sets: Sets, body: string, k: nat, details: seq<Detail>)
    returns (p: Progress)
    requires Walked(Checker(env, headers, sets, body), k) == Going(details)
    ensures p == Checker(env, headers, sets, body)(k + 1, details)
  {
    forall n: int | 1 <= n <= k ensures Complete(sets, n, |headers|) {
      TurnComplete(env, headers, sets, body, k, n);
    }
    p := OneSet(env, headers, sets, body, k + 1, details);
    CheckerIs(env, headers, sets, body, k + 1, details);
  }

  method WalkSets(env: Env, headers: seq<Field>, sets: Sets, body: string) returns (r: ArcResult)
    ensures r == WalkResult(Walked(Checker(env, headers, sets, body), |sets|))
  {
    ghost var check := Checker(env, headers, sets, body);
    var details: seq<Detail> := [];
    var k := 0;
    while k < |sets|
      invariant k <= |sets| && Walked(check, k) == Going(details)
    {
      var p := NextSet(env, headers, sets, body, k, details);
      k := k + 1;
      if p.Ended? {
        EndedStays(check, k, |sets|);
        return p.result;
      }
      details := p.details;
    }
    return ArcResult(Pass, details);
  }

  method VerifyARC(env: Env, headers: seq<Field>, body: string) returns (r: ArcResult)
    ensures r == ArcOf(env, headers, body)
  {
    var sets, arcFields := ScanFields(headers);
    if sets.None? { return ArcResult(PermError, []); }
    if arcFields == 0 { return ArcResult(NoResult, []); }
    var from := FieldPositions(headers, "From");
    FieldNames();
    if |from| != 1 { return ArcResult(PermError, []); }
    if !env.enabled { return ArcResult(TempError, []); }
    r := WalkSets(env, headers, sets.value, body);
  }

  // ------------------------------------------------------------- what a pass means

  // Each filled slot is a field of that kind and instance, and each such field fills it.
  ghost predicate Exact(sets: Sets, marks: seq<Mark>, n: nat)
    requires n <= |marks|
  {
    forall i: Instance, kind: Kind, j: nat ::
      Slot(SlotsOf(sets, i), kind) == Some(j) <==> j < n && marks[j] == Arc(kind, i)
  }

  lemma {:induction false} ScanIsExact(marks: seq<Mark>, n: nat)
    requires n <= |marks| && Scan(marks, n).Some?
    ensures Exact(Scan(marks, n).value, marks, n)
  {
    if n > 0 {
      ScanIsExact(marks, n - 1);
      ExactStep(Scan(marks, n - 1).value, marks, n - 1);
    }
  }

  lemma ExactStep(sets: Sets, marks: seq<Mark>, n: nat)
    requires n < |marks| && Exact(sets, marks, n) && AddMark(sets, marks[n], n).Some?
    ensures Exact(AddMark(sets, marks[n], n).value, marks, n + 1)
  {
    var next := AddMark(sets, marks[n], n).value;
    forall i: Instance, kind: Kind, j: nat
      ensures Slot(SlotsOf(next, i), kind) == Some(j) <==> j < n + 1 && marks[j] == Arc(kind, i)
    {
      assert Slot(SlotsOf(sets, i), kind) == Some(j) <==> j < n && marks[j] == Arc(kind, i);
    }
  }

  lemma {:induction false} OneToN(n: nat) returns (s: set<Instance>)
    requires n <= MAX_INSTANCE
    ensures |s| == n && forall i: Instance :: i in s <==> i <= n
  {
    if n == 0 {
      s := {};
    } else {
      var t := OneToN(n - 1);
      s := t + {n};
    }
  }

  lemma {:induction false} SubsetSize(a: set<Instance>, b: set<Instance>)
    requires a <= b
    ensures |a| <= |b| && (|a| == |b| ==> a == b)
  {
    if a != {} {
      var x :| x in a;
      SubsetSize(a - {x}, b - {x});
      assert a == (a - {x}) + {x} && b == (b - {x}) + {x};
    }
  }

  // The pigeonhole: the counting loop found each of 1..|sets|, so there is nothing else.
  lemma CountedInstances(sets: Sets)
    requires |sets| <= MAX_INSTANCE ==> forall i: Instance :: i <= |sets| ==> i in sets
    ensures |sets| <= MAX_INSTANCE && forall i: Instance :: i in sets <==> i <= |sets|
  {
    var full := OneToN(MAX_INSTANCE);
    SubsetSize(sets.Keys, full);
    var s := OneToN(|sets|);
    SubsetSize(s, sets.Keys);
    assert |sets| == |sets.Keys|;
  }

  ghost predicate SetPassed(env: Env, headers: seq<Field>, sets: Sets, body: string, i: int) {
    Complete(sets, i, |headers|) &&
    var tags := Strict(headers[sets[i].seal.value].value);
    && tags.Some? && Lower(Get(tags.value, "cv")) == (if i == 1 then "none" else "pass")
    && SealVerdict(env, tags.value, SealInput(Texts(headers, Relaxed), OwnSeals(headers), sets, i)) == Pass
    && (i == |sets| ==> MessageVerdict(env, headers, sets[i].message.value, body) == Pass)
  }

  lemma CheckerIs(env: Env, headers: seq<Field>, sets: Sets, body: string, i: int, details: seq<Detail>)
    ensures Checker(env, headers, sets, body)(i, details) == CheckSet(env, headers, sets, body, i, i == |sets|, details)
  {
  }

  lemma CheckSetMeans(env: Env, headers: seq<Field>, sets: Sets, body: string, i: int, details: seq<Detail>)
    ensures var p := CheckSet(env, headers, sets, body, i, i == |sets|, details);
      (p.Going? <==> SetPassed(env, headers, sets, body, i)) && (p.Ended? ==> p.result.verdict != Pass)
  {
  }

  lemma SetChecked(env: Env, headers: seq<Field>, sets: Sets, body: string, i: int, details: seq<Detail>)
    ensures var p := Checker(env, headers, sets, body)(i, details);
      (p.Going? <==> SetPassed(env, headers, sets, body, i)) && (p.Ended? ==> p.result.verdict != Pass)
  {
    CheckerIs(env, headers, sets, body, i, details);
    CheckSetMeans(env, headers, sets, body, i, details);
  }

  lemma WalkPassed(env: Env, headers: seq<Field>, sets: Sets, body: string)
    requires WalkResult(Walked(Checker(env, headers, sets, body), |sets|)).verdict == Pass
    ensures forall i: int :: 1 <= i <= |sets| ==> SetPassed(env, headers, sets, body, i)
  {
    var check := Checker(env, headers, sets, body);
    if Walked(check, |sets|).Ended? {
      var i, details := EndedTurn(check, |sets|);
      SetChecked(env, headers, sets, body, i, details);
    } else {
      forall i: int | 1 <= i <= |sets| ensures SetPassed(env, headers, sets, body, i) {
        var details := WalkedTurn(check, |sets|, i);
        SetChecked(env, headers, sets, body, i, details);
      }
    }
  }

  ghost predicate Chain(env: Env, headers: seq<Field>, sets: Sets, body: string) {
    && 1 <= |sets| <= MAX_INSTANCE
    && (forall i: Instance :: i in sets <==> i <= |sets|)
    && (forall i: int :: 1 <= i <= |sets| ==> SetPassed(env, headers, sets, body, i))
    && Exact(sets, Marks(headers), |headers|)
  }

  /** A pass: the instances are exactly 1..n with n at most 50, each with one field of each kind and
      no ARC field besides; cv is none in the first seal and pass in all others; every seal verified
      over the sets up to its own;
      the newest message signature passed, and the one From field is among the bytes it signs. */
  lemma ArcPassMeans(env: Env, headers: seq<Field>, body: string) returns (sets: Sets)
    requires ArcOf(env, headers, body).verdict == Pass
    ensures env.enabled && Scan(Marks(headers), |headers|) == Some(sets) && Chain(env, headers, sets, body)
    ensures ArcFields(Marks(headers), |headers|) == 3 * |sets|
    ensures NewestCoversFrom(env, headers, sets)
  {
    var marks := Marks(headers);
    sets := Scan(marks, |marks|).value;
    WalkPassed(env, headers, sets, body);
    ScanIsExact(marks, |marks|);
    assert forall i: int :: 1 <= i <= |sets| ==> SetPassed(env, headers, sets, body, i) ==> i in sets.Keys;
    CountedInstances(sets);
    ChainNotEmpty(marks, sets);
    ChainIsCounted(env, headers, sets, body);
    NewestPassed(env, headers, sets, body);
  }

  /** And that is all there is to it: a message passes exactly when there is a resolver, it has one
      From field, its ARC fields are well formed and not repeated, and they make such a chain. */
  lemma ArcPassExactly(env: Env, headers: seq<Field>, body: string)
    ensures ArcOf(env, headers, body).verdict == Pass <==>
      && env.enabled && |Positions(headers, "from")| == 1
      && Scan(Marks(headers), |headers|).Some?
      && Chain(env, headers, Scan(Marks(headers), |headers|).value, body)
  {
    if ArcOf(env, headers, body).verdict == Pass {
      var sets := ArcPassMeans(env, headers, body);
    }
    if Scan(Marks(headers), |headers|).Some? && Chain(env, headers, Scan(Marks(headers), |headers|).value, body) {
      ChainIsCounted(env, headers, Scan(Marks(headers), |headers|).value, body);
      ChainWalks(env, headers, Scan(Marks(headers), |headers|).value, body, |Scan(Marks(headers), |headers|).value|);
    }
  }

  lemma ChainIsCounted(env: Env, headers: seq<Field>, sets: Sets, body: string)
    requires Scan(Marks(headers), |headers|) == Some(sets) && Chain(env, headers, sets, body)
    ensures ArcFields(Marks(headers), |headers|) == 3 * |sets| > 0
  {
    forall i: Instance | i <= |sets| ensures Complete(sets, i, |headers|) {
      assert SetPassed(env, headers, sets, body, i);
    }
    CountFields(sets, Marks(headers), |sets|);
  }

  lemma {:induction false} ChainWalks(env: Env, headers: seq<Field>, sets: Sets, body: string, k: nat)
    requires Chain(env, headers, sets, body) && k <= |sets|
    ensures Walked(Checker(env, headers, sets, body), k).Going?
  {
    if k > 0 {
      ChainWalks(env, headers, sets, body, k - 1);
      SetChecked(env, headers, sets, body, k, Walked(Checker(env, headers, sets, body), k - 1).details);
    }
  }

  ghost predicate NewestCoversFrom(env: Env, headers: seq<Field>, sets: Sets) {
    Complete(sets, |sets|, |headers|) && |Positions(headers, "from")| == 1 &&
    var idx, i := sets[|sets|].message.value, Positions(headers, "from")[0];
    var p := Prepare(env, headers[idx].value, false);
    && p.Go? && i < |headers|
    && Vouched(env, headers, idx, "ARC-Message-Signature", p.plan, CanonicalField(headers[i], p.plan.headerMode))
  }

  lemma NewestPassed(env: Env, headers: seq<Field>, sets: Sets, body: string)
    requires Chain(env, headers, sets, body) && |Positions(headers, "from")| == 1
    ensures NewestCoversFrom(env, headers, sets)
  {
    var n := |sets|;
    assert SetPassed(env, headers, sets, body, n);
    var idx := sets[n].message.value;
    NewestIsNotFrom(headers, sets, n);
    PassCoversFrom(env, headers, idx, body, "ARC-Message-Signature", false);
  }

  lemma NewestIsNotFrom(headers: seq<Field>, sets: Sets, n: int)
    requires Exact(sets, Marks(headers), |headers|) && Complete(sets, n, |headers|)
    ensures Key(headers[sets[n].message.value].name) != "from"
  {
    var idx := sets[n].message.value;
    assert Slot(SlotsOf(sets, n), MessageField) == Some(idx);
    assert Marks(headers)[idx] == MarkOf(headers[idx]);
  }

  lemma ChainNotEmpty(marks: seq<Mark>, sets: Sets)
    requires ArcFields(marks, |marks|) > 0 && Exact(sets, marks, |marks|) && Scan(marks, |marks|).Some?
    ensures |sets| > 0
  {
    var j := FirstArc(marks, |marks|);
    match marks[j]
    case Arc(kind, i) =>
      assert Slot(SlotsOf(sets, i), kind) == Some(j);
      assert i in sets.Keys;
    case NotArc =>
    case BadArc => BadIsRefused(marks, j, |marks|);
  }

  lemma {:induction false} FirstArc(marks: seq<Mark>, n: nat) returns (j: nat)
    requires n <= |marks| && ArcFields(marks, n) > 0
    ensures j < n && !marks[j].NotArc?
  {
    if marks[n - 1].NotArc? { j := FirstArc(marks, n - 1); } else { j := n - 1; }
  }

  lemma BadIsRefused(marks: seq<Mark>, j: nat, n: nat)
    requires j < n <= |marks| && marks[j].BadArc?
    ensures Scan(marks, n).None?
  {
    RefusedScanStays(marks, j + 1, n);
  }

  // ------------------------------------------------------------ counting the fields

  function ArcSet(marks: seq<Mark>, n: nat): set<nat>
    requires n <= |marks|
  {
    set j: nat | j < n && !marks[j].NotArc?
  }

  lemma {:induction false} ArcSetSize(marks: seq<Mark>, n: nat)
    requires n <= |marks|
    ensures |ArcSet(marks, n)| == ArcFields(marks, n)
  {
    if n > 0 {
      ArcSetSize(marks, n - 1);
      assert ArcSet(marks, n) == ArcSet(marks, n - 1) + if marks[n - 1].NotArc? then {} else {n - 1};
    }
  }

  // The positions of the fields of instances 1..n.
  function FieldsOfSets(sets: Sets, n: nat): set<nat>
    requires n <= MAX_INSTANCE
  {
    if n == 0 then {} else FieldsOfSets(sets, n - 1) + FieldsOf(SlotsOf(sets, n))
  }

  function FieldsOf(s: Slots): set<nat> {
    Single(s.results) + Single(s.message) + Single(s.seal)
  }

  function Single(j: Option<nat>): set<nat> {
    if j.Some? then {j.value} else {}
  }

  lemma {:induction false} FieldsMember(sets: Sets, n: nat, j: nat)
    requires n <= MAX_INSTANCE
    ensures j in FieldsOfSets(sets, n) <==>
            exists i: Instance, kind: Kind :: i <= n && Slot(SlotsOf(sets, i), kind) == Some(j)
  {
    if n > 0 {
      FieldsMember(sets, n - 1, j);
      var s := SlotsOf(sets, n);
      if j in FieldsOf(s) {
        var kind :=
          if s.results == Some(j) then ResultsField else if s.message == Some(j) then MessageField else SealField;
        assert Slot(SlotsOf(sets, n), kind) == Some(j);
      }
    }
  }

  lemma {:induction false} FieldsOfSetsSize(sets: Sets, marks: seq<Mark>, n: nat)
    requires n <= MAX_INSTANCE && Exact(sets, marks, |marks|)
    requires forall i: Instance :: i <= n ==> Complete(sets, i, |marks|)
    ensures |FieldsOfSets(sets, n)| == 3 * n
  {
    if n > 0 {
      FieldsOfSetsSize(sets, marks, n - 1);
      OneMoreSet(sets, marks, n);
    }
  }

  lemma OneMoreSet(sets: Sets, marks: seq<Mark>, n: Instance)
    requires Exact(sets, marks, |marks|) && Complete(sets, n, |marks|)
    ensures |FieldsOfSets(sets, n)| == |FieldsOfSets(sets, n - 1)| + 3
  {
    OneSetSize(sets, marks, n);
    SetAddsFields(sets, marks, n);
    DisjointSizes(FieldsOfSets(sets, n - 1), FieldsOf(SlotsOf(sets, n)));
  }

  lemma SetAddsFields(sets: Sets, marks: seq<Mark>, n: Instance)
    requires Exact(sets, marks, |marks|)
    ensures forall j | j in FieldsOf(SlotsOf(sets, n)) :: j !in FieldsOfSets(sets, n - 1)
  {
    forall j | j in FieldsOf(SlotsOf(sets, n)) ensures j !in FieldsOfSets(sets, n - 1) {
      FieldsMember(sets, n - 1, j);
      NewField(sets, marks, n, j);
    }
  }

  lemma NewField(sets: Sets, marks: seq<Mark>, n: Instance, j: nat)
    requires Exact(sets, marks, |marks|) && j in FieldsOf(SlotsOf(sets, n))
    ensures forall i: Instance, kind: Kind :: Slot(SlotsOf(sets, i), kind) == Some(j) ==> i == n
  {
    var s := SlotsOf(sets, n);
    var kind := if s.results == Some(j) then ResultsField else if s.message == Some(j) then MessageField else SealField;
    assert Slot(s, kind) == Some(j);
    assert marks[j] == Arc(kind, n);
  }

  lemma DisjointSizes(a: set<nat>, b: set<nat>)
    requires forall j | j in b :: j !in a
    ensures |a + b| == |a| + |b|
  {
    assert a !! b;
  }

  lemma OneSetSize(sets: Sets, marks: seq<Mark>, n: Instance)
    requires Exact(sets, marks, |marks|) && Complete(sets, n, |marks|)
    ensures |FieldsOf(SlotsOf(sets, n))| == 3
  {
    var s := SlotsOf(sets, n);
    assert Slot(s, ResultsField) == s.results && Slot(s, MessageField) == s.message && Slot(s, SealField) == s.seal;
    assert marks[s.results.value] == Arc(ResultsField, n) && marks[s.message.value] == Arc(MessageField, n);
    assert marks[s.seal.value] == Arc(SealField, n);
    assert FieldsOf(s) == {s.results.value, s.message.value, s.seal.value};
  }

  lemma CountFields(sets: Sets, marks: seq<Mark>, n: nat)
    requires n <= MAX_INSTANCE && Exact(sets, marks, |marks|) && Scan(marks, |marks|).Some?
    requires forall i: Instance :: i in sets <==> i <= n
    requires forall i: Instance :: i <= n ==> Complete(sets, i, |marks|)
    ensures ArcFields(marks, |marks|) == 3 * n
  {
    FieldsOfSetsSize(sets, marks, n);
    ArcSetSize(marks, |marks|);
    forall j: nat ensures j in ArcSet(marks, |marks|) <==> j in FieldsOfSets(sets, n) {
      FieldsMember(sets, n, j);
      ArcMember(sets, marks, n, j);
    }
    assert ArcSet(marks, |marks|) == FieldsOfSets(sets, n);
  }

  lemma ArcMember(sets: Sets, marks: seq<Mark>, n: nat, j: nat)
    requires Exact(sets, marks, |marks|) && Scan(marks, |marks|).Some?
    requires forall i: Instance :: i in sets <==> i <= n
    ensures j in ArcSet(marks, |marks|) <==>
            exists i: Instance, kind: Kind :: i <= n && Slot(SlotsOf(sets, i), kind) == Some(j)
  {
    if j in ArcSet(marks, |marks|) {
      if marks[j].BadArc? { BadIsRefused(marks, j, |marks|); }
      var kind, i := marks[j].kind, marks[j].instance;
      assert Slot(SlotsOf(sets, i), kind) == Some(j);
      assert i in sets;
    }
  }

  /** A seal passes exactly when its tags are all there, its algorithm is allowed, and the published
      key, strong enough, verified the hash of the seal input. */
  lemma SealPassExactly(env: Env, tags: Tags, input: string)
    ensures SealVerdict(env, tags, input) == Pass <==>
      var a := Lower(Get(tags, "a"));
      && Lower(Get(tags, "d")) != "" && TrimSpace(Get(tags, "s")) != ""
      && Get(tags, "b") != "" && Get(tags, "i") != "" && Get(tags, "cv") != ""
      && (a == "rsa-sha256" || a == "ed25519-sha256")
      && KeyVouches(env, TrimSpace(Get(tags, "s")), Lower(Get(tags, "d")), if a == "rsa-sha256" then Rsa else Ed25519,
                    NoBlanks(Get(tags, "b")), input)
  {
  }

  // ---------------------------------------------------------------- what seals cover

  lemma ThreeMore(t: string, before: string, a: string, b: string, c: string)
    requires Within(t, before)
    ensures Within(t, before + a + b + c)
  {
    WithinLonger(t, before, a);
    WithinLonger(t, before + a, b);
    WithinLonger(t, before + a + b, c);
  }

  lemma OneOfThree(before: string, a: string, b: string, c: string)
    ensures var all := before + a + b + c; Within(a, all) && Within(b, all) && Within(c, all)
  {
    WithinEnd(a, before);
    WithinLonger(a, before + a, b);
    WithinLonger(a, before + a + b, c);
    WithinEnd(b, before + a);
    WithinLonger(b, before + a + b, c);
    WithinEnd(c, before + a + b);
  }

  lemma {:induction false} SealedCovers(texts: seq<string>, sets: Sets, n: nat, i: Instance, kind: Kind)
    requires i <= n <= MAX_INSTANCE
    ensures Within(TextOr(texts, Slot(SlotsOf(sets, i), kind)), Sealed(texts, sets, n))
  {
    var s := SlotsOf(sets, n);
    var a, b, c := TextOr(texts, s.results), TextOr(texts, s.message), TextOr(texts, s.seal);
    if i < n {
      SealedCovers(texts, sets, n - 1, i, kind);
      ThreeMore(TextOr(texts, Slot(SlotsOf(sets, i), kind)), Sealed(texts, sets, n - 1), a, b, c);
    } else {
      OneOfThree(Sealed(texts, sets, n - 1), a, b, c);
    }
  }

  /** Each seal signs every field of every earlier set, those sets' seals and signatures included. */
  lemma SealCoversEarlier(texts: seq<string>, own: seq<string>, sets: Sets, i: Instance, k: Instance, kind: Kind)
    requires k < i
    ensures Within(TextOr(texts, Slot(SlotsOf(sets, k), kind)), SealInput(texts, own, sets, i))
  {
    var s := SlotsOf(sets, i);
    SealedCovers(texts, sets, i - 1, k, kind);
    ThreeMore(TextOr(texts, Slot(SlotsOf(sets, k), kind)), Sealed(texts, sets, i - 1),
              TextOr(texts, s.results), TextOr(texts, s.message), TextOr(own, s.seal));
  }
}
