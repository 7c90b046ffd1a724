/** SPF evaluation (pkg/authverify/spf.go; RFC 7208). */
module Spf {
  // `CheckHost` below is the reference: the evaluation of section 4 with no processing limit,
  // which also counts what it would spend. `SpfEvaluator` is the source's evaluator with its
  // mutable budgets. The evaluator's answer is the reference's answer when the reference
  // stays inside the limits of section 4.6.4, and permerror in every other case.

  import opened Text
  import M = SpfMacro

  datatype Verdict = NoRecord | Neutral | Pass | Fail | Softfail | TempError | PermError

  const MAX_LOOKUPS := 10
  const MAX_VOID := 2
  const MAX_REDIRECTS := 10
  const MAX_RECORD := 4096
  const MAX_MX_HOSTS := 10

  // The zone, the client, and the address library as seen by one evaluation.
  // A failed query is an empty answer: the resolver drops the error.
  datatype Env = Env(
    txt: string -> seq<string>,
    host: string -> seq<string>,
    mx: string -> seq<string>,
    ptr: seq<string>,                        // reverse names of the client
    ipIsV4: bool,
    expand: (string, string) -> Option<string>,   // macro expansion for the current domain
    parseCidr: string -> Option<bool>,       // None: not a CIDR; Some(client inside)
    parseAddr: string -> Option<bool>,       // None: not an address; Some(equals the client)
    covers: (string, nat, nat) -> bool,      // same family, and client inside address/length
    scanInt: string -> Option<int>)          // Sscanf "%d"

  datatype Outcome = Outcome(verdict: Verdict, mechanism: string, record: string)

  // ------------------------------------------------------------ record and terms

  datatype Fetch = Record(text: string) | NothingFound | Oversize | Several

  function SpfRecords(records: seq<string>): seq<string> {
    if records == [] then []
    else (if HasPrefix(Lower(records[0]), "v=spf1") then [records[0]] else []) + SpfRecords(records[1..])
  }

  predicate IsOversize(record: string) {
    |record| > MAX_RECORD
  }

  function Txt(env: Env, domain: string): seq<string> {
    if domain == "" then [] else env.txt(domain)
  }

  function Hosts(env: Env, name: string): seq<string> {
    if name == "" then [] else env.host(name)
  }

  function Exchangers(env: Env, domain: string): seq<string> {
    if domain == "" then [] else env.mx(domain)
  }

  function FetchRecord(env: Env, domain: string): Fetch {
    var records := Txt(env, domain);
    if exists r :: r in records && IsOversize(r) then Oversize
    else
      var found := SpfRecords(records);
      if found == [] then NothingFound else if |found| == 1 then Record(found[0]) else Several
  }

  datatype Kind = All | Ip4 | Ip6 | A | Mx | Include | Exists | Ptr | Unknown

  function KindOf(name: string): Kind {
    match name
    case "all" => All
    case "ip4" => Ip4
    case "ip6" => Ip6
    case "a" => A
    case "mx" => Mx
    case "include" => Include
    case "exists" => Exists
    case "ptr" => Ptr
    case _ => Unknown
  }

  datatype Term =
    | Redirect(value: string)
    | Ignored                                // exp= and every modifier not defined here
    | Mechanism(qualifier: char, kind: Kind, value: string, body: string)

  // name=value is a modifier; anything else is [qualifier]name[:value] or name/value.
  function ParseTerm(term: string): Term {
    var eq := Find(term, '=');
    if term == "" then Ignored
    else if 0 < eq < |term| && ':' !in term[..eq] && '/' !in term[..eq] then
      (if Lower(term[..eq]) == "redirect" then Redirect(term[eq + 1..]) else Ignored)
    else
      var qualified := term[0] in "+-~?";
      var body := if qualified then term[1..] else term;
      var colon, slash := Find(body, ':'), Find(body, '/');
      var (name, value) :=
        if colon < |body| then (body[..colon], body[colon + 1..])
        else if slash < |body| then (body[..slash], body[slash..])
        else (body, "");
      Mechanism(if qualified then term[0] else '+', KindOf(Lower(name)), value, body)
  }

  function QualifierVerdict(q: char): Verdict {
    if q == '-' then Fail else if q == '~' then Softfail else if q == '?' then Neutral else Pass
  }

  function Clamp(n: Option<int>, max: nat): nat {
    if n.None? || n.value < 0 || n.value > max then max else n.value
  }

  // The argument of a and mx: [domain][/v4len][//v6len].
  function Target(env: Env, value: string, domain: string): Option<(string, nat, nat)> {
    var double := FindDouble(value);
    var v6 := if double < |value| then env.scanInt(value[double + 2..]) else None;
    var rest := value[..double];
    var slash := Find(rest, '/');
    var v4 := if slash < |rest| then env.scanInt(rest[slash + 1..]) else None;
    var name := TrimSpace(rest[..slash]);
    if name == "" then Some((domain, Clamp(v4, 32), Clamp(v6, 128)))
    else
      match env.expand(name, domain)
      case None => None
      case Some(t) => Some((Lower(t), Clamp(v4, 32), Clamp(v6, 128)))
  }

  // The first "//", or |s|.
  function FindDouble(s: string): (i: nat)
    ensures i <= |s| && (i < |s| ==> i + 2 <= |s|)
  {
    if |s| < 2 then |s|
    else if s[0] == '/' && s[1] == '/' then 0
    else 1 + FindDouble(s[1..])
  }

  predicate AnyCovers(env: Env, addrs: seq<string>, v4: nat, v6: nat) {
    exists a :: a in addrs && env.covers(a, v4, v6)
  }

  predicate AnyHostCovers(env: Env, hosts: seq<string>, v4: nat, v6: nat) {
    exists h :: h in hosts && AnyCovers(env, Hosts(env, h), v4, v6)
  }

  predicate PtrConfirmed(env: Env, name: string, target: string) {
    var n := TrimSuffix(Lower(name), ".");
    && (n == target || HasSuffix(n, "." + target))
    && exists a :: a in Hosts(env, n) && env.parseAddr(a) == Some(true)
  }

  predicate AnyConfirmed(env: Env, target: string) {
    exists n :: n in env.ptr && PtrConfirmed(env, n, target)
  }

  // ------------------------------------------- the reference: no limits, counted

  // `cost` DNS-querying terms and `voids` empty answers were spent reaching `out`.
  datatype Ref = Ref(out: Outcome, cost: nat, voids: nat)
  datatype Hit = Matched | Unmatched | Broken(verdict: Verdict)
  datatype HitRef = HitRef(hit: Hit, cost: nat, voids: nat)

  function Void<T>(answers: seq<T>): nat {
    if answers == [] then 1 else 0
  }

  function MatchIP(env: Env, kind: Kind, value: string): Hit {
    if value == "" then Broken(PermError)
    else if (kind == Ip4) != env.ipIsV4 then Unmatched
    else
      var r := if '/' in value then env.parseCidr(value) else env.parseAddr(value);
      match r
      case None => Broken(PermError)
      case Some(inside) => if inside then Matched else Unmatched
  }

  // include and exists: the expanded name, or nothing when it is malformed or empty.
  function NamedTarget(env: Env, value: string, domain: string): Option<string> {
    match env.expand(value, domain)
    case None => None
    case Some(t) => if Lower(TrimSpace(t)) == "" then None else Some(Lower(TrimSpace(t)))
  }

  function RedirectTarget(env: Env, value: string, domain: string): Option<string> {
    match env.expand(value, domain)
    case None => None
    case Some(t) => Some(Lower(t))
  }

  function PtrTarget(value: string, domain: string): string {
    var t := Lower(TrimSpace(value));
    if t == "" then domain else t
  }

  // Every mechanism that evaluates no other record.
  function Leaf(env: Env, kind: Kind, value: string, domain: string): (r: HitRef)
    requires kind != Include
    ensures r.hit.Broken? ==> r.hit.verdict == PermError
    ensures r.cost <= 1 && r.voids <= r.cost
  {
    match kind
    case All => HitRef(Matched, 0, 0)
    case Ip4 => HitRef(MatchIP(env, kind, value), 0, 0)
    case Ip6 => HitRef(MatchIP(env, kind, value), 0, 0)
    case A =>
      (match Target(env, value, domain)
       case None => HitRef(Broken(PermError), 1, 0)
       case Some((target, v4, v6)) =>
         var addrs := Hosts(env, target);
         HitRef(if AnyCovers(env, addrs, v4, v6) then Matched else Unmatched, 1, Void(addrs)))
    case Mx =>
      (match Target(env, value, domain)
       case None => HitRef(Broken(PermError), 1, 0)
       case Some((target, v4, v6)) =>
         var hosts := Exchangers(env, target);
         if |hosts| > MAX_MX_HOSTS then HitRef(Broken(PermError), 1, 0)
         else HitRef(if AnyHostCovers(env, hosts, v4, v6) then Matched else Unmatched, 1, Void(hosts)))
    case Exists =>
      (match NamedTarget(env, value, domain)
       case None => HitRef(Broken(PermError), 1, 0)
       case Some(target) =>
         var addrs := Hosts(env, target);
         HitRef(if addrs != [] then Matched else Unmatched, 1, Void(addrs)))
    case Ptr =>
      var target := PtrTarget(value, domain);
      HitRef(if AnyConfirmed(env, target) then Matched else Unmatched, 1, 0)
    case Unknown => HitRef(Broken(PermError), 0, 0)
  }

  lemma PtrBill(env: Env, value: string, domain: string)
    ensures Leaf(env, Ptr, value, domain) ==
            HitRef(if AnyConfirmed(env, PtrTarget(value, domain)) then Matched else Unmatched, 1, 0)
  {
  }

  // Section 5.2: what an include makes of the nested verdict.
  function IncludeHit(nested: Verdict): Hit {
    match nested
    case Pass => Matched
    case TempError => Broken(TempError)
    case NoRecord => Broken(PermError)
    case PermError => Broken(PermError)
    case _ => Unmatched
  }

  // The terms of a record, or nothing when its version is not v=spf1.
  function TermsOf(text: string): Option<seq<Term>> {
    var fields := Fields(text);
    if fields == [] || !EqualFold(fields[0], "v=spf1") then None
    else Some(ParseTerms(fields[1..]))
  }

  function ParseTerms(fields: seq<string>): seq<Term> {
    if fields == [] then [] else [ParseTerm(fields[0])] + ParseTerms(fields[1..])
  }

  lemma {:induction false} ParseTermsLength(fields: seq<string>)
    ensures |ParseTerms(fields)| == |fields|
  {
    if fields != [] { ParseTermsLength(fields[1..]); }
  }

  lemma {:induction false} ParseTermsAt(fields: seq<string>, i: nat)
    requires i < |fields|
    ensures |ParseTerms(fields)| == |fields| && ParseTerms(fields)[i] == ParseTerm(fields[i])
  {
    ParseTermsLength(fields);
    if i > 0 { ParseTermsAt(fields[1..], i - 1); }
  }

  // What the recursion over records depends on.
  datatype World = World(
    fetch: string -> Fetch,
    terms: string -> Option<seq<Term>>,
    leaf: (Kind, string, string) --> HitRef,
    includeTarget: (string, string) -> Option<string>,
    redirectTarget: (string, string) -> Option<string>)

  function WorldOf(env: Env): (w: World)
    ensures Sane(w)
  {
    World(d => FetchRecord(env, d),
          text => TermsOf(text),
          (k, v, d) requires k != Include => Leaf(env, k, v, d),
          (v, d) => NamedTarget(env, v, d),
          (v, d) => RedirectTarget(env, v, d))
  }

  ghost predicate Sane(w: World) {
    && (forall k, v, d :: k != Include ==> w.leaf.requires(k, v, d))
    && (forall k, v, d :: k != Include && w.leaf(k, v, d).hit.Broken? ==> w.leaf(k, v, d).hit.verdict == PermError)
  }

  // `depth` bounds nesting; `DepthIrrelevant` shows that it never changes an affordable answer.
  ghost function CheckHost(w: World, domain: string, depth: nat): Ref
    requires Sane(w)
    decreases depth, 3, 0
  {
    if depth == 0 then Ref(Outcome(PermError, "", ""), 0, 0)
    else CheckFetched(w, domain, w.fetch(domain), depth)
  }

  ghost function CheckFetched(w: World, domain: string, found: Fetch, depth: nat): Ref
    requires Sane(w) && depth > 0
    decreases depth, 2, 0
  {
    match found
    case NothingFound => Ref(Outcome(NoRecord, "", ""), 0, 1)
    case Oversize => Ref(Outcome(PermError, "", ""), 0, 0)
    case Several => Ref(Outcome(PermError, "", ""), 0, 0)
    case Record(text) =>
      match w.terms(text)
      case None => Ref(Outcome(PermError, "", text), 0, 0)
      case Some(terms) => CheckTerms(w, domain, text, terms, "", depth)
  }

  ghost function CheckTerms(w: World, domain: string, record: string, terms: seq<Term>, redirect: string,
                            depth: nat): Ref
    requires Sane(w) && depth > 0
    decreases depth, 1, |terms|
  {
    if terms == [] then CheckRedirect(w, domain, record, redirect, depth)
    else
      match terms[0]
      case Redirect(value) => CheckTerms(w, domain, record, terms[1..], value, depth)
      case Ignored => CheckTerms(w, domain, record, terms[1..], redirect, depth)
      case Mechanism(qualifier, kind, value, body) =>
        var m := CheckMechanism(w, kind, value, domain, depth);
        match m.hit
        case Broken(v) => Ref(Outcome(v, body, record), m.cost, m.voids)
        case Matched => Ref(Outcome(QualifierVerdict(qualifier), body, record), m.cost, m.voids)
        case Unmatched =>
          var r := CheckTerms(w, domain, record, terms[1..], redirect, depth);
          Ref(r.out, m.cost + r.cost, m.voids + r.voids)
  }

  // Section 6.1: the target's evaluation, with "none" turned into permerror.
  ghost function CheckRedirect(w: World, domain: string, record: string, redirect: string, depth: nat): Ref
    requires Sane(w) && depth > 0
    decreases depth, 0, 0
  {
    if redirect == "" then Ref(Outcome(Neutral, "", record), 0, 0)
    else
      match w.redirectTarget(redirect, domain)
      case None => Ref(Outcome(PermError, "redirect", record), 0, 0)
      case Some(target) =>
        var r := CheckHost(w, target, depth - 1);
        var out := if r.out.verdict == NoRecord then Outcome(PermError, "redirect", r.out.record) else r.out;
        Ref(out, 1 + r.cost, r.voids)
  }

  ghost function CheckMechanism(w: World, kind: Kind, value: string, domain: string, depth: nat): HitRef
    requires Sane(w) && depth > 0
    decreases depth, 0, 0
  {
    if kind != Include then w.leaf(kind, value, domain)
    else
      match w.includeTarget(value, domain)
      case None => HitRef(Broken(PermError), 1, 0)
      case Some(target) =>
        var r := CheckHost(w, target, depth - 1);
        HitRef(IncludeHit(r.out.verdict), 1 + r.cost, r.voids)
  }

  // ------------------------------------------------------ about the reference

  /** The depth bound is no bound: once it exceeds the cost, every larger one gives the same
      evaluation, and an evaluation that does not fit in it costs at least that much. */
  lemma {:induction false} DepthIrrelevant(w: World, domain: string, n: nat, m: nat)
    requires Sane(w) && n <= m
    ensures CheckHost(w, domain, n).cost < n ==> CheckHost(w, domain, m) == CheckHost(w, domain, n)
    ensures CheckHost(w, domain, n).cost >= n ==> CheckHost(w, domain, m).cost >= n
    decreases n, 2, 0
  {
    var found := w.fetch(domain);
    assert n > 0 ==> CheckHost(w, domain, n) == CheckFetched(w, domain, found, n);
    assert n > 0 ==> CheckHost(w, domain, m) == CheckFetched(w, domain, found, m);
    if n > 0 && found.Record? && w.terms(found.text).Some? {
      var text := w.fetch(domain).text;
      DepthIrrelevantTerms(w, domain, text, w.terms(text).value, "", n, m);
    }
  }

  lemma {:induction false} DepthIrrelevantTerms(w: World, domain: string, record: string, terms: seq<Term>,
                                                redirect: string, n: nat, m: nat)
    requires Sane(w) && 0 < n <= m
    ensures var r := CheckTerms(w, domain, record, terms, redirect, n);
            var s := CheckTerms(w, domain, record, terms, redirect, m);
            (r.cost < n ==> s == r) && (r.cost >= n ==> s.cost >= n)
    decreases n, 1, |terms|
  {
    if terms == [] {
      if redirect != "" && w.redirectTarget(redirect, domain).Some? {
        DepthIrrelevant(w, w.redirectTarget(redirect, domain).value, n - 1, m - 1);
      }
    } else {
      match terms[0]
      case Redirect(value) => DepthIrrelevantTerms(w, domain, record, terms[1..], value, n, m);
      case Ignored => DepthIrrelevantTerms(w, domain, record, terms[1..], redirect, n, m);
      case Mechanism(qualifier, kind, value, body) =>
        if kind == Include && w.includeTarget(value, domain).Some? {
          DepthIrrelevant(w, w.includeTarget(value, domain).value, n - 1, m - 1);
        }
        DepthIrrelevantTerms(w, domain, record, terms[1..], redirect, n, m);
    }
  }

  /** A nested "none" never escapes, and nothing is ever "temperror": the verdict is "none"
      exactly when the root domain itself has no record to evaluate. */
  lemma {:induction false} VerdictRange(w: World, domain: string, depth: nat)
    requires Sane(w) && depth > 0
    ensures CheckHost(w, domain, depth).out.verdict == NoRecord <==> w.fetch(domain) == NothingFound
    ensures CheckHost(w, domain, depth).out.verdict != TempError
    decreases depth, 2, 0
  {
    assert CheckHost(w, domain, depth) == CheckFetched(w, domain, w.fetch(domain), depth);
    if w.fetch(domain).Record? && w.terms(w.fetch(domain).text).Some? {
      var text := w.fetch(domain).text;
      TermsVerdictRange(w, domain, text, w.terms(text).value, "", depth);
    }
  }

  lemma {:induction false} TermsVerdictRange(w: World, domain: string, record: string, terms: seq<Term>,
                                             redirect: string, depth: nat)
    requires Sane(w) && depth > 0
    ensures CheckTerms(w, domain, record, terms, redirect, depth).out.verdict != NoRecord
    ensures CheckTerms(w, domain, record, terms, redirect, depth).out.verdict != TempError
    decreases depth, 1, |terms|
  {
    if terms == [] {
      if redirect != "" && depth > 1 && w.redirectTarget(redirect, domain).Some? {
        VerdictRange(w, w.redirectTarget(redirect, domain).value, depth - 1);
      }
    } else {
      match terms[0]
      case Redirect(value) => TermsVerdictRange(w, domain, record, terms[1..], value, depth);
      case Ignored => TermsVerdictRange(w, domain, record, terms[1..], redirect, depth);
      case Mechanism(qualifier, kind, value, body) =>
        if kind == Include && depth > 1 && w.includeTarget(value, domain).Some? {
          VerdictRange(w, w.includeTarget(value, domain).value, depth - 1);
        }
        TermsVerdictRange(w, domain, record, terms[1..], redirect, depth);
    }
  }

  // However deep it is evaluated, an include of the domain does not match.
  ghost predicate PassedOver(w: World, domain: string)
    requires Sane(w)
  {
    forall n: nat :: CheckHost(w, domain, n).cost < n ==>
      IncludeHit(CheckHost(w, domain, n).out.verdict).Unmatched?
  }

  // Before anything matches, the terms come to an include of a member of the set, or end with a
  // redirect to one.
  ghost predicate LeadsOn(w: World, domain: string, terms: seq<Term>, redirect: string, domains: set<string>)
    requires Sane(w)
  {
    if terms == [] then InSet(if redirect == "" then None else w.redirectTarget(redirect, domain), domains)
    else
      match terms[0]
      case Redirect(value) => LeadsOn(w, domain, terms[1..], value, domains)
      case Ignored => LeadsOn(w, domain, terms[1..], redirect, domains)
      case Mechanism(_, kind, value, _) =>
        if kind == Include then
          var target := w.includeTarget(value, domain);
          InSet(target, domains) ||
          (target.Some? && PassedOver(w, target.value) && LeadsOn(w, domain, terms[1..], redirect, domains))
        else w.leaf(kind, value, domain).hit.Unmatched? && LeadsOn(w, domain, terms[1..], redirect, domains)
  }

  predicate InSet(target: Option<string>, domains: set<string>) {
    target.Some? && target.value in domains
  }

  // Every record of the set leads on to another: an include or redirect cycle, or a mixed one.
  ghost predicate Cycle(w: World, domains: set<string>)
    requires Sane(w)
  {
    forall d | d in domains :: w.fetch(d).Record? && w.terms(w.fetch(d).text).Some? &&
      LeadsOn(w, d, w.terms(w.fetch(d).text).value, "", domains)
  }

  /** Following a cycle costs one term a level, without end. */
  lemma {:induction false} CycleCost(w: World, domains: set<string>, domain: string, depth: nat)
    requires Sane(w) && Cycle(w, domains) && domain in domains
    ensures CheckHost(w, domain, depth).cost >= depth
    decreases depth, 1, 0
  {
    if depth > 0 {
      var text := w.fetch(domain).text;
      CycleTermsCost(w, domains, domain, text, w.terms(text).value, "", depth);
    }
  }

  lemma {:induction false} CycleTermsCost(w: World, domains: set<string>, domain: string, record: string,
                                          terms: seq<Term>, redirect: string, depth: nat)
    requires Sane(w) && Cycle(w, domains) && depth > 0 && LeadsOn(w, domain, terms, redirect, domains)
    ensures CheckTerms(w, domain, record, terms, redirect, depth).cost >= depth
    decreases depth, 0, |terms|
  {
    if terms == [] {
      CycleCost(w, domains, w.redirectTarget(redirect, domain).value, depth - 1);
    } else {
      match terms[0]
      case Redirect(value) => CycleTermsCost(w, domains, domain, record, terms[1..], value, depth);
      case Ignored => CycleTermsCost(w, domains, domain, record, terms[1..], redirect, depth);
      case Mechanism(_, kind, value, _) =>
        if kind != Include {
          CycleTermsCost(w, domains, domain, record, terms[1..], redirect, depth);
        } else if InSet(w.includeTarget(value, domain), domains) {
          CycleCost(w, domains, w.includeTarget(value, domain).value, depth - 1);
        } else if CheckHost(w, w.includeTarget(value, domain).value, depth - 1).cost < depth - 1 {
          CycleTermsCost(w, domains, domain, record, terms[1..], redirect, depth);
        }
    }
  }

  /** Evaluation is lazy: once a prefix of the terms decides, nothing after it is looked at,
      neither further terms, nor their syntax, nor a redirect. */
  lemma {:induction false} LaterTermsIgnored(w: World, domain: string, record: string, before: seq<Term>,
                                             decisive: Term, after: seq<Term>, redirect: string, depth: nat)
    requires Sane(w) && depth > 0 && decisive.Mechanism?
    requires CheckMechanism(w, decisive.kind, decisive.value, domain, depth).hit != Unmatched
    ensures CheckTerms(w, domain, record, before + [decisive] + after, redirect, depth) ==
            CheckTerms(w, domain, record, before + [decisive], redirect, depth)
    decreases |before|
  {
    var all, short := before + [decisive] + after, before + [decisive];
    if before == [] {
      assert all[0] == short[0] == decisive;
    } else {
      assert all[1..] == before[1..] + [decisive] + after && short[1..] == before[1..] + [decisive];
      LaterTermsIgnored(w, domain, record, before[1..], decisive, after, redirect, depth);
      if before[0].Redirect? {
        LaterTermsIgnored(w, domain, record, before[1..], decisive, after, before[0].value, depth);
      }
    }
  }

  lemma IncludeBill(env: Env, value: string, domain: string, depth: nat)
    requires depth > 0
    ensures CheckMechanism(WorldOf(env), Include, value, domain, depth) ==
      match NamedTarget(env, value, domain)
      case None => HitRef(Broken(PermError), 1, 0)
      case Some(target) =>
        var r := CheckHost(WorldOf(env), target, depth - 1);
        HitRef(IncludeHit(r.out.verdict), 1 + r.cost, r.voids)
  {
  }

  // ------------------------------------------------------------- the evaluator

  predicate Affordable(lookups: nat, voids: nat, cost: nat, newVoids: nat) {
    lookups + cost <= MAX_LOOKUPS && voids + newVoids <= MAX_VOID
  }

  function AtMost(n: nat, m: nat): nat {
    if n < m then n else m
  }

  class SpfEvaluator {
    const env: Env
    var lookups: nat
    var voidLookups: nat
    var redirects: nat
    // Resolver traffic: TXT fetches, all calls, and whether a ptr term was evaluated.
    ghost var fetches: nat
    ghost var calls: nat
    ghost var usedPtr: bool

    constructor (env: Env)
      ensures this.env == env && Valid() && MayFetch()
      ensures lookups == 0 && voidLookups == 0 && calls == 0
    {
      this.env := env;
      lookups, voidLookups, redirects := 0, 0, 0;
      fetches, calls, usedPtr := 0, 0, false;
    }

    ghost predicate Traffic()
      reads this
    {
      var spent := AtMost(lookups, MAX_LOOKUPS);
      fetches <= 1 + spent && (usedPtr || calls <= 1 + (1 + MAX_MX_HOSTS) * spent)
    }

    // Inside every limit. Each redirect has paid for a lookup, so the redirect limit
    // is never the first one to be met.
    ghost predicate Valid()
      reads this
    {
      lookups <= MAX_LOOKUPS && voidLookups <= MAX_VOID && redirects <= lookups && Traffic()
    }

    // Room for the TXT query of the record about to be evaluated.
    ghost predicate MayFetch()
      reads this
    {
      fetches <= lookups && (usedPtr || calls <= (1 + MAX_MX_HOSTS) * lookups)
    }

    // Some limit was passed, by one.
    ghost predicate Breached()
      reads this
    {
      && (lookups > MAX_LOOKUPS || voidLookups > MAX_VOID || redirects > MAX_REDIRECTS)
      && lookups <= MAX_LOOKUPS + 1 && voidLookups <= MAX_VOID + 1 && redirects <= MAX_REDIRECTS + 1
      && Traffic()
    }

    method Spend() returns (ok: bool)
      requires lookups <= MAX_LOOKUPS && voidLookups <= MAX_VOID && Traffic()
      requires redirects <= MAX_REDIRECTS && redirects <= lookups + 1
      modifies this`lookups
      ensures lookups == old(lookups) + 1 && ok == (lookups <= MAX_LOOKUPS)
      ensures ok ==> Valid() && MayFetch() && (usedPtr || calls <= 1 + (1 + MAX_MX_HOSTS) * (lookups - 1))
      ensures !ok ==> Breached()
    {
      lookups := lookups + 1;
      ok := lookups <= MAX_LOOKUPS;
    }

    method CountVoid() returns (ok: bool)
      requires Valid()
      modifies this`voidLookups
      ensures voidLookups == old(voidLookups) + 1 && ok == (voidLookups <= MAX_VOID)
      ensures if ok then Valid() else Breached()
    {
      voidLookups := voidLookups + 1;
      ok := voidLookups <= MAX_VOID;
    }

    // The SPF records among a domain's TXT records, unless one is oversize.
    method SelectRecords(records: seq<string>) returns (found: seq<string>, oversize: bool)
      ensures oversize <==> exists r :: r in records && IsOversize(r)
      ensures !oversize ==> found == SpfRecords(records)
    {
      found := [];
      for i := 0 to |records|
        invariant forall k :: 0 <= k < i ==> !IsOversize(records[k])
        invariant SpfRecords(records) == found + SpfRecords(records[i..])
      {
        if |records[i]| > MAX_RECORD {
          assert records[i] in records && IsOversize(records[i]);
          return found, true;
        }
        assert records[i..][0] == records[i] && records[i..][1..] == records[i + 1..];
        if HasPrefix(Lower(records[i]), "v=spf1") {
          found := found + [records[i]];
        }
      }
      oversize := false;
    }

    // The single SPF record of a domain; an empty answer may exhaust the void budget.
    method FindRecord(domain: string) returns (r: Fetch, withinVoid: bool)
      requires Valid() && MayFetch()
      modifies this`voidLookups, this`fetches, this`calls
      ensures r == FetchRecord(env, domain)
      ensures voidLookups == old(voidLookups) + if r == NothingFound then 1 else 0
      ensures withinVoid == (voidLookups <= MAX_VOID)
      ensures if withinVoid then Valid() else Breached()
    {
      var records := Txt(env, domain);
      fetches, calls := fetches + 1, calls + 1;
      withinVoid := true;
      var found, oversize := SelectRecords(records);
      if oversize { return Oversize, true; }
      if |found| == 0 {
        withinVoid := CountVoid();
        return NothingFound, withinVoid;
      }
      r := if |found| == 1 then Record(found[0]) else Several;
    }

    method AnyAddressMatches(addrs: seq<string>, v4: nat, v6: nat) returns (r: bool)
      ensures r == AnyCovers(env, addrs, v4, v6)
    {
      for i := 0 to |addrs|
        invariant forall k :: 0 <= k < i ==> !env.covers(addrs[k], v4, v6)
      {
        if env.covers(addrs[i], v4, v6) { return true; }
      }
      return false;
    }

    // What every mechanism promises, in terms of the reference's bill for it.
    twostate predicate Paid(m: HitRef, hit: Hit)
      reads this
    {
      if Affordable(old(lookups), old(voidLookups), m.cost, m.voids) then
        && Valid() && hit == m.hit
        && lookups == old(lookups) + m.cost && voidLookups == old(voidLookups) + m.voids
      else
        Breached() && hit == Broken(PermError)
    }

    method EvaluateA(value: string, domain: string) returns (hit: Hit)
      requires Valid()
      modifies this
      ensures Paid(Leaf(env, A, value, domain), hit)
    {
      var ok := Spend();
      if !ok { return Broken(PermError); }
      var target := Target(env, value, domain);
      if target.None? { return Broken(PermError); }
      var (name, v4, v6) := target.value;
      var addrs := Hosts(env, name);
      calls := calls + 1;
      if |addrs| == 0 {
        ok := CountVoid();
        if !ok { return Broken(PermError); }
      }
      var r := AnyAddressMatches(addrs, v4, v6);
      hit := if r then Matched else Unmatched;
    }

    method EvaluateMx(value: string, domain: string) returns (hit: Hit)
      requires Valid()
      modifies this
      ensures Paid(Leaf(env, Mx, value, domain), hit)
    {
      var ok := Spend();
      if !ok { return Broken(PermError); }
      var target := Target(env, value, domain);
      if target.None? { return Broken(PermError); }
      var (name, v4, v6) := target.value;
      var hosts := Exchangers(env, name);
      calls := calls + 1;
      if |hosts| == 0 {
        ok := CountVoid();
        if !ok { return Broken(PermError); }
      }
      if |hosts| > MAX_MX_HOSTS { return Broken(PermError); }
      var r := AnyHostMatches(hosts, v4, v6);
      hit := if r then Matched else Unmatched;
    }

    method AnyHostMatches(hosts: seq<string>, v4: nat, v6: nat) returns (r: bool)
      requires Valid() && (usedPtr || calls + |hosts| <= 1 + (1 + MAX_MX_HOSTS) * lookups)
      modifies this`calls
      ensures Valid()
      ensures r == AnyHostCovers(env, hosts, v4, v6)
    {
      for i := 0 to |hosts|
        invariant Valid() && (usedPtr || calls + (|hosts| - i) <= 1 + (1 + MAX_MX_HOSTS) * lookups)
        invariant forall k :: 0 <= k < i ==> !AnyCovers(env, Hosts(env, hosts[k]), v4, v6)
      {
        calls := calls + 1;
        r := AnyAddressMatches(Hosts(env, hosts[i]), v4, v6);
        if r { return true; }
      }
      r := false;
    }

    method EvaluateExists(value: string, domain: string) returns (hit: Hit)
      requires Valid()
      modifies this
      ensures Paid(Leaf(env, Exists, value, domain), hit)
    {
      var ok := Spend();
      if !ok { return Broken(PermError); }
      var target := NamedTarget(env, value, domain);
      if target.None? { return Broken(PermError); }
      var addrs := Hosts(env, target.value);
      calls := calls + 1;
      if |addrs| == 0 {
        ok := CountVoid();
        if !ok { return Broken(PermError); }
      }
      hit := if |addrs| > 0 then Matched else Unmatched;
    }

    method ForwardConfirm(name: string) returns (r: bool)
      requires Valid() && usedPtr
      modifies this`calls
      ensures Valid()
      ensures r <==> exists a :: a in Hosts(env, name) && env.parseAddr(a) == Some(true)
    {
      var addrs := Hosts(env, name);
      calls := calls + 1;
      for i := 0 to |addrs|
        invariant forall k :: 0 <= k < i ==> env.parseAddr(addrs[k]) != Some(true)
      {
        if env.parseAddr(addrs[i]) == Some(true) { return true; }
      }
      return false;
    }

    // ptr costs one term, but its forward confirmations are not capped.
    method EvaluatePtr(value: string, domain: string) returns (hit: Hit)
      requires Valid()
      modifies this
      ensures Paid(Leaf(env, Ptr, value, domain), hit)
    {
      var ok := Spend();
      if !ok { return Broken(PermError); }
      usedPtr := true;
      var target := PtrTarget(value, domain);
      calls := calls + 1;
      var r := AnyNameConfirmed(target);
      PtrBill(env, value, domain);
      hit := if r then Matched else Unmatched;
    }

    method AnyNameConfirmed(target: string) returns (r: bool)
      requires Valid() && usedPtr
      modifies this`calls
      ensures Valid()
      ensures r == AnyConfirmed(env, target)
    {
      for i := 0 to |env.ptr|
        invariant Valid() && usedPtr
        invariant forall k :: 0 <= k < i ==> !PtrConfirmed(env, env.ptr[k], target)
      {
        r := NameConfirmed(env.ptr[i], target);
        if r {
          assert env.ptr[i] in env.ptr;
          return;
        }
      }
      r := false;
    }

    method NameConfirmed(reverse: string, target: string) returns (r: bool)
      requires Valid() && usedPtr
      modifies this`calls
      ensures Valid()
      ensures r == PtrConfirmed(env, reverse, target)
    {
      var name := TrimSuffix(Lower(reverse), ".");
      if name != target && !HasSuffix(name, "." + target) { return false; }
      r := ForwardConfirm(name);
    }

    method EvaluateInclude(value: string, domain: string, ghost depth: nat) returns (hit: Hit)
      requires Valid() && depth + lookups > MAX_LOOKUPS
      modifies this
      ensures Paid(CheckMechanism(WorldOf(env), Include, value, domain, depth), hit)
      decreases depth, 0
    {
      IncludeBill(env, value, domain, depth);
      var ok := Spend();
      if !ok { return Broken(PermError); }
      var target := NamedTarget(env, value, domain);
      if target.None? { return Broken(PermError); }
      hit := CheckIncluded(target.value, depth);
    }

    // The check of the target, with the term itself already paid for.
    method CheckIncluded(target: string, ghost depth: nat) returns (hit: Hit)
      requires Valid() && MayFetch() && depth > 0 && depth - 1 + lookups > MAX_LOOKUPS
      modifies this
      ensures var r := CheckHost(WorldOf(env), target, depth - 1);
        Paid(HitRef(IncludeHit(r.out.verdict), r.cost, r.voids), hit)
      decreases depth - 1, 4
    {
      var nested := Check(target, depth - 1);
      hit := IncludeHit(nested.verdict);
    }

    method EvaluateMechanism(kind: Kind, value: string, domain: string, ghost depth: nat) returns (hit: Hit)
      requires Valid() && depth + lookups > MAX_LOOKUPS
      modifies this
      ensures Paid(CheckMechanism(WorldOf(env), kind, value, domain, depth), hit)
      decreases depth, 1
    {
      match kind
      case All => hit := Matched;
      case Ip4 => hit := MatchIP(env, kind, value);
      case Ip6 => hit := MatchIP(env, kind, value);
      case A => hit := EvaluateA(value, domain);
      case Mx => hit := EvaluateMx(value, domain);
      case Include => hit := EvaluateInclude(value, domain, depth);
      case Exists => hit := EvaluateExists(value, domain);
      case Ptr => hit := EvaluatePtr(value, domain);
      case Unknown => hit := Broken(PermError);
    }

    // The same promise for a whole record.
    twostate predicate Evaluated(r: Ref, out: Outcome)
      reads this
    {
      if Affordable(old(lookups), old(voidLookups), r.cost, r.voids) then
        && Valid() && out == r.out
        && lookups == old(lookups) + r.cost && voidLookups == old(voidLookups) + r.voids
      else
        Breached() && out.verdict == PermError
    }

    method Check(domain: string, ghost depth: nat) returns (out: Outcome)
      requires Valid() && MayFetch() && depth + lookups > MAX_LOOKUPS
      modifies this
      ensures Evaluated(CheckHost(WorldOf(env), domain, depth), out)
      decreases depth, 3
    {
      var found, within := FindRecord(domain);
      match found
      case NothingFound => return Outcome(if within then NoRecord else PermError, "", "");
      case Oversize => return Outcome(PermError, "", "");
      case Several => return Outcome(PermError, "", "");
      case Record(text) =>
        var fields := Fields(text);
        if |fields| == 0 || !EqualFold(fields[0], "v=spf1") {
          return Outcome(PermError, "", text);
        }
        out := CheckFields(domain, text, fields[1..], depth);
    }

    // The term loop, then the redirect it may have met.
    method CheckFields(domain: string, text: string, fields: seq<string>, ghost depth: nat) returns (out: Outcome)
      requires Valid() && depth + lookups > MAX_LOOKUPS
      modifies this
      ensures Evaluated(CheckTerms(WorldOf(env), domain, text, ParseTerms(fields), "", depth), out)
      decreases depth, 2
    {
      ghost var w, terms := WorldOf(env), ParseTerms(fields);
      ParseTermsLength(fields);
      var redirect := "";
      for i := 0 to |fields|
        invariant Valid() && depth + lookups > MAX_LOOKUPS
        invariant lookups >= old(lookups) && voidLookups >= old(voidLookups)
        invariant var r := CheckTerms(w, domain, text, terms[i..], redirect, depth);
          CheckTerms(w, domain, text, terms, "", depth) ==
            Ref(r.out, lookups - old(lookups) + r.cost, voidLookups - old(voidLookups) + r.voids)
      {
        ParseTermsAt(fields, i);
        assert terms[i..][0] == terms[i] && terms[i..][1..] == terms[i + 1..];
        match ParseTerm(fields[i])
        case Ignored =>
        case Redirect(value) => redirect := value;
        case Mechanism(qualifier, kind, value, body) =>
          var hit := EvaluateMechanism(kind, value, domain, depth);
          if hit.Broken? { return Outcome(hit.verdict, body, text); }
          if hit.Matched? { return Outcome(QualifierVerdict(qualifier), body, text); }
      }
      assert terms[|fields|..] == [];
      out := FollowRedirect(domain, text, redirect, depth);
    }

    method FollowRedirect(domain: string, text: string, redirect: string, ghost depth: nat) returns (out: Outcome)
      requires Valid() && depth + lookups > MAX_LOOKUPS
      modifies this
      ensures Evaluated(CheckRedirect(WorldOf(env), domain, text, redirect, depth), out)
      decreases depth, 1
    {
      if redirect == "" { return Outcome(Neutral, "", text); }
      var expanded := env.expand(redirect, domain);
      if expanded.None? { return Outcome(PermError, "redirect", text); }
      redirects := redirects + 1;
      if redirects > MAX_REDIRECTS { return Outcome(PermError, "redirect", text); }
      var ok := Spend();
      if !ok { return Outcome(PermError, "redirect", text); }
      out := Check(Lower(expanded.value), depth - 1);
      if out.verdict == NoRecord {
        out := Outcome(PermError, "redirect", out.record);
      }
    }
  }

  // -------------------------------------------------------------- one message

  // The reference with room for every affordable nesting.
  ghost function Unlimited(env: Env, domain: string): Ref {
    CheckHost(WorldOf(env), domain, MAX_LOOKUPS + 1)
  }

  ghost predicate WithinLimits(env: Env, domain: string) {
    Affordable(0, 0, Unlimited(env, domain).cost, Unlimited(env, domain).voids)
  }

  // What the evaluator answers: the reference inside the limits, permerror outside.
  ghost function Answer(env: Env, domain: string): Verdict {
    if WithinLimits(env, domain) then Unlimited(env, domain).out.verdict else PermError
  }

  lemma AnswerRange(env: Env, domain: string)
    ensures Answer(env, domain) == NoRecord <==> FetchRecord(env, domain) == NothingFound
    ensures Answer(env, domain) != TempError
  {
    var w := WorldOf(env);
    VerdictRange(w, domain, MAX_LOOKUPS + 1);
    assert w.fetch(domain) == FetchRecord(env, domain);
    assert Unlimited(env, domain) == CheckFetched(w, domain, w.fetch(domain), MAX_LOOKUPS + 1);
  }

  lemma AnswerIndependentOfDepth(env: Env, domain: string, depth: nat)
    requires depth > MAX_LOOKUPS
    ensures var r := CheckHost(WorldOf(env), domain, depth);
            Answer(env, domain) == if Affordable(0, 0, r.cost, r.voids) then r.out.verdict else PermError
  {
    DepthIrrelevant(WorldOf(env), domain, MAX_LOOKUPS + 1, depth);
  }

  /** A domain on a cycle of includes and redirects, none of them forestalled by an earlier match,
      is a permerror. */
  lemma CycleIsPermError(env: Env, domains: set<string>, domain: string)
    requires Cycle(WorldOf(env), domains) && domain in domains
    ensures Answer(env, domain) == PermError
  {
    CycleCost(WorldOf(env), domains, domain, MAX_LOOKUPS + 1);
  }

  // Section 2.4: an empty reverse path is checked through the HELO name.
  function Identity(mailFrom: string, helo: string): string {
    if TrimSpace(mailFrom) == "" then "postmaster@" + TrimSpace(helo) else mailFrom
  }

  function IdentityDomain(identity: string): string {
    var at := FindLast(identity, '@');
    var domain := if at < |identity| then identity[at + 1..] else identity;
    Lower(TrimRight(TrimLeft(TrimSpace(domain), "[]"), "[]"))
  }

  function MessageEnv(base: Env, identity: string, helo: string, ipMacro: string): Env {
    base.(expand := (spec, domain) => M.Expand(spec, M.MacroValues(identity, domain, ipMacro, helo, base.ipIsV4)))
  }

  datatype SpfResult = SpfResult(verdict: Verdict, domain: string, mechanism: string, record: string, lookups: nat)

  method VerifySPF(resolverEnabled: bool, clientIsAddress: bool, base: Env, ipMacro: string,
                   mailFrom: string, helo: string)
    returns (r: SpfResult, ghost fetches: nat, ghost calls: nat, ghost usedPtr: bool)
    ensures r.verdict == TempError <==> !resolverEnabled
    ensures resolverEnabled && !clientIsAddress ==> r.verdict == PermError && calls == 0
    ensures resolverEnabled && clientIsAddress ==>
      var identity := Identity(mailFrom, helo);
      var domain := IdentityDomain(identity);
      if '.' in domain then
        var env := MessageEnv(base, identity, helo, ipMacro);
        && r.domain == domain && r.verdict == Answer(env, domain)
        && (WithinLimits(env, domain) ==>
              Outcome(r.verdict, r.mechanism, r.record) == Unlimited(env, domain).out &&
              r.lookups == Unlimited(env, domain).cost)
      else
        r.verdict == NoRecord && calls == 0
    ensures r.lookups <= MAX_LOOKUPS + 1
    ensures fetches <= 11 && (usedPtr || calls <= 111)
  {
    fetches, calls, usedPtr := 0, 0, false;
    if !resolverEnabled { return SpfResult(TempError, "", "", "", 0), 0, 0, false; }
    if !clientIsAddress { return SpfResult(PermError, "", "", "", 0), 0, 0, false; }
    var identity := Identity(mailFrom, helo);
    var domain := IdentityDomain(identity);
    if domain == "" || '.' !in domain { return SpfResult(NoRecord, domain, "", "", 0), 0, 0, false; }
    var env := MessageEnv(base, identity, helo, ipMacro);
    var evaluator := new SpfEvaluator(env);
    AnswerRange(env, domain);
    var out := evaluator.Check(domain, MAX_LOOKUPS + 1);
    r := SpfResult(out.verdict, domain, out.mechanism, out.record, evaluator.lookups);
    fetches, calls, usedPtr := evaluator.fetches, evaluator.calls, evaluator.usedPtr;
  }
}
