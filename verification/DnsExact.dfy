/** The caching resolver against the uncached one, over sequences of calls to an unchanging backend
    (pkg/dnsx/resolver.go 138-294): where their replies are the same and where they are not. */
module DnsExact {
  import opened Text
  import opened DnsCache

  const NO_ENTRIES := Store(map[], 0, 0)

  datatype Call = AskNames(kind: Kind, name: string) | AskListing(ip: string, zone: string)

  datatype Reply = NamesReply(names: seq<string>) | ListingReply(result: RblResult)

  // The reply of a resolver without a cache.
  function Uncached(b: Backend, call: Call, now: nat): Reply {
    match call
    case AskNames(kind, name) => NamesReply(if name == "" then [] else Ask(b, kind, name, now))
    case AskListing(ip, zone) =>
      var name := RblName(b, ip, zone);
      ListingReply(if name == "" then RblResult(zone, false, [], "")
                   else Listed(b, name, zone, now, Ask(b, Txt, name, now)))
  }

  // One call against the store.
  function CallStep(b: Backend, lim: Limits, s: Store, call: Call, at: When): (Store, Reply) {
    match call
    case AskNames(kind, name) =>
      if name == "" then (s, NamesReply([]))
      else
        var (s', names) := NamesStep(b, lim, s, kind, name, at.start, at.mid);
        (s', NamesReply(names))
    case AskListing(ip, zone) =>
      var name := RblName(b, ip, zone);
      if name == "" then (s, ListingReply(RblResult(zone, false, [], "")))
      else
        var (s', result) := RblStep(b, lim, s, name, zone, at);
        (s', ListingReply(result))
  }

  // What call i makes of a store.
  function Stepper(b: Backend, lim: Limits, calls: seq<Call>, times: seq<When>): (Store, nat) -> Store {
    (s: Store, i: nat) => if i < |calls| == |times| then CallStep(b, lim, s, calls[i], times[i]).0 else s
  }

  // The store of a new resolver after n calls.
  function After(step: (Store, nat) -> Store, n: nat): Store {
    if n == 0 then NO_ENTRIES else step(After(step, n - 1), n - 1)
  }

  function ReplyAt(b: Backend, lim: Limits, calls: seq<Call>, times: seq<When>, i: nat): Reply
    requires i < |calls| == |times|
  {
    CallStep(b, lim, After(Stepper(b, lim, calls, times), i), calls[i], times[i]).1
  }

  lemma StepperIs(b: Backend, lim: Limits, calls: seq<Call>, times: seq<When>, s: Store, i: nat)
    requires i < |calls| == |times|
    ensures Stepper(b, lim, calls, times)(s, i) == CallStep(b, lim, s, calls[i], times[i]).0
  {
  }

  method OneCall(r: Resolver, call: Call, at: When) returns (reply: Reply)
    requires r.Valid() && r.enabled && r.clock <= at.start && Timely(r.lim, at)
    modifies r
    ensures r.Valid() && r.clock <= at.done && (r.View(), reply) == CallStep(r.backend, r.lim, old(r.View()), call, at)
  {
    match call {
      case AskNames(kind, name) =>
        var names := r.Lookup(kind, name, at.start, at.mid);
        reply := NamesReply(names);
      case AskListing(ip, zone) =>
        var result := r.CheckRBL(ip, zone, at);
        reply := ListingReply(result);
    }
  }

  method Converse(b: Backend, lim: Limits, calls: seq<Call>, times: seq<When>) returns (replies: seq<Reply>)
    requires |times| == |calls| && Rising(lim, times)
    ensures |replies| == |calls|
    ensures forall i :: 0 <= i < |calls| ==> replies[i] == ReplyAt(b, lim, calls, times, i)
  {
    var r := new Resolver(b, lim, true, []);
    replies := [];
    var i := 0;
    while i < |calls|
      invariant i <= |calls| && |replies| == i && fresh(r) && Ready(r, b, lim, calls, times, i)
      invariant forall k :: 0 <= k < i ==> replies[k] == ReplyAt(b, lim, calls, times, k)
    {
      var one := NextCall(r, b, lim, calls, times, i);
      replies := replies + [one];
      i := i + 1;
    }
  }

  // The first n calls have been made.
  ghost predicate Ready(r: Resolver, b: Backend, lim: Limits, calls: seq<Call>, times: seq<When>, n: nat)
    reads r
  {
    && r.Valid() && r.enabled && r.backend == b && r.lim == lim
    && r.View() == After(Stepper(b, lim, calls, times), n) && (n < |times| ==> r.clock <= times[n].start)
  }

  method NextCall(r: Resolver, b: Backend, lim: Limits, calls: seq<Call>, times: seq<When>, i: nat)
    returns (reply: Reply)
    requires i < |calls| == |times| && Rising(lim, times) && Ready(r, b, lim, calls, times, i)
    modifies r
    ensures Ready(r, b, lim, calls, times, i + 1) && reply == ReplyAt(b, lim, calls, times, i)
  {
    StepperIs(b, lim, calls, times, r.View(), i);
    reply := OneCall(r, calls[i], times[i]);
  }

  // ------------------------------------------------------------ up to zone spellings

  // The replies agree, zone spellings apart.
  predicate SameReply(a: Reply, b: Reply) {
    match a
    case NamesReply(_) => a == b
    case ListingReply(r) => b.ListingReply? && r.(zone := b.result.zone) == b.result
  }

  // When the first n calls are over.
  function EndOf(times: seq<When>, n: nat): nat
    requires n <= |times|
  {
    if n == 0 then 0 else times[n - 1].done
  }

  lemma {:induction false} AfterSound(b: Backend, lim: Limits, calls: seq<Call>, times: seq<When>, n: nat)
    requires n <= |calls| == |times| && Rising(lim, times)
    ensures Sound(b, lim, After(Stepper(b, lim, calls, times), n), EndOf(times, n))
  {
    if n > 0 {
      var s := After(Stepper(b, lim, calls, times), n - 1);
      AfterSound(b, lim, calls, times, n - 1);
      StepperIs(b, lim, calls, times, s, n - 1);
      CallSound(b, lim, s, EndOf(times, n - 1), calls[n - 1], times[n - 1]);
    }
  }

  lemma CallSound(b: Backend, lim: Limits, s: Store, clock: nat, call: Call, at: When)
    requires Sound(b, lim, s, clock) && clock <= at.start && Timely(lim, at)
    ensures Sound(b, lim, CallStep(b, lim, s, call, at).0, at.done)
    ensures Fixed(b) ==> SameReply(CallStep(b, lim, s, call, at).1, Uncached(b, call, at.start))
  {
    SoundLater(b, lim, s, clock, at.done);
    match call
    case AskNames(kind, name) =>
      NamesStepSound(b, lim, s, clock, kind, name, at.start, at.mid);
      SoundLater(b, lim, NamesStep(b, lim, s, kind, name, at.start, at.mid).0, at.mid, at.done);
      if Fixed(b) {
        RecentIsExact(b, lim, kind, name, at.start, at.mid, NamesStep(b, lim, s, kind, name, at.start, at.mid).1);
      }
    case AskListing(ip, zone) =>
      var name := RblName(b, ip, zone);
      RblStepSound(b, lim, s, clock, name, zone, at);
      if Fixed(b) {
        RecentListingIsExact(b, lim, name, zone, at, RblStep(b, lim, s, name, zone, at).1);
      }
  }

  /** Against a fixed backend every reply, over any sequence of calls at any rising times, is the
      uncached one but for the spelling of a listing's zone. */
  lemma RepliesAgree(b: Backend, lim: Limits, calls: seq<Call>, times: seq<When>, i: nat)
    requires Fixed(b) && i < |calls| == |times| && Rising(lim, times)
    ensures SameReply(ReplyAt(b, lim, calls, times, i), Uncached(b, calls[i], times[i].start))
  {
    AfterSound(b, lim, calls, times, i);
    CallSound(b, lim, After(Stepper(b, lim, calls, times), i), EndOf(times, i), calls[i], times[i]);
  }

  // ------------------------------------------------------------------ exact equality

  function NameAsked(b: Backend, call: Call): string {
    match call
    case AskNames(_, _) => ""
    case AskListing(ip, zone) => RblName(b, ip, zone)
  }

  // The names that the calls look up in a block list; "" where there is none.
  function NamesAsked(b: Backend, calls: seq<Call>): (r: seq<string>)
    ensures |r| == |calls|
  {
    seq(|calls|, i requires 0 <= i < |calls| => NameAsked(b, calls[i]))
  }

  // The call whose listing is kept for a name after n calls: the first to ask for it since the
  // one kept before ran out.
  function Server(asked: seq<string>, times: seq<When>, ttl: nat, name: string, n: nat): (r: Option<nat>)
    requires n <= |asked| == |times|
    ensures r.Some? ==> r.value < n && asked[r.value] == name
  {
    if n == 0 then None
    else
      var before := Server(asked, times, ttl, name, n - 1);
      if asked[n - 1] == name && (before.None? || times[n - 1].start > times[before.value].done + ttl) then Some(n - 1)
      else before
  }

  // The cache holds for a name what its server has put there.
  ghost predicate Serves(lim: Limits, calls: seq<Call>, times: seq<When>, name: string, s: Store, server: Option<nat>)
    requires |calls| == |times|
  {
    var key := RblKey(name);
    && (key in s.cache <==> server.Some?)
    && (server.Some? ==>
          && server.value < |calls| && calls[server.value].AskListing? && s.cache[key].value.Listing?
          && s.cache[key].value.result.zone == calls[server.value].zone
          && s.cache[key].expires == times[server.value].done + lim.ttl)
  }

  // Each step takes what the calls so far have put there to what one more call puts there.
  ghost predicate KeepsServing(step: (Store, nat) -> Store, lim: Limits, calls: seq<Call>, times: seq<When>,
                               asked: seq<string>, name: string)
    requires |calls| == |times| == |asked|
  {
    forall s: Store, i: nat ::
      i < |calls| && Serves(lim, calls, times, name, s, Server(asked, times, lim.ttl, name, i)) ==>
      Serves(lim, calls, times, name, step(s, i), Server(asked, times, lim.ttl, name, i + 1))
  }

  lemma {:induction false} KeptAfter(step: (Store, nat) -> Store, lim: Limits, calls: seq<Call>, times: seq<When>,
                                     asked: seq<string>, name: string, n: nat)
    requires n <= |calls| == |times| == |asked| && KeepsServing(step, lim, calls, times, asked, name)
    ensures Serves(lim, calls, times, name, After(step, n), Server(asked, times, lim.ttl, name, n))
  {
    if n > 0 { KeptAfter(step, lim, calls, times, asked, name, n - 1); }
  }

  lemma KeptListing(b: Backend, lim: Limits, calls: seq<Call>, times: seq<When>, name: string, n: nat)
    requires name != "" && n <= |calls| == |times|
    ensures Serves(lim, calls, times, name, After(Stepper(b, lim, calls, times), n),
                   Server(NamesAsked(b, calls), times, lim.ttl, name, n))
  {
    var step, asked := Stepper(b, lim, calls, times), NamesAsked(b, calls);
    forall s: Store, i: nat | i < |calls| && Serves(lim, calls, times, name, s, Server(asked, times, lim.ttl, name, i))
      ensures Serves(lim, calls, times, name, step(s, i), Server(asked, times, lim.ttl, name, i + 1))
    {
      StepperIs(b, lim, calls, times, s, i);
      KeptStep(b, lim, calls, times, asked, name, i, s, step(s, i));
    }
    KeptAfter(step, lim, calls, times, asked, name, n);
  }

  lemma KeptStep(b: Backend, lim: Limits, calls: seq<Call>, times: seq<When>, asked: seq<string>,
                 name: string, n: nat, s: Store, s': Store)
    requires name != "" && n < |calls| == |times| == |asked| && asked[n] == NameAsked(b, calls[n])
    requires Serves(lim, calls, times, name, s, Server(asked, times, lim.ttl, name, n))
    requires s' == CallStep(b, lim, s, calls[n], times[n]).0
    ensures Serves(lim, calls, times, name, s', Server(asked, times, lim.ttl, name, n + 1))
  {
    match calls[n]
    case AskNames(kind, other) =>
      KeysApart(kind, other, kind, name);
    case AskListing(ip, zone) =>
      if asked[n] != "" { ListingTouches(b, lim, s, asked[n], zone, times[n], name); }
  }

  // What a listing call does to the entry of a name.
  lemma ListingTouches(b: Backend, lim: Limits, s: Store, asked: string, zone: string, at: When, name: string)
    ensures var s', key := RblStep(b, lim, s, asked, zone, at).0, RblKey(name);
      if asked == name && Found(s, key, at.start).None? then
        key in s'.cache && s'.cache[key].expires == at.done + lim.ttl &&
        s'.cache[key].value.Listing? && s'.cache[key].value.result.zone == zone
      else
        (key in s'.cache <==> key in s.cache) && (key in s.cache ==> s'.cache[key] == s.cache[key])
  {
    RblKeyInjective(asked, name);
    KeysApart(Txt, asked, Txt, name);
  }

  // Call j is not answered from a listing that was asked for under another spelling of its zone.
  predicate SpelledAlike(lim: Limits, calls: seq<Call>, times: seq<When>, asked: seq<string>, j: nat)
    requires j < |calls| == |times| == |asked|
  {
    asked[j] != "" ==>
      var server := Server(asked, times, lim.ttl, asked[j], j);
      server.Some? && times[j].start <= times[server.value].done + lim.ttl ==>
        SameZone(calls[server.value], calls[j])
  }

  predicate SameZone(a: Call, c: Call) {
    a.AskListing? && c.AskListing? && a.zone == c.zone
  }

  /** A reply is exactly the uncached one if and only if its call is not answered from a listing
      asked for under another spelling. */
  lemma ReplyExactly(b: Backend, lim: Limits, calls: seq<Call>, times: seq<When>, j: nat)
    requires Fixed(b) && j < |calls| == |times| && Rising(lim, times)
    ensures ReplyAt(b, lim, calls, times, j) == Uncached(b, calls[j], times[j].start) <==>
            SpelledAlike(lim, calls, times, NamesAsked(b, calls), j)
  {
    var name := NameAsked(b, calls[j]);
    RepliesAgree(b, lim, calls, times, j);
    if name != "" {
      KeptListing(b, lim, calls, times, name, j);
      ListingExactly(b, lim, calls, times, j, After(Stepper(b, lim, calls, times), j),
                     Server(NamesAsked(b, calls), times, lim.ttl, name, j));
    }
  }

  // A listing call is answered with the zone of the call that serves it, or else with its own.
  lemma ListingExactly(b: Backend, lim: Limits, calls: seq<Call>, times: seq<When>, j: nat,
                       s: Store, server: Option<nat>)
    requires j < |calls| == |times| && NameAsked(b, calls[j]) != ""
    requires Serves(lim, calls, times, NameAsked(b, calls[j]), s, server)
    requires SameReply(CallStep(b, lim, s, calls[j], times[j]).1, Uncached(b, calls[j], times[j].start))
    ensures CallStep(b, lim, s, calls[j], times[j]).1 == Uncached(b, calls[j], times[j].start) <==>
      (server.Some? && times[j].start <= times[server.value].done + lim.ttl ==> SameZone(calls[server.value], calls[j]))
  {
  }

  ghost predicate ExactAt(b: Backend, lim: Limits, calls: seq<Call>, times: seq<When>)
    requires |calls| == |times|
  {
    forall j :: 0 <= j < |calls| ==> ReplyAt(b, lim, calls, times, j) == Uncached(b, calls[j], times[j].start)
  }

  predicate AllAlike(lim: Limits, calls: seq<Call>, times: seq<When>, asked: seq<string>)
    requires |calls| == |times| == |asked|
  {
    forall j :: 0 <= j < |calls| ==> SpelledAlike(lim, calls, times, asked, j)
  }

  /** For given times: the replies are the uncached ones, each and all, exactly when no call is
      answered from a listing asked for under another spelling. */
  lemma ExactExactly(b: Backend, lim: Limits, calls: seq<Call>, times: seq<When>)
    requires Fixed(b) && |times| == |calls| && Rising(lim, times)
    ensures ExactAt(b, lim, calls, times) <==> AllAlike(lim, calls, times, NamesAsked(b, calls))
  {
    forall j | 0 <= j < |calls|
      ensures ReplyAt(b, lim, calls, times, j) == Uncached(b, calls[j], times[j].start) <==>
              SpelledAlike(lim, calls, times, NamesAsked(b, calls), j)
    {
      ReplyExactly(b, lim, calls, times, j);
    }
  }

  // No two calls ask for one name under two spellings of the zone.
  predicate OneSpelling(calls: seq<Call>, asked: seq<string>)
    requires |calls| == |asked|
  {
    forall i, j :: 0 <= i < j < |calls| && asked[i] == asked[j] != "" ==> SameZone(calls[i], calls[j])
  }

  ghost predicate ExactWhenever(b: Backend, lim: Limits, calls: seq<Call>) {
    forall times: seq<When> :: |times| == |calls| && Rising(lim, times) ==> ExactAt(b, lim, calls, times)
  }

  /** The cached resolver gives exactly the uncached replies to a sequence of calls, whenever they
      are made, if and only if no two of them spell the zone of one name differently. */
  lemma AlwaysExact(b: Backend, lim: Limits, calls: seq<Call>)
    requires Fixed(b)
    ensures ExactWhenever(b, lim, calls) <==> OneSpelling(calls, NamesAsked(b, calls))
  {
    if OneSpelling(calls, NamesAsked(b, calls)) {
      OneSpellingIsExact(b, lim, calls);
    }
    var atOnce := seq(|calls|, _ => When(0, 0, 0));
    if ExactWhenever(b, lim, calls) {
      assert Rising(lim, atOnce);
      ExactAtOnce(b, lim, calls, atOnce);
    }
  }

  lemma OneSpellingIsExact(b: Backend, lim: Limits, calls: seq<Call>)
    requires Fixed(b) && OneSpelling(calls, NamesAsked(b, calls))
    ensures ExactWhenever(b, lim, calls)
  {
    forall times: seq<When> | |times| == |calls| && Rising(lim, times) ensures ExactAt(b, lim, calls, times) {
      ExactExactly(b, lim, calls, times);
      OneSpellingIsAlike(lim, calls, times, NamesAsked(b, calls));
    }
  }

  lemma ExactAtOnce(b: Backend, lim: Limits, calls: seq<Call>, times: seq<When>)
    requires Fixed(b) && |times| == |calls| && ExactAt(b, lim, calls, times)
    requires forall k :: 0 <= k < |times| ==> times[k] == When(0, 0, 0)
    ensures OneSpelling(calls, NamesAsked(b, calls))
  {
    ExactExactly(b, lim, calls, times);
    AlikeIsOneSpelling(lim, calls, times, NamesAsked(b, calls), b);
  }

  lemma OneSpellingIsAlike(lim: Limits, calls: seq<Call>, times: seq<When>, asked: seq<string>)
    requires |times| == |calls| == |asked| && OneSpelling(calls, asked)
    ensures AllAlike(lim, calls, times, asked)
  {
  }

  // Calls made at one moment: who asks first serves all the others.
  lemma {:induction false} FirstServes(asked: seq<string>, times: seq<When>, ttl: nat, name: string, n: nat, m: nat)
    requires n <= m <= |asked| == |times| && Server(asked, times, ttl, name, n).Some?
    requires forall k :: 0 <= k < |times| ==> times[k] == When(0, 0, 0)
    ensures Server(asked, times, ttl, name, m) == Server(asked, times, ttl, name, n)
  {
    if n < m { FirstServes(asked, times, ttl, name, n, m - 1); }
  }

  lemma AlikeIsOneSpelling(lim: Limits, calls: seq<Call>, times: seq<When>, asked: seq<string>, b: Backend)
    requires |times| == |calls| && asked == NamesAsked(b, calls) && AllAlike(lim, calls, times, asked)
    requires forall k :: 0 <= k < |times| ==> times[k] == When(0, 0, 0)
    ensures OneSpelling(calls, asked)
  {
    forall i, j | 0 <= i < j < |calls| && asked[i] == asked[j] != "" ensures SameZone(calls[i], calls[j]) {
      FirstServes(asked, times, lim.ttl, asked[i], i + 1, j);
      assert asked[i] == NameAsked(b, calls[i]);
      AlikeAtOnce(lim, calls, times, asked, i, j);
    }
  }

  lemma AlikeAtOnce(lim: Limits, calls: seq<Call>, times: seq<When>, asked: seq<string>, i: nat, j: nat)
    requires i < j < |calls| == |times| == |asked| && asked[i] == asked[j] != "" && calls[i].AskListing?
    requires forall k :: 0 <= k < |times| ==> times[k] == When(0, 0, 0)
    requires SpelledAlike(lim, calls, times, asked, i) && SpelledAlike(lim, calls, times, asked, j)
    requires Server(asked, times, lim.ttl, asked[i], j) == Server(asked, times, lim.ttl, asked[i], i + 1)
    ensures SameZone(calls[i], calls[j])
  {
  }

  /** For one address, two zones give one name only when they differ by no more than a final dot. */
  lemma OneNameTwoZones(b: Backend, ip: string, zone: string, other: string)
    requires RblName(b, ip, zone) == RblName(b, ip, other) != ""
    ensures TrimSuffix(zone, ".") == TrimSuffix(other, ".")
  {
    var n := |b.reverse(ip)| + 1;
    assert RblName(b, ip, zone)[n..] == TrimSuffix(zone, ".");
    assert RblName(b, ip, other)[n..] == TrimSuffix(other, ".");
  }

  // ------------------------------------------------------------ concrete disagreements

  /** The reply to a zone asked again without its final dot still names the zone with the dot. */
  lemma DottedZone(b: Backend, lim: Limits, name: string, zone: string)
    ensures var (s, first) := RblStep(b, lim, NO_ENTRIES, name, zone + ".", When(0, 0, 0));
      var (_, second) := RblStep(b, lim, s, name, zone, When(0, 0, 0));
      second == first && second.zone == zone + "." != Listed(b, name, zone, 0, []).zone
  {
    var (s, first) := RblStep(b, lim, NO_ENTRIES, name, zone + ".", When(0, 0, 0));
    assert Found(s, RblKey(name), 0) == Some(Listing(first));
  }

  /** A listing's comment can be as old as two cache periods: the TXT answer was one period old when
      the listing was stored. */
  lemma StaleComment(ttl: nat, name: string, zone: string) returns (b: Backend)
    requires ttl > 0
    ensures forall t: nat :: t > 0 ==> Ask(b, Txt, name, t) == ["new"]
    ensures var lim, first, last := Limits(ttl, 0), When(ttl, ttl, ttl), When(2 * ttl, 2 * ttl, 2 * ttl);
      var (s, _) := NamesStep(b, lim, NO_ENTRIES, Txt, name, 0, 0);
      var (s', _) := RblStep(b, lim, s, name, zone, first);
      RblStep(b, lim, s', name, zone, last).1.comment == "old"
  {
    b := Backend((kind, n, t) => Some([if kind == Host then "127.0.0.2" else if t == 0 then "old" else "new"]),
                 names => names, ip => ip);
    var lim, at := Limits(ttl, 0), When(ttl, ttl, ttl);
    var (s, txt) := NamesStep(b, lim, NO_ENTRIES, Txt, name, 0, 0);
    assert txt == ["old"] && Found(s, KeyFor(Txt, name), ttl) == Some(Names(["old"]));
    KeysApart(Txt, name, Txt, name);
    assert Found(s, RblKey(name), ttl).None?;
    var (s', r) := RblStep(b, lim, s, name, zone, at);
    assert HasAddresses(b, name, ttl);
    assert r.comment == "old";
    assert Found(s', RblKey(name), 2 * ttl) == Some(Listing(r));
  }
}
