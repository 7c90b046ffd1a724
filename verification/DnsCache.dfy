/** The caching resolver (pkg/dnsx/resolver.go 138-298). The backend, sort.Strings and the reversal
    of an address are functions; the backend's answers may change with time, and take time. */
module DnsCache {
  import opened Text

  datatype Kind = Host | Mx | Txt | Ptr

  datatype Backend = Backend(
    query: (Kind, string, nat) -> Option<seq<string>>,     // None: the query failed
    sort: seq<string> -> seq<string>,
    reverse: string -> string)                             // "" for what is not an address

  // How long an answer is kept, and how long a query may take.
  datatype Limits = Limits(ttl: nat, timeout: nat)

  // The moments of one listing: its lookup in the cache and the address query, the lookup of the
  // comment, and the storing of the result. A lookup of names has only the first and the second.
  datatype When = When(start: nat, mid: nat, done: nat)

  predicate Timely(lim: Limits, at: When) {
    at.start <= at.mid <= at.start + lim.timeout && at.mid <= at.done <= at.mid + lim.timeout
  }

  datatype RblResult = RblResult(zone: string, listed: bool, codes: seq<string>, comment: string)

  // What the cache's untyped values can hold.
  datatype Value = Names(names: seq<string>) | Listing(result: RblResult)

  datatype Entry = Entry(value: Value, expires: nat)

  datatype Store = Store(cache: map<string, Entry>, hits: nat, lookups: nat)

  // ------------------------------------------------------- what is asked and stored

  function NoDots(names: seq<string>): (r: seq<string>)
    ensures |r| == |names|
  {
    seq(|names|, k requires 0 <= k < |names| => TrimSuffix(names[k], "."))
  }

  // The answer without a cache, at time t.
  function Ask(b: Backend, kind: Kind, name: string, t: nat): seq<string> {
    var raw := match b.query(kind, name, t) case None => [] case Some(names) => names;
    match kind
    case Host => b.sort(raw)
    case Ptr => NoDots(raw)
    case _ => raw
  }

  function KeyFor(kind: Kind, name: string): string {
    match kind
    case Host => "host:" + Lower(name)
    case Mx => "mx:" + Lower(name)
    case Txt => "txt:" + Lower(name)
    case Ptr => "ptr:" + name
  }

  function RblKey(name: string): string {
    "rbl:" + name
  }

  // The listing of a name, from addresses at time t and the given TXT records.
  function Listed(b: Backend, name: string, zone: string, t: nat, txt: seq<string>): RblResult {
    match b.query(Host, name, t)
    case Some(addrs) =>
      if addrs == [] then RblResult(zone, false, [], "")
      else RblResult(zone, true, addrs, if txt == [] then "" else txt[0])
    case None => RblResult(zone, false, [], "")
  }

  function Found(s: Store, key: string, now: nat): Option<Value> {
    if key in s.cache && now <= s.cache[key].expires then Some(s.cache[key].value) else None
  }

  function CountHit(s: Store): Store {
    s.(hits := s.hits + 1)
  }

  function Put(s: Store, key: string, value: Value, expires: nat): Store {
    s.(cache := s.cache[key := Entry(value, expires)], lookups := s.lookups + 1)
  }

  // One lookup, and one listing, against the store.
  function NamesStep(b: Backend, lim: Limits, s: Store, kind: Kind, name: string, asked: nat, stored: nat):
    (Store, seq<string>)
  {
    match Found(s, KeyFor(kind, name), asked)
    case Some(Names(names)) => (CountHit(s), names)
    case Some(Listing(_)) => (CountHit(s), [])
    case None =>
      var answer := Ask(b, kind, name, asked);
      (Put(s, KeyFor(kind, name), Names(answer), stored + lim.ttl), answer)
  }

  // The comment's lookup, which only a listed name brings about.
  function CommentStep(b: Backend, lim: Limits, s: Store, name: string, at: When): (Store, seq<string>) {
    if HasAddresses(b, name, at.start) then NamesStep(b, lim, s, Txt, name, at.mid, at.done) else (s, [])
  }

  function RblStep(b: Backend, lim: Limits, s: Store, name: string, zone: string, at: When): (Store, RblResult) {
    match Found(s, RblKey(name), at.start)
    case Some(Listing(result)) => (CountHit(s), result)
    case Some(Names(_)) => (CountHit(s), RblResult(zone, false, [], ""))
    case None =>
      var (after, txt) := CommentStep(b, lim, s, name, at);
      var result := Listed(b, name, zone, at.start, txt);
      (Put(after, RblKey(name), Listing(result), at.done + lim.ttl), result)
  }

  predicate HasAddresses(b: Backend, name: string, now: nat) {
    b.query(Host, name, now).Some? && b.query(Host, name, now).value != []
  }

  // ------------------------------------------------------------------ soundness

  predicate SameName(kind: Kind, name: string, alias: string) {
    if kind == Ptr then alias == name else Lower(alias) == Lower(name)
  }

  // The entry is the answer to such a name, asked at t, stored at w and kept from then on for ttl.
  ghost predicate FromNames(b: Backend, lim: Limits, key: string, e: Entry, clock: nat,
                            kind: Kind, name: string, t: nat, w: nat) {
    && key == KeyFor(kind, name) && t <= w <= t + lim.timeout && w <= clock
    && e == Entry(Names(Ask(b, kind, name, t)), w + lim.ttl)
  }

  // The same for a listing; its comment is a TXT answer asked at u, which may have been kept before.
  ghost predicate FromListing(b: Backend, lim: Limits, key: string, e: Entry, clock: nat,
                              name: string, zone: string, t: nat, w: nat, alias: string, u: nat) {
    && key == RblKey(name) && w <= clock && ListingTimes(lim, t, w, u) && Lower(alias) == Lower(name)
    && e == Entry(Listing(Listed(b, name, zone, t, Ask(b, Txt, alias, u))), w + lim.ttl)
  }

  // Addresses asked at t, comment asked at u, result stored at w.
  predicate ListingTimes(lim: Limits, t: nat, w: nat, u: nat) {
    t <= w <= t + 2 * lim.timeout && u <= w <= u + lim.ttl + 2 * lim.timeout
  }

  ghost predicate Origin(b: Backend, lim: Limits, key: string, e: Entry, clock: nat) {
    || (exists kind, name, t, w :: FromNames(b, lim, key, e, clock, kind, name, t, w))
    || (exists name, zone, t, w, alias, u :: FromListing(b, lim, key, e, clock, name, zone, t, w, alias, u))
  }

  ghost predicate Sound(b: Backend, lim: Limits, s: Store, clock: nat) {
    forall key :: key in s.cache ==> Origin(b, lim, key, s.cache[key], clock)
  }

  // A key says what kind of question it is.
  lemma KeysApart(a: Kind, name: string, c: Kind, other: string)
    ensures KeyFor(a, name) == KeyFor(c, other) ==> a == c && SameName(a, name, other)
    ensures KeyFor(a, name) != RblKey(other)
  {
    assert KeyFor(a, name)[0] == (match a case Host => 'h' case Mx => 'm' case Txt => 't' case Ptr => 'p');
    assert KeyFor(c, other)[0] == (match c case Host => 'h' case Mx => 'm' case Txt => 't' case Ptr => 'p');
    assert RblKey(other)[0] == 'r';
    if KeyFor(a, name) == KeyFor(c, other) {
      var n := if a == Mx then 3 else if a == Host then 5 else 4;
      assert KeyFor(a, name)[n..] == KeyFor(c, other)[n..];
    }
  }

  lemma RblKeyInjective(a: string, c: string)
    ensures RblKey(a) == RblKey(c) ==> a == c
  {
    assert RblKey(a)[4..] == a && RblKey(c)[4..] == c;
  }

  /** What is found under a question's key is an answer to that question, up to the letter case of
      its name, stored at most ttl ago; so the type assertion on it cannot fail. */
  lemma FoundIsAnswer(b: Backend, lim: Limits, s: Store, clock: nat, kind: Kind, name: string, now: nat)
    returns (alias: string, t: nat, w: nat)
    requires Sound(b, lim, s, clock) && clock <= now && Found(s, KeyFor(kind, name), now).Some?
    ensures Found(s, KeyFor(kind, name), now) == Some(Names(Ask(b, kind, alias, t)))
    ensures s.cache[KeyFor(kind, name)].expires == w + lim.ttl
    ensures t <= w <= t + lim.timeout && w <= now <= w + lim.ttl && SameName(kind, name, alias)
  {
    var key := KeyFor(kind, name);
    var e := s.cache[key];
    assert Origin(b, lim, key, e, clock);
    if k, n, u, v :| FromNames(b, lim, key, e, clock, k, n, u, v) {
      KeysApart(kind, name, k, n);
      alias, t, w := n, u, v;
    } else {
      var n, zone, u, v, al, x :| FromListing(b, lim, key, e, clock, n, zone, u, v, al, x);
      KeysApart(kind, name, kind, n);
      assert false;
    }
  }

  lemma FoundIsListing(b: Backend, lim: Limits, s: Store, clock: nat, name: string, now: nat)
    returns (zone: string, t: nat, w: nat, alias: string, u: nat)
    requires Sound(b, lim, s, clock) && clock <= now && Found(s, RblKey(name), now).Some?
    ensures Found(s, RblKey(name), now) == Some(Listing(Listed(b, name, zone, t, Ask(b, Txt, alias, u))))
    ensures ListingTimes(lim, t, w, u) && w <= now <= w + lim.ttl && Lower(alias) == Lower(name)
  {
    var key := RblKey(name);
    var e := s.cache[key];
    assert Origin(b, lim, key, e, clock);
    if k, n, v, x :| FromNames(b, lim, key, e, clock, k, n, v, x) {
      KeysApart(k, n, k, name);
      assert false;
    } else {
      var n, z, v, x, al, y :| FromListing(b, lim, key, e, clock, n, z, v, x, al, y);
      RblKeyInjective(name, n);
      zone, t, w, alias, u := z, v, x, al, y;
    }
  }

  lemma SoundLater(b: Backend, lim: Limits, s: Store, clock: nat, now: nat)
    requires Sound(b, lim, s, clock) && clock <= now
    ensures Sound(b, lim, s, now)
  {
    forall key | key in s.cache ensures Origin(b, lim, key, s.cache[key], now) {
      var e := s.cache[key];
      assert Origin(b, lim, key, e, clock);
      if k, n, t, w :| FromNames(b, lim, key, e, clock, k, n, t, w) {
        assert FromNames(b, lim, key, e, now, k, n, t, w);
      } else {
        var n, z, t, w, al, u :| FromListing(b, lim, key, e, clock, n, z, t, w, al, u);
        assert FromListing(b, lim, key, e, now, n, z, t, w, al, u);
      }
    }
  }

  // ------------------------------------------------------------------- the answers

  // A reply between start and done to a question: a backend answer to it, stored by then and not
  // more than ttl before start, and asked at most one timeout before that.
  ghost predicate Recent(b: Backend, lim: Limits, kind: Kind, name: string, start: nat, done: nat,
                         answer: seq<string>) {
    exists alias, t, w :: RecentAs(b, lim, kind, name, start, done, answer, alias, t, w)
  }

  ghost predicate RecentAs(b: Backend, lim: Limits, kind: Kind, name: string, start: nat, done: nat,
                           answer: seq<string>, alias: string, t: nat, w: nat) {
    && t <= w <= t + lim.timeout && w <= done && start <= w + lim.ttl && SameName(kind, name, alias)
    && answer == Ask(b, kind, alias, t)
  }

  ghost predicate RecentListing(b: Backend, lim: Limits, name: string, at: When, r: RblResult) {
    exists zone, t, w, alias, u :: RecentListingAs(b, lim, name, at, r, zone, t, w, alias, u)
  }

  ghost predicate RecentListingAs(b: Backend, lim: Limits, name: string, at: When, r: RblResult,
                                  zone: string, t: nat, w: nat, alias: string, u: nat) {
    && ListingTimes(lim, t, w, u) && w <= at.done && at.start <= w + lim.ttl && Lower(alias) == Lower(name)
    && r == Listed(b, name, zone, t, Ask(b, Txt, alias, u))
  }

  /** Every lookup keeps the cache sound and is answered by a recent answer. */
  lemma NamesStepSound(b: Backend, lim: Limits, s: Store, clock: nat, kind: Kind, name: string, asked: nat, stored: nat)
    requires Sound(b, lim, s, clock) && clock <= asked <= stored <= asked + lim.timeout
    ensures var (s', answer) := NamesStep(b, lim, s, kind, name, asked, stored);
      Sound(b, lim, s', stored) && Recent(b, lim, kind, name, asked, stored, answer)
  {
    SoundLater(b, lim, s, clock, stored);
    var answer := NamesStep(b, lim, s, kind, name, asked, stored).1;
    if Found(s, KeyFor(kind, name), asked).Some? {
      var alias, t, w := FoundIsAnswer(b, lim, s, clock, kind, name, asked);
      assert RecentAs(b, lim, kind, name, asked, stored, answer, alias, t, w);
    } else {
      var e := Entry(Names(answer), stored + lim.ttl);
      assert FromNames(b, lim, KeyFor(kind, name), e, stored, kind, name, asked, stored);
      assert RecentAs(b, lim, kind, name, asked, stored, answer, name, asked, stored);
    }
  }

  lemma RblStepSound(b: Backend, lim: Limits, s: Store, clock: nat, name: string, zone: string, at: When)
    requires Sound(b, lim, s, clock) && clock <= at.start && Timely(lim, at)
    ensures var (s', r) := RblStep(b, lim, s, name, zone, at);
      Sound(b, lim, s', at.done) && RecentListing(b, lim, name, at, r)
  {
    SoundLater(b, lim, s, clock, at.mid);
    SoundLater(b, lim, s, clock, at.done);
    if Found(s, RblKey(name), at.start).Some? {
      var z, t, w, alias, u := FoundIsListing(b, lim, s, clock, name, at.start);
      assert RecentListingAs(b, lim, name, at, RblStep(b, lim, s, name, zone, at).1, z, t, w, alias, u);
    } else {
      var alias, u := CommentSound(b, lim, s, clock, name, at);
      var (after, txt) := CommentStep(b, lim, s, name, at);
      var r := Listed(b, name, zone, at.start, txt);
      assert r == Listed(b, name, zone, at.start, Ask(b, Txt, alias, u));
      assert FromListing(b, lim, RblKey(name), Entry(Listing(r), at.done + lim.ttl), at.done,
                         name, zone, at.start, at.done, alias, u);
      assert RecentListingAs(b, lim, name, at, r, zone, at.start, at.done, alias, u);
    }
  }

  // The comment's TXT answer, when there is one.
  lemma CommentSound(b: Backend, lim: Limits, s: Store, clock: nat, name: string, at: When)
    returns (alias: string, u: nat)
    requires Sound(b, lim, s, clock) && clock <= at.start && Timely(lim, at)
    ensures var (after, txt) := CommentStep(b, lim, s, name, at);
      && Sound(b, lim, after, at.done) && ListingTimes(lim, at.start, at.done, u) && Lower(alias) == Lower(name)
      && (HasAddresses(b, name, at.start) ==> txt == Ask(b, Txt, alias, u))
  {
    if HasAddresses(b, name, at.start) {
      var txt := CommentStep(b, lim, s, name, at).1;
      NamesStepSound(b, lim, s, clock, Txt, name, at.mid, at.done);
      var w;
      alias, u, w :| RecentAs(b, lim, Txt, name, at.mid, at.done, txt, alias, u, w);
    } else {
      SoundLater(b, lim, s, clock, at.done);
      alias, u := name, at.done;
    }
  }

  ghost predicate Blind(b: Backend, kind: Kind, a: string, c: string) {
    forall t: nat :: b.query(kind, a, t) == b.query(kind, c, t)
  }

  ghost predicate Steady(b: Backend, kind: Kind, name: string) {
    forall t: nat, u: nat :: b.query(kind, name, t) == b.query(kind, name, u)
  }

  // A backend that never changes its mind and does not see letter case.
  ghost predicate Fixed(b: Backend) {
    && (forall kind: Kind, a: string, c: string :: kind != Ptr && Lower(a) == Lower(c) ==> Blind(b, kind, a, c))
    && forall kind: Kind, name: string :: Steady(b, kind, name)
  }

  lemma FixedAsk(b: Backend, kind: Kind, name: string, alias: string, t: nat, u: nat)
    requires Fixed(b) && SameName(kind, name, alias)
    ensures Ask(b, kind, alias, t) == Ask(b, kind, name, u)
  {
    assert Steady(b, kind, name);
    if kind != Ptr { assert Blind(b, kind, alias, name); }
    assert b.query(kind, alias, t) == b.query(kind, name, t) == b.query(kind, name, u);
  }

  /** Against a fixed backend a cached answer is the uncached one. */
  lemma RecentIsExact(b: Backend, lim: Limits, kind: Kind, name: string, start: nat, done: nat, answer: seq<string>)
    requires Fixed(b) && Recent(b, lim, kind, name, start, done, answer)
    ensures answer == Ask(b, kind, name, start)
  {
    var alias, t, w :| RecentAs(b, lim, kind, name, start, done, answer, alias, t, w);
    FixedAsk(b, kind, name, alias, t, start);
  }

  /** So is a cached listing, but for the spelling of its zone. */
  lemma RecentListingIsExact(b: Backend, lim: Limits, name: string, zone: string, at: When, r: RblResult)
    requires Fixed(b) && RecentListing(b, lim, name, at, r)
    ensures r.(zone := zone) == Listed(b, name, zone, at.start, Ask(b, Txt, name, at.start))
  {
    var z, t, w, alias, u :| RecentListingAs(b, lim, name, at, r, z, t, w, alias, u);
    FixedAsk(b, Txt, name, alias, u, at.start);
    assert Steady(b, Host, name);
    assert b.query(Host, name, t) == b.query(Host, name, at.start);
  }

  // When the TXT answer that a new listing takes its comment from was stored.
  function CommentStored(lim: Limits, s: Store, name: string, at: When): int {
    if Found(s, KeyFor(Txt, name), at.mid).Some? then s.cache[KeyFor(Txt, name)].expires - lim.ttl else at.done
  }

  // An answer stored then is no older than a cached one may be.
  predicate StillKept(lim: Limits, stored: int, now: nat) {
    now <= stored + lim.ttl
  }

  /** A listing is handed out for ttl after it is stored. Its comment keeps to the same age all that
      time exactly when the TXT answer behind it was stored no earlier than the listing itself, as
      it is when no TXT entry for the name is cached. */
  lemma CommentAge(b: Backend, lim: Limits, s: Store, clock: nat, name: string, at: When)
    returns (alias: string, u: nat)
    requires Sound(b, lim, s, clock) && clock <= at.start && Timely(lim, at) && HasAddresses(b, name, at.start)
    ensures CommentStep(b, lim, s, name, at).1 == Ask(b, Txt, alias, u) && Lower(alias) == Lower(name)
    ensures var w := CommentStored(lim, s, name, at);
      && u <= w <= u + lim.timeout && w <= at.done
      && ((forall now: nat :: at.done <= now <= at.done + lim.ttl ==> StillKept(lim, w, now)) <==> w == at.done)
    ensures Found(s, KeyFor(Txt, name), at.mid).None? ==> CommentStored(lim, s, name, at) == at.done
  {
    if Found(s, KeyFor(Txt, name), at.mid).Some? {
      var w;
      alias, u, w := FoundIsAnswer(b, lim, s, clock, Txt, name, at.mid);
    } else {
      alias, u := name, at.mid;
    }
    assert StillKept(lim, CommentStored(lim, s, name, at), at.done + lim.ttl) ==>
           CommentStored(lim, s, name, at) >= at.done;
  }

  // ------------------------------------------------------------------- the resolver

  class Resolver {
    const backend: Backend
    const lim: Limits
    const enabled: bool            // false stands for the nil resolver
    const rbls: seq<string>
    var cache: map<string, Entry>
    var hits: nat
    var lookups: nat
    ghost var clock: nat

    constructor (b: Backend, keep: Limits, on: bool, zones: seq<string>)
      ensures backend == b && lim == keep && enabled == on && rbls == zones
      ensures clock == 0 && View() == Store(map[], 0, 0) && Valid()
    {
      backend, lim, enabled, rbls := b, keep, on, zones;
      cache, hits, lookups, clock := map[], 0, 0, 0;
    }

    function View(): Store
      reads this
    {
      Store(cache, hits, lookups)
    }

    ghost predicate Valid()
      reads this
    {
      Sound(backend, lim, View(), clock)
    }

    method Get(key: string, now: nat) returns (v: Option<Value>)
      modifies this`hits
      ensures v == Found(old(View()), key, now)
      ensures View() == if v.Some? then CountHit(old(View())) else old(View())
    {
      if key !in cache || now > cache[key].expires { return None; }
      hits := hits + 1;
      return Some(cache[key].value);
    }

    method PutEntry(key: string, value: Value, now: nat)
      modifies this`cache, this`lookups
      ensures View() == Put(old(View()), key, value, now + lim.ttl)
    {
      cache := cache[key := Entry(value, now + lim.ttl)];
      lookups := lookups + 1;
    }

    // The shape all four lookups share; they differ in key, order and trimming.
    method Lookup(kind: Kind, name: string, asked: nat, stored: nat) returns (answer: seq<string>)
      requires Valid() && clock <= asked <= stored <= asked + lim.timeout
      modifies this`cache, this`hits, this`lookups, this`clock
      ensures Valid() && clock == stored
      ensures !enabled || name == "" ==> answer == [] && View() == old(View())
      ensures enabled && name != "" ==>
        (View(), answer) == NamesStep(backend, lim, old(View()), kind, name, asked, stored) &&
        Recent(backend, lim, kind, name, asked, stored, answer)
    {
      SoundLater(backend, lim, View(), clock, stored);
      NamesStepSound(backend, lim, View(), clock, kind, name, asked, stored);
      ghost var before := clock;
      clock := stored;
      if !enabled || name == "" { return []; }
      var key := KeyFor(kind, name);
      var v := Get(key, asked);
      if v.Some? {
        ghost var alias, t, w := FoundIsAnswer(backend, lim, old(View()), before, kind, name, asked);
        return v.value.names;
      }
      answer := Query(kind, name, asked);
      PutEntry(key, Names(answer), stored);
    }

    // The uncached part: ask the backend, then sort addresses and trim reverse names.
    method Query(kind: Kind, name: string, now: nat) returns (names: seq<string>)
      ensures names == Ask(backend, kind, name, now)
    {
      var raw := backend.query(kind, name, now);
      names := if raw.None? then [] else raw.value;
      if kind == Host {
        names := backend.sort(names);
      } else if kind == Ptr {
        var trimmed := [];
        var i := 0;
        while i < |names|
          invariant i <= |names| && trimmed == NoDots(names[..i])
        {
          assert names[..i + 1] == names[..i] + [names[i]];
          trimmed := trimmed + [TrimSuffix(names[i], ".")];
          i := i + 1;
        }
        assert names[..i] == names;
        names := trimmed;
      }
    }

    method HasMX(domain: string, asked: nat, stored: nat) returns (yes: bool)
      requires Valid() && clock <= asked <= stored <= asked + lim.timeout
      modifies this`cache, this`hits, this`lookups, this`clock
      ensures Valid() && clock == stored
      ensures !enabled || domain == "" ==> !yes && View() == old(View())
      ensures enabled && domain != "" ==>
        var (after, hosts) := NamesStep(backend, lim, old(View()), Mx, domain, asked, stored);
        View() == after && (yes <==> hosts != []) && Recent(backend, lim, Mx, domain, asked, stored, hosts)
      ensures Fixed(backend) && enabled && domain != "" ==> (yes <==> Ask(backend, Mx, domain, asked) != [])
    {
      var hosts := Lookup(Mx, domain, asked, stored);
      if enabled && domain != "" { HasExact(domain, asked, stored, hosts); }
      return |hosts| > 0;
    }

    lemma HasExact(domain: string, asked: nat, stored: nat, hosts: seq<string>)
      requires Recent(backend, lim, Mx, domain, asked, stored, hosts)
      ensures Fixed(backend) ==> hosts == Ask(backend, Mx, domain, asked)
    {
      if Fixed(backend) { RecentIsExact(backend, lim, Mx, domain, asked, stored, hosts); }
    }

    method CheckRBL(ip: string, zone: string, at: When) returns (r: RblResult)
      requires Valid() && clock <= at.start && Timely(lim, at)
      modifies this`cache, this`hits, this`lookups, this`clock
      ensures Valid() && clock == at.done
      ensures var name := RblName(backend, ip, zone);
        if !enabled || name == "" then r == RblResult(zone, false, [], "") && View() == old(View())
        else
          (View(), r) == RblStep(backend, lim, old(View()), name, zone, at) && RecentListing(backend, lim, name, at, r)
    {
      var name := RblName(backend, ip, zone);
      SoundLater(backend, lim, View(), clock, at.done);
      RblStepSound(backend, lim, View(), clock, name, zone, at);
      ghost var before := clock;
      if !enabled || name == "" {
        clock := at.done;
        return RblResult(zone, false, [], "");
      }
      var v := Get(RblKey(name), at.start);
      if v.Some? {
        ghost var z, t, w, alias, u := FoundIsListing(backend, lim, old(View()), before, name, at.start);
        r := v.value.result;
      } else {
        r := QueryListing(name, zone, at);
      }
      clock := at.done;
    }

    // A zone that is not in the cache: addresses from the backend, the comment through the cache.
    method QueryListing(name: string, zone: string, at: When) returns (r: RblResult)
      requires Valid() && clock <= at.start && Timely(lim, at)
      requires enabled && name != "" && Found(View(), RblKey(name), at.start).None?
      modifies this`cache, this`hits, this`lookups, this`clock
      ensures (View(), r) == RblStep(backend, lim, old(View()), name, zone, at)
    {
      var addrs := backend.query(Host, name, at.start);
      r := RblResult(zone, false, [], "");
      if addrs.Some? && |addrs.value| > 0 {
        r := r.(listed := true, codes := addrs.value);
        var txt := Lookup(Txt, name, at.mid, at.done);
        if |txt| > 0 { r := r.(comment := txt[0]); }
      }
      PutEntry(RblKey(name), Listing(r), at.done);
    }

    // Reply k is a recent listing of the address in zone k, or the empty one when there is no name to look up.
    ghost predicate RecentIn(ip: string, times: seq<When>, results: seq<RblResult>, k: nat)
      requires k < |results| <= |rbls| && |rbls| == |times|
    {
      ReplyTo(ip, rbls[k], times[k], results[k])
    }

    ghost predicate ReplyTo(ip: string, zone: string, at: When, r: RblResult) {
      if RblName(backend, ip, zone) == "" then r == RblResult(zone, false, [], "")
      else RecentListing(backend, lim, RblName(backend, ip, zone), at, r)
    }

    method CheckRBLs(ip: string, times: seq<When>) returns (listed: bool, results: seq<RblResult>)
      requires Valid() && |times| == |rbls| && Rising(lim, times) && (times != [] ==> clock <= times[0].start)
      modifies this`cache, this`hits, this`lookups, this`clock
      ensures Valid()
      ensures |results| == (if enabled then |rbls| else 0) && listed == AnyListed(results)
      ensures forall k :: 0 <= k < |results| ==> RecentIn(ip, times, results, k)
    {
      listed, results := false, [];
      if !enabled { return; }
      var k := 0;
      while k < |rbls|
        invariant k <= |rbls| && |results| == k && Valid() && (k < |rbls| ==> clock <= times[k].start)
        invariant listed == AnyListed(results) && forall j :: 0 <= j < k ==> RecentIn(ip, times, results, j)
      {
        var one := CheckRBL(ip, rbls[k], times[k]);
        OneMore(ip, times, results, one);
        results := results + [one];
        if one.listed { listed := true; }
        k := k + 1;
      }
    }

    lemma OneMore(ip: string, times: seq<When>, results: seq<RblResult>, one: RblResult)
      requires |results| < |rbls| == |times| && forall j :: 0 <= j < |results| ==> RecentIn(ip, times, results, j)
      requires ReplyTo(ip, rbls[|results|], times[|results|], one)
      ensures forall j :: 0 <= j <= |results| ==> RecentIn(ip, times, results + [one], j)
      ensures AnyListed(results + [one]) == (AnyListed(results) || one.listed)
    {
      forall j | 0 <= j <= |results| ensures RecentIn(ip, times, results + [one], j) {
        if j < |results| { assert RecentIn(ip, times, results, j); }
      }
      assert (results + [one])[..|results|] == results;
    }
  }

  // Calls one after the other, each in time.
  predicate Rising(lim: Limits, times: seq<When>) {
    && (forall i :: 0 <= i < |times| ==> Timely(lim, times[i]))
    && forall i, j :: 0 <= i < j < |times| ==> times[i].done <= times[j].start
  }

  predicate AnyListed(results: seq<RblResult>) {
    results != [] && (AnyListed(results[..|results| - 1]) || results[|results| - 1].listed)
  }

  // The name looked up for an address in a zone; "" when there is nothing to look up.
  function RblName(b: Backend, ip: string, zone: string): string {
    if ip == "" || zone == "" || b.reverse(ip) == "" then "" else b.reverse(ip) + "." + TrimSuffix(zone, ".")
  }
}
