/** The resolver's answers in terms of the backend's: which are passed on as they are, what counts as
    a listing, and which name is looked up for an address. */
module DnsRules {
  import opened Text
  import opened DnsCache

  /** Exchangers and texts come as the backend gave them, addresses in order, reverse names without
      their final dot; a query that failed comes as no answer. */
  lemma AnswerMeaning(b: Backend, name: string, t: nat)
    ensures forall kind :: b.query(kind, name, t).None? ==>
      Ask(b, kind, name, t) == if kind == Host then b.sort([]) else []
    ensures b.query(Host, name, t).Some? ==> Ask(b, Host, name, t) == b.sort(b.query(Host, name, t).value)
    ensures b.query(Mx, name, t).Some? ==> Ask(b, Mx, name, t) == b.query(Mx, name, t).value
    ensures b.query(Txt, name, t).Some? ==> Ask(b, Txt, name, t) == b.query(Txt, name, t).value
    ensures b.query(Ptr, name, t).Some? ==>
      var names, answer := b.query(Ptr, name, t).value, Ask(b, Ptr, name, t);
      |answer| == |names| && forall k :: 0 <= k < |names| ==> answer[k] == Undotted(names[k])
  {
    forall s: string ensures TrimSuffix(s, ".") == Undotted(s) { UndottedIs(s); }
  }

  // Without one dot at the end.
  function Undotted(s: string): string {
    if s != "" && s[|s| - 1] == '.' then s[..|s| - 1] else s
  }

  lemma UndottedIs(s: string)
    ensures TrimSuffix(s, ".") == Undotted(s)
  {
    if s != "" { assert s[|s| - 1..] == [s[|s| - 1]]; }
  }

  // The zone lists the name: its query brings an address.
  predicate HasAddress(b: Backend, name: string, t: nat) {
    match b.query(Host, name, t)
    case None => false
    case Some(addrs) => addrs != []
  }

  /** Against a fixed backend a block-list reply, cached or not, says listed exactly when the name has
      an address, gives those addresses as its codes, and the first TXT record as its comment. */
  lemma ListingMeaning(b: Backend, lim: Limits, name: string, zone: string, at: When, r: RblResult)
    requires Fixed(b) && RecentListing(b, lim, name, at, r)
    ensures r.listed <==> HasAddress(b, name, at.start)
    ensures r.listed ==> r.codes == b.query(Host, name, at.start).value
    ensures r.listed ==>
      var txt := b.query(Txt, name, at.start);
      r.comment == if txt.Some? && txt.value != [] then txt.value[0] else ""
    ensures !r.listed ==> r.codes == [] && r.comment == ""
  {
    RecentListingIsExact(b, lim, name, zone, at, r);
    assert r.(zone := zone).codes == r.codes && r.(zone := zone).comment == r.comment;
  }

  /** Against a fixed backend a domain has an exchanger exactly when its query names one. */
  lemma ExchangerMeaning(b: Backend, lim: Limits, domain: string, start: nat, done: nat, hosts: seq<string>)
    requires Fixed(b) && Recent(b, lim, Mx, domain, start, done, hosts)
    ensures hosts != [] <==>
      match b.query(Mx, domain, start)
      case None => false
      case Some(names) => names != []
  {
    RecentIsExact(b, lim, Mx, domain, start, done, hosts);
  }

  /** An address is looked up in a zone under its reversal and the zone without its final dot; what is
      no address, and no zone, is not looked up. */
  lemma LookupName(b: Backend, ip: string, zone: string)
    ensures RblName(b, ip, zone) ==
            if ip == "" || zone == "" || b.reverse(ip) == "" then "" else b.reverse(ip) + "." + Undotted(zone)
  {
    UndottedIs(zone);
  }
}
