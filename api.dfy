/**
 * The access check of api.go's upload and cache endpoints: the remote host must be in the
 * whitelist, be an address some whitelisted host name resolves to, or be the local proxy
 * forwarding a whitelisted `X-Real-Ip`; and the `api-key` header must equal the configured
 * key. Splitting the remote address, recognising IP literals and DNS resolution are inputs.
 */
module Api {
  import opened Results
  import Discovery

  /** The parts of a request the check reads; an absent header reads as "". */
  datatype Request = Request(remoteAddr: string, realIp: string, apiKey: string)

  /** Whitelist entry `entry` is a host name that resolves (among others) to `host`. */
  predicate ResolvesTo(entry: string, host: string, isIP: string -> bool, lookupHost: string -> Option<seq<string>>)
  {
    !isIP(entry) && lookupHost(entry).Some? && host in lookupHost(entry).value
  }

  /**
   * The entries the resolution loop looks up, in order: every entry that is not an IP
   * literal, up to and including the first that resolves to `host`.
   */
  function Lookups(wl: seq<string>, host: string, isIP: string -> bool,
                   lookupHost: string -> Option<seq<string>>): (r: seq<string>)
    ensures forall i :: 0 <= i < |r| ==> r[i] in wl && !isIP(r[i])
  {
    if wl == [] then []
    else if isIP(wl[0]) then Lookups(wl[1..], host, isIP, lookupHost)
    else if ResolvesTo(wl[0], host, isIP, lookupHost) then [wl[0]]
    else [wl[0]] + Lookups(wl[1..], host, isIP, lookupHost)
  }

  /** Some whitelist entry is a host name resolving to `host`. */
  predicate NameResolves(wl: seq<string>, host: string, isIP: string -> bool,
                         lookupHost: string -> Option<seq<string>>)
  {
    exists i :: 0 <= i < |wl| && ResolvesTo(wl[i], host, isIP, lookupHost)
  }

  /** The address stage: literal match, DNS match, or the proxy's forwarded address. */
  predicate AddressAllowed(wl: seq<string>, host: string, realIp: string, isIP: string -> bool,
                           lookupHost: string -> Option<seq<string>>)
  {
    host in wl
    || NameResolves(wl, host, isIP, lookupHost)
    || (host == "127.0.0.1" && realIp != "" && realIp in wl)
  }

  /** The request is accepted. */
  predicate Accepts(wl: seq<string>, apiKey: string, r: Request, splitHost: string -> Option<string>,
                    isIP: string -> bool, lookupHost: string -> Option<seq<string>>)
  {
    |wl| > 0
    && splitHost(r.remoteAddr).Some?
    && AddressAllowed(wl, splitHost(r.remoteAddr).value, r.realIp, isIP, lookupHost)
    && r.apiKey == apiKey
  }

  /** The host names resolved while checking the request. */
  function LookupsMade(wl: seq<string>, r: Request, splitHost: string -> Option<string>,
                       isIP: string -> bool, lookupHost: string -> Option<seq<string>>): seq<string>
  {
    if |wl| == 0 || splitHost(r.remoteAddr).None? || splitHost(r.remoteAddr).value in wl then []
    else Lookups(wl, splitHost(r.remoteAddr).value, isIP, lookupHost)
  }

  /**
   * The resolution loop: looks up each entry that is not an IP literal, skipping failed
   * lookups, until one resolves to `host`.
   */
  method ResolveWhitelist(wl: seq<string>, host: string, isIP: string -> bool,
                          lookupHost: string -> Option<seq<string>>)
    returns (found: bool, resolved: seq<string>)
    ensures found == NameResolves(wl, host, isIP, lookupHost)
    ensures resolved == Lookups(wl, host, isIP, lookupHost)
  {
    found, resolved := false, [];
    var i := 0;
    assert wl[0..] == wl;
    while i < |wl|
      invariant 0 <= i <= |wl|
      invariant !found ==> resolved + Lookups(wl[i..], host, isIP, lookupHost) == Lookups(wl, host, isIP, lookupHost)
      invariant found ==> resolved == Lookups(wl, host, isIP, lookupHost)
      invariant found == EndsOnMatch(resolved, host, isIP, lookupHost)
    {
      var entry := wl[i];
      LookupsFrom(wl, i, host, isIP, lookupHost);
      if isIP(entry) {
        i := i + 1;
        continue;
      }
      ghost var rest := Lookups(wl[i + 1..], host, isIP, lookupHost);
      assert (resolved + [entry]) + rest == resolved + ([entry] + rest);
      resolved := resolved + [entry];
      var addrs := lookupHost(entry);
      if addrs.None? {
        i := i + 1;
        continue;
      }
      var hit := Discovery.SliceContains(addrs.value, host);
      if hit {
        found := true;
        break;
      }
      i := i + 1;
    }
    if !found {
      assert wl[i..] == [];
    }
    LookupsEndOnMatch(wl, host, isIP, lookupHost);
  }

  /** Where the resolution loop stands at entry `i`. */
  lemma LookupsFrom(wl: seq<string>, i: nat, host: string, isIP: string -> bool,
                    lookupHost: string -> Option<seq<string>>)
    requires i < |wl|
    ensures Lookups(wl[i..], host, isIP, lookupHost) ==
      if isIP(wl[i]) then Lookups(wl[i + 1..], host, isIP, lookupHost)
      else if ResolvesTo(wl[i], host, isIP, lookupHost) then [wl[i]]
      else [wl[i]] + Lookups(wl[i + 1..], host, isIP, lookupHost)
  {
    assert wl[i..][1..] == wl[i + 1..];
  }

  /** Some entry from `i` on resolves to `host` when entry `i` does or a later one does. */
  lemma NameResolvesFrom(wl: seq<string>, i: nat, host: string, isIP: string -> bool,
                         lookupHost: string -> Option<seq<string>>)
    requires i < |wl|
    ensures NameResolves(wl[i..], host, isIP, lookupHost)
      <==> ResolvesTo(wl[i], host, isIP, lookupHost) || NameResolves(wl[i + 1..], host, isIP, lookupHost)
  {
    var s, t := wl[i..], wl[i + 1..];
    if NameResolves(s, host, isIP, lookupHost) {
      var j :| 0 <= j < |s| && ResolvesTo(s[j], host, isIP, lookupHost);
      if j > 0 {
        assert t[j - 1] == s[j];
      }
    }
    if NameResolves(t, host, isIP, lookupHost) {
      var j :| 0 <= j < |t| && ResolvesTo(t[j], host, isIP, lookupHost);
      assert s[j + 1] == t[j];
    }
    if ResolvesTo(wl[i], host, isIP, lookupHost) {
      assert s[0] == wl[i];
    }
  }

  /** checkApiKey: the sequential checks, with the host names it resolves on the way. */
  method CheckApiKey(wl: seq<string>, apiKey: string, r: Request, splitHost: string -> Option<string>,
                     isIP: string -> bool, lookupHost: string -> Option<seq<string>>)
    returns (ok: bool, resolved: seq<string>)
    ensures ok == Accepts(wl, apiKey, r, splitHost, isIP, lookupHost)
    ensures resolved == LookupsMade(wl, r, splitHost, isIP, lookupHost)
  {
    resolved := [];
    if |wl| == 0 {
      return false, resolved;
    }
    var split := splitHost(r.remoteAddr);
    if split.None? {
      return false, resolved;
    }
    var host := split.value;
    var found := Discovery.SliceContains(wl, host);
    if !found {
      found, resolved := ResolveWhitelist(wl, host, isIP, lookupHost);
    }
    if !found && host == "127.0.0.1" {
      var realIp := r.realIp;
      if realIp != "" {
        found := Discovery.SliceContains(wl, realIp);
      }
    }
    if !found {
      return false, resolved;
    }
    if r.apiKey != apiKey {
      return false, resolved;
    }
    return true, resolved;
  }

  /** The last entry looked up resolves to `host`. */
  predicate EndsOnMatch(ls: seq<string>, host: string, isIP: string -> bool,
                        lookupHost: string -> Option<seq<string>>)
  {
    ls != [] && ResolvesTo(ls[|ls| - 1], host, isIP, lookupHost)
  }

  lemma EndsOnMatchCons(x: string, rest: seq<string>, host: string, isIP: string -> bool,
                        lookupHost: string -> Option<seq<string>>)
    requires !ResolvesTo(x, host, isIP, lookupHost)
    ensures EndsOnMatch([x] + rest, host, isIP, lookupHost) == EndsOnMatch(rest, host, isIP, lookupHost)
  {
    if rest != [] {
      assert ([x] + rest)[|rest|] == rest[|rest| - 1];
    }
  }

  /** A host name resolving to the host is found exactly when the lookups end on one that does. */
  lemma {:induction false} LookupsEndOnMatch(wl: seq<string>, host: string, isIP: string -> bool,
                                             lookupHost: string -> Option<seq<string>>)
    ensures NameResolves(wl, host, isIP, lookupHost)
        <==> EndsOnMatch(Lookups(wl, host, isIP, lookupHost), host, isIP, lookupHost)
  {
    if wl != [] {
      LookupsEndOnMatch(wl[1..], host, isIP, lookupHost);
      assert wl[0..] == wl;
      NameResolvesFrom(wl, 0, host, isIP, lookupHost);
      if !isIP(wl[0]) && !ResolvesTo(wl[0], host, isIP, lookupHost) {
        EndsOnMatchCons(wl[0], Lookups(wl[1..], host, isIP, lookupHost), host, isIP, lookupHost);
      }
    }
  }

  /** The forwarded address counts only for requests arriving from 127.0.0.1. */
  lemma RealIpOnlyFromLoopback(wl: seq<string>, apiKey: string, r: Request, realIp: string,
                               splitHost: string -> Option<string>, isIP: string -> bool,
                               lookupHost: string -> Option<seq<string>>)
    requires splitHost(r.remoteAddr) != Some("127.0.0.1")
    ensures Accepts(wl, apiKey, r, splitHost, isIP, lookupHost)
        == Accepts(wl, apiKey, r.(realIp := realIp), splitHost, isIP, lookupHost)
  {
  }

  /** A host listed literally resolves no host name at all. */
  lemma LiteralHostResolvesNothing(wl: seq<string>, r: Request, splitHost: string -> Option<string>,
                                   isIP: string -> bool, lookupHost: string -> Option<seq<string>>)
    requires splitHost(r.remoteAddr).Some? && splitHost(r.remoteAddr).value in wl
    ensures LookupsMade(wl, r, splitHost, isIP, lookupHost) == []
  {
  }
}
