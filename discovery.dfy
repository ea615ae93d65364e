/**
 * The host list of discoverOllamaHosts: uniqueHosts, the candidates (the
 * hosts of the CIDR block followed by the extra hosts, deduplicated and
 * trimmed to maxHosts) and the endpoints found, sorted by latency.
 */
module Discovery {
  import opened Wrappers
  import opened JsNumber
  import opened Cidr

  // ---------------------------------------------------------------------------
  // uniqueHosts

  /** The first occurrence of each non-empty host, in input order. */
  function Firsts(hosts: seq<string>): seq<string> {
    if hosts == [] then []
    else
      var kept := Firsts(hosts[..|hosts| - 1]);
      var host := hosts[|hosts| - 1];
      if host == "" || host in kept then kept else kept + [host]
  }

  /**
   * uniqueHosts: the forEach over the hosts with a `seen` set, keeping each
   * truthy host the first time it appears.
   */
  method UniqueHosts(hosts: seq<string>) returns (filtered: seq<string>)
    ensures filtered == Firsts(hosts)
  {
    var seen: set<string> := {};
    filtered := [];
    for i := 0 to |hosts|
      invariant filtered == Firsts(hosts[..i])
      invariant forall h :: h in seen <==> h in filtered
    {
      var host := hosts[i];
      assert hosts[..i + 1][..i] == hosts[..i];
      if !(host == "" || host in seen) {
        seen := seen + {host};
        filtered := filtered + [host];
      }
    }
    assert hosts[..|hosts|] == hosts;
  }

  /** The kept hosts are exactly the non-empty hosts of the input, each once. */
  lemma {:induction false} FirstsMembers(hosts: seq<string>)
    ensures forall h :: h in Firsts(hosts) <==> h != "" && h in hosts
    ensures forall i, j :: 0 <= i < j < |Firsts(hosts)| ==> Firsts(hosts)[i] != Firsts(hosts)[j]
  {
    if hosts != [] {
      var init := hosts[..|hosts| - 1];
      FirstsMembers(init);
      assert hosts == init + [hosts[|hosts| - 1]];
    }
  }

  /** The index of the first occurrence of h. */
  function IndexOf(hosts: seq<string>, h: string): (r: nat)
    requires h in hosts
    ensures r < |hosts| && hosts[r] == h && h !in hosts[..r]
  {
    if hosts[0] == h then 0 else 1 + IndexOf(hosts[1..], h)
  }

  lemma {:induction false} IndexOfAppend(hosts: seq<string>, h: string, extra: string)
    requires h in hosts
    ensures IndexOf(hosts + [extra], h) == IndexOf(hosts, h)
  {
    var k := IndexOf(hosts, h);
    var r := IndexOf(hosts + [extra], h);
    assert (hosts + [extra])[k] == h;
    assert hosts[..k] == (hosts + [extra])[..k];
  }

  /** The kept hosts appear in the order of their first occurrences. */
  lemma {:induction false} FirstsOrder(hosts: seq<string>)
    ensures forall h :: h in Firsts(hosts) ==> h in hosts
    ensures forall i, j :: 0 <= i < j < |Firsts(hosts)| ==>
      IndexOf(hosts, Firsts(hosts)[i]) < IndexOf(hosts, Firsts(hosts)[j])
  {
    FirstsMembers(hosts);
    if hosts != [] {
      var n := |hosts| - 1;
      var init := hosts[..n];
      var last := hosts[n];
      var kept := Firsts(init);
      var r := Firsts(hosts);
      FirstsOrder(init);
      FirstsMembers(init);
      assert hosts == init + [last];
      forall h | h in kept ensures IndexOf(hosts, h) == IndexOf(init, h) {
        IndexOfAppend(init, h, last);
      }
      forall i, j | 0 <= i < j < |r| ensures IndexOf(hosts, r[i]) < IndexOf(hosts, r[j]) {
        assert r[i] in kept;
        if j < |kept| {
          assert r[j] in kept;
        } else {
          assert r[j] == last && last !in init;
          assert IndexOf(hosts, last) == n;
        }
      }
    }
  }

  /** Deduplicating a longer list keeps the deduplicated front: the CIDR hosts come before the extra hosts. */
  lemma {:induction false} FirstsPrefix(front: seq<string>, back: seq<string>)
    ensures Firsts(front) <= Firsts(front + back)
  {
    if back != [] {
      var n := |back| - 1;
      FirstsPrefix(front, back[..n]);
      assert (front + back)[..|front + back| - 1] == front + back[..n];
    } else {
      assert front + back == front;
    }
  }

  // ---------------------------------------------------------------------------
  // The candidates

  /** The hosts expandCidr lists for a CIDR text. */
  function CidrHosts(cidr: Option<string>): seq<string> {
    var parsed := ParseCidr(cidr);
    if parsed.None? then []
    else
      var r := RangeOf(parsed.value);
      Texts(Span(r.network + 1, HostCount(r)))
  }

  /** The end index of candidates.slice(0, maxHosts) for an integer maxHosts. */
  function SliceEnd(length: nat, end: int): (r: nat)
    ensures r <= length
  {
    if end < 0 then (if length + end > 0 then length + end else 0)
    else if end < length then end
    else length
  }

  /**
   * The trimming of discoverOllamaHosts: when there are more candidates
   * than maxHosts, candidates.slice(0, maxHosts). A NaN maxHosts compares
   * false and trims nothing.
   */
  function Trimmed(candidates: seq<string>, maxHosts: Num): seq<string> {
    if maxHosts.Int? && |candidates| > maxHosts.value then candidates[..SliceEnd(|candidates|, maxHosts.value)]
    else candidates
  }

  /**
   * The trimmed list is a prefix of the candidates; for maxHosts >= 0 it
   * holds the first min(length, maxHosts) of them, and nothing is cut
   * when they fit or maxHosts is NaN.
   */
  lemma TrimmedPrefix(candidates: seq<string>, maxHosts: Num)
    ensures Trimmed(candidates, maxHosts) <= candidates
    ensures maxHosts.NaN? ==> Trimmed(candidates, maxHosts) == candidates
    ensures maxHosts.Int? && maxHosts.value >= 0 ==>
      |Trimmed(candidates, maxHosts)| == if |candidates| <= maxHosts.value then |candidates| else maxHosts.value
    ensures maxHosts.Int? && maxHosts.value < 0 ==>
      |Trimmed(candidates, maxHosts)| == if |candidates| + maxHosts.value > 0 then |candidates| + maxHosts.value else 0
  {
  }

  /**
   * The candidate hosts of discoverOllamaHosts: the CIDR is the configured
   * one, or the one derived from the network interfaces (a parameter here)
   * when that is falsy; its hosts come first, then the extra hosts; the
   * list is deduplicated and trimmed to maxHosts.
   */
  method Candidates(configCidr: Option<string>, derivedCidr: Option<string>, hosts: seq<string>, maxHosts: Num)
    returns (cidr: Option<string>, candidates: seq<string>)
    ensures cidr == if configCidr.Some? && configCidr.value != "" then configCidr else derivedCidr
    ensures candidates == Trimmed(Firsts(CidrHosts(cidr) + hosts), maxHosts)
  {
    cidr := if configCidr.Some? && configCidr.value != "" then configCidr else derivedCidr;
    var hostsFromCidr := HostsFromCidr(cidr);
    candidates := UniqueHosts(hostsFromCidr + hosts);
    if maxHosts.Int? && |candidates| > maxHosts.value {
      candidates := candidates[..SliceEnd(|candidates|, maxHosts.value)];
    }
  }

  /** cidr ? expandCidr(cidr) : [] */
  method HostsFromCidr(cidr: Option<string>) returns (hosts: seq<string>)
    ensures hosts == CidrHosts(cidr)
  {
    if cidr.Some? && cidr.value != "" {
      hosts := ExpandCidr(cidr);
      ListedHosts(cidr, hosts);
    } else {
      hosts := [];
      assert ParseCidr(cidr).None?;
    }
  }

  lemma ListedHosts(cidr: Option<string>, hosts: seq<string>)
    requires ParseCidr(cidr).None? ==> hosts == []
    requires ParseCidr(cidr).Some? ==> ListsRange(hosts, RangeOf(ParseCidr(cidr).value))
    ensures hosts == CidrHosts(cidr)
  {
  }

  /**
   * The candidates, for the CIDR hosts `front` (CidrHosts of the chosen
   * CIDR) and the extra hosts `back`, start with the deduplicated CIDR
   * hosts when those fit, hold only non-empty hosts of either list, each
   * once, and number at most maxHosts when that is positive.
   */
  lemma CandidatesShape(front: seq<string>, back: seq<string>, maxHosts: Num)
    ensures var c := Trimmed(Firsts(front + back), maxHosts);
      (forall h :: h in c ==> h != "" && h in front + back)
      && (forall i, j :: 0 <= i < j < |c| ==> c[i] != c[j])
      && (maxHosts.Int? && maxHosts.value >= 1 ==> |c| <= maxHosts.value)
      && (maxHosts.Int? && |Firsts(front)| <= maxHosts.value ==> Firsts(front) <= c)
  {
    var all := Firsts(front + back);
    var c := Trimmed(all, maxHosts);
    FirstsMembers(front + back);
    FirstsPrefix(front, back);
    TrimmedPrefix(all, maxHosts);
    assert c == all[..|c|];
    forall h | h in c ensures h in all {
      var k :| 0 <= k < |c| && c[k] == h;
      assert all[k] == h;
    }
    forall i, j | 0 <= i < j < |c| ensures c[i] != c[j] {
      assert c[i] == all[i] && c[j] == all[j];
    }
    var head := Firsts(front);
    if maxHosts.Int? && |head| <= maxHosts.value {
      assert |head| <= |c|;
      assert head == all[..|head|] == c[..|head|];
    }
  }

  // ---------------------------------------------------------------------------
  // The endpoints

  /** A responsive host: its base URL and the probe's latency in milliseconds. */
  datatype Probe = Probe(url: string, latencyMs: int)

  /** responses.map((entry) => entry.result).filter(Boolean) */
  function Present(results: seq<Option<Probe>>): seq<Probe> {
    if results == [] then []
    else (if results[0].Some? then [results[0].value] else []) + Present(results[1..])
  }

  lemma {:induction false} PresentMembers(results: seq<Option<Probe>>)
    ensures forall p :: p in Present(results) <==> Some(p) in results
  {
    if results != [] {
      PresentMembers(results[1..]);
      assert forall r :: r in results <==> r == results[0] || r in results[1..];
    }
  }

  /** Ascending latency. */
  predicate SortedByLatency(s: seq<Probe>) {
    forall i, j :: 0 <= i < j < |s| ==> s[i].latencyMs <= s[j].latencyMs
  }

  /** Insertion before the first probe that is not faster, so equal latencies keep their order. */
  function Insert(p: Probe, sorted: seq<Probe>): seq<Probe> {
    if sorted == [] || p.latencyMs <= sorted[0].latencyMs then [p] + sorted
    else [sorted[0]] + Insert(p, sorted[1..])
  }

  /** .sort((a, b) => (a.latencyMs || 0) - (b.latencyMs || 0)), a stable sort by latency. */
  function SortByLatency(s: seq<Probe>): seq<Probe> {
    if s == [] then [] else Insert(s[0], SortByLatency(s[1..]))
  }

  lemma {:induction false} InsertPermutes(p: Probe, sorted: seq<Probe>)
    ensures multiset(Insert(p, sorted)) == multiset(sorted) + multiset{p}
    ensures forall q :: q in Insert(p, sorted) <==> q == p || q in sorted
  {
    if !(sorted == [] || p.latencyMs <= sorted[0].latencyMs) {
      InsertPermutes(p, sorted[1..]);
      assert sorted == [sorted[0]] + sorted[1..];
    }
  }

  lemma {:induction false} InsertSorted(p: Probe, sorted: seq<Probe>)
    requires SortedByLatency(sorted)
    ensures SortedByLatency(Insert(p, sorted))
  {
    if !(sorted == [] || p.latencyMs <= sorted[0].latencyMs) {
      InsertSorted(p, sorted[1..]);
      InsertPermutes(p, sorted[1..]);
      var rest := Insert(p, sorted[1..]);
      forall q | q in rest ensures sorted[0].latencyMs <= q.latencyMs {
        if q != p {
          var k :| 0 <= k < |sorted[1..]| && sorted[1..][k] == q;
          assert sorted[k + 1] == q;
        }
      }
      assert Insert(p, sorted) == [sorted[0]] + rest;
    }
  }

  /** The sort returns the same probes, in ascending latency. */
  lemma {:induction false} SortByLatencySorts(s: seq<Probe>)
    ensures SortedByLatency(SortByLatency(s))
    ensures multiset(SortByLatency(s)) == multiset(s)
  {
    if s != [] {
      SortByLatencySorts(s[1..]);
      InsertSorted(s[0], SortByLatency(s[1..]));
      InsertPermutes(s[0], SortByLatency(s[1..]));
      assert s == [s[0]] + s[1..];
    }
  }

  /** The probes of s whose latency is ms, in the order of s. */
  function WithLatency(s: seq<Probe>, ms: int): seq<Probe> {
    if s == [] then []
    else (if s[0].latencyMs == ms then [s[0]] else []) + WithLatency(s[1..], ms)
  }

  /** The probes Insert passes over are all faster than p. */
  lemma {:induction false} InsertWithLatency(p: Probe, sorted: seq<Probe>, ms: int)
    ensures WithLatency(Insert(p, sorted), ms)
         == (if p.latencyMs == ms then [p] else []) + WithLatency(sorted, ms)
  {
    if sorted == [] || p.latencyMs <= sorted[0].latencyMs {
      assert ([p] + sorted)[1..] == sorted;
    } else {
      var rest := Insert(p, sorted[1..]);
      var own: seq<Probe> := if p.latencyMs == ms then [p] else [];
      var head: seq<Probe> := if sorted[0].latencyMs == ms then [sorted[0]] else [];
      var tail := WithLatency(sorted[1..], ms);
      assert WithLatency(Insert(p, sorted), ms) == head + WithLatency(rest, ms) by {
        assert Insert(p, sorted) == [sorted[0]] + rest;
        assert ([sorted[0]] + rest)[1..] == rest;
      }
      assert WithLatency(rest, ms) == own + tail by {
        InsertWithLatency(p, sorted[1..], ms);
      }
      assert WithLatency(sorted, ms) == head + tail;
      assert head == [] || own == [];
      assert head + (own + tail) == own + (head + tail);
    }
  }

  /** The sort is stable: probes of equal latency keep their relative order. */
  lemma {:induction false} SortByLatencyStable(s: seq<Probe>, ms: int)
    ensures WithLatency(SortByLatency(s), ms) == WithLatency(s, ms)
  {
    if s != [] {
      SortByLatencyStable(s[1..], ms);
      InsertWithLatency(s[0], SortByLatency(s[1..]), ms);
    }
  }

  /** The endpoints of discoverOllamaHosts, for the probe results in the order they completed. */
  function Endpoints(results: seq<Option<Probe>>): seq<Probe> {
    SortByLatency(Present(results))
  }

  /** The endpoints are exactly the responsive hosts' probes, each as often as it was returned, fastest first. */
  lemma EndpointsSorted(results: seq<Option<Probe>>)
    ensures SortedByLatency(Endpoints(results))
    ensures multiset(Endpoints(results)) == multiset(Present(results))
    ensures forall p :: p in Endpoints(results) <==> Some(p) in results
  {
    SortByLatencySorts(Present(results));
    PresentMembers(results);
    forall p ensures p in Endpoints(results) <==> p in Present(results) {
      assert p in Endpoints(results) <==> p in multiset(Endpoints(results));
      assert p in Present(results) <==> p in multiset(Present(results));
    }
  }
}
