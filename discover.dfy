/** The discovery stage: localhost with retries, then every other address of each local /24,
    probed in batches. Each probe's fetch is replaced by a `ProbeOutcome`: one per localhost
    attempt, and a function of the address for the subnet scan. The interface table is an input. */
module Discover {
  import opened Types
  import opened Text

  /** What one probe's fetch produced: a response with its `ok` flag, or a thrown error
      (refused connection, abort on timeout, ...). */
  datatype ProbeOutcome = Responded(ok: bool) | Threw

  /** `probeOllama`: reachable exactly when a response arrived and was ok; it never throws. */
  function ProbeOllama(o: ProbeOutcome): (reachable: bool)
    ensures reachable <==> o == Responded(true)
  {
    match o
    case Responded(ok) => ok
    case Threw => false
  }

  // ---------------------------------------------------------------------------
  // localhost
  // ---------------------------------------------------------------------------

  function Max0(n: int): nat { if n < 0 then 0 else n }

  /** The retry loop: attempt `k` (from 1) uses `attempts[k - 1]`; `tries` counts the probes made. */
  method CheckLocalhost(retries: int, attempts: seq<ProbeOutcome>) returns (found: bool, tries: nat)
    requires retries <= |attempts|
    ensures tries <= Max0(retries)
    ensures found <==> exists i :: 0 <= i < Max0(retries) && ProbeOllama(attempts[i])
    ensures forall i :: 0 <= i < tries - 1 ==> !ProbeOllama(attempts[i])
    ensures found ==> tries >= 1 && ProbeOllama(attempts[tries - 1])
    ensures !found ==> tries == Max0(retries)
  {
    found := false;
    tries := 0;
    var attempt := 1;
    while attempt <= retries
      invariant 1 <= attempt <= Max0(retries) + 1
      invariant tries == attempt - 1
      invariant forall i :: 0 <= i < tries ==> !ProbeOllama(attempts[i])
    {
      tries := tries + 1;
      if ProbeOllama(attempts[attempt - 1]) {
        found := true;
        break;
      }
      attempt := attempt + 1;
    }
  }

  /** The host recorded when localhost answers. */
  function LocalhostHost(port: int): Host {
    Host("127.0.0.1:" + IntToString(port), "localhost")
  }

  // ---------------------------------------------------------------------------
  // local subnets
  // ---------------------------------------------------------------------------

  /** One address entry of one network interface. */
  datatype IfaceEntry = IfaceEntry(family: string, internal: bool, address: string)

  datatype Subnet = Subnet(base: string, localIp: string)

  /** `entry.address.split(".").slice(0, 3).join(".")`. */
  function SubnetBase(address: string): string {
    var parts := Split(address, '.');
    Join(parts[..if |parts| < 3 then |parts| else 3], '.')
  }

  /** Only external IPv4 entries take part. */
  predicate Considered(e: IfaceEntry) {
    e.family == "IPv4" && !e.internal
  }

  /** The considered entries of one interface (an absent entry list contributes none). */
  function ConsideredIn(entries: seq<IfaceEntry>): seq<IfaceEntry>
    decreases |entries|
  {
    if |entries| == 0 then []
    else
      var e := entries[|entries| - 1];
      ConsideredIn(entries[..|entries| - 1]) + (if Considered(e) then [e] else [])
  }

  /** The considered entries of all interfaces, in visiting order. */
  function Eligible(ifaces: seq<Option<seq<IfaceEntry>>>): seq<IfaceEntry>
    decreases |ifaces|
  {
    if |ifaces| == 0 then []
    else
      var last := ifaces[|ifaces| - 1];
      Eligible(ifaces[..|ifaces| - 1]) + (if last.Some? then ConsideredIn(last.value) else [])
  }

  function Bases(subnets: seq<Subnet>): set<string> {
    set s | s in subnets :: s.base
  }

  /** One step of the deduplication: keep an entry only if its base is new. */
  function AddEntry(subnets: seq<Subnet>, e: IfaceEntry): seq<Subnet> {
    var base := SubnetBase(e.address);
    if base in Bases(subnets) then subnets else subnets + [Subnet(base, e.address)]
  }

  /** At most one subnet per base, in first-seen order, keeping the first address seen. */
  function Dedup(es: seq<IfaceEntry>): seq<Subnet>
    decreases |es|
  {
    if |es| == 0 then [] else AddEntry(Dedup(es[..|es| - 1]), es[|es| - 1])
  }

  lemma DedupSnoc(a: seq<IfaceEntry>, b: seq<IfaceEntry>, e: IfaceEntry)
    ensures Dedup(a + (b + [e])) == AddEntry(Dedup(a + b), e)
  {
    assert a + (b + [e]) == (a + b) + [e];
    assert ((a + b) + [e])[..|a + b|] == a + b;
  }

  lemma BasesSnoc(subnets: seq<Subnet>, s: Subnet)
    ensures Bases(subnets + [s]) == Bases(subnets) + {s.base}
  {
  }

  function LocalSubnets(ifaces: seq<Option<seq<IfaceEntry>>>): seq<Subnet> {
    Dedup(Eligible(ifaces))
  }

  /** `getLocalSubnets`: nested loops over interfaces and their entries, with a `seen` set. */
  method GetLocalSubnets(ifaces: seq<Option<seq<IfaceEntry>>>) returns (subnets: seq<Subnet>)
    ensures subnets == LocalSubnets(ifaces)
  {
    subnets := [];
    var seen: set<string> := {};
    for i := 0 to |ifaces|
      invariant subnets == Dedup(Eligible(ifaces[..i]))
      invariant seen == Bases(subnets)
    {
      assert ifaces[..i + 1][..i] == ifaces[..i];
      ghost var before := Eligible(ifaces[..i]);
      var entries := ifaces[i];
      assert ifaces[..i + 1][i] == entries;
      if entries.None? {
        assert Eligible(ifaces[..i + 1]) == before + [];
        assert before + [] == before;
        continue;
      }
      var es := entries.value;
      assert es[..0] == [];
      assert before + ConsideredIn(es[..0]) == before;
      for j := 0 to |es|
        invariant subnets == Dedup(before + ConsideredIn(es[..j]))
        invariant seen == Bases(subnets)
      {
        assert es[..j + 1][..j] == es[..j];
        var entry := es[j];
        if !Considered(entry) {
          assert ConsideredIn(es[..j + 1]) == ConsideredIn(es[..j]);
          continue;
        }
        var parts := Split(entry.address, '.');
        var base := Join(parts[..if |parts| < 3 then |parts| else 3], '.');
        assert base == SubnetBase(entry.address);
        assert ConsideredIn(es[..j + 1]) == ConsideredIn(es[..j]) + [entry];
        DedupSnoc(before, ConsideredIn(es[..j]), entry);
        if base !in seen {
          BasesSnoc(subnets, Subnet(base, entry.address));
          seen := seen + {base};
          subnets := subnets + [Subnet(base, entry.address)];
        } else {
          assert AddEntry(subnets, entry) == subnets;
        }
      }
      assert es[..|es|] == es;
      assert Eligible(ifaces[..i + 1]) == before + ConsideredIn(es);
      assert subnets == Dedup(Eligible(ifaces[..i + 1]));
    }
    assert ifaces[..|ifaces|] == ifaces;
  }

  /** The address of the first entry whose base is `base`, scanning from the front. */
  function FirstAddress(es: seq<IfaceEntry>, base: string): (first: Option<string>)
    ensures first.Some? <==> exists e :: e in es && SubnetBase(e.address) == base
    decreases |es|
  {
    if |es| == 0 then None
    else if SubnetBase(es[0].address) == base then Some(es[0].address)
    else
      var rest := FirstAddress(es[1..], base);
      assert forall e :: e in es[1..] ==> e in es;
      assert forall e :: e in es && e != es[0] ==> e in es[1..];
      rest
  }

  lemma {:induction false} FirstAddressSnoc(es: seq<IfaceEntry>, e: IfaceEntry, base: string)
    ensures FirstAddress(es + [e], base)
         == if FirstAddress(es, base).Some? then FirstAddress(es, base)
            else if SubnetBase(e.address) == base then Some(e.address) else None
    decreases |es|
  {
    if |es| > 0 {
      assert (es + [e])[1..] == es[1..] + [e];
      FirstAddressSnoc(es[1..], e, base);
    } else {
      assert (es + [e])[1..] == [];
    }
  }

  /** The deduplication keeps one subnet per base: the bases are distinct, and exactly the bases
      of the eligible entries. */
  lemma {:induction false} DedupDistinct(es: seq<IfaceEntry>)
    ensures forall i, j :: 0 <= i < j < |Dedup(es)| ==> Dedup(es)[i].base != Dedup(es)[j].base
    ensures Bases(Dedup(es)) == set e | e in es :: SubnetBase(e.address)
    decreases |es|
  {
    if |es| > 0 {
      var init := es[..|es| - 1];
      var e := es[|es| - 1];
      DedupDistinct(init);
      assert es == init + [e];
      var d := Dedup(init);
      var base := SubnetBase(e.address);
      if base !in Bases(d) {
        var s := Subnet(base, e.address);
        BasesSnoc(d, s);
        forall i, j | 0 <= i < j < |d| + 1 ensures (d + [s])[i].base != (d + [s])[j].base {
          if j == |d| {
            assert d[i] in d;
          }
        }
      }
    }
  }

  /** Each kept subnet holds the address of the first eligible entry with its base. */
  lemma {:induction false} DedupKeepsFirst(es: seq<IfaceEntry>)
    ensures forall k :: 0 <= k < |Dedup(es)| ==> FirstAddress(es, Dedup(es)[k].base) == Some(Dedup(es)[k].localIp)
    decreases |es|
  {
    if |es| > 0 {
      var init := es[..|es| - 1];
      var e := es[|es| - 1];
      DedupKeepsFirst(init);
      DedupDistinct(init);
      assert es == init + [e];
      var d := Dedup(init);
      var base := SubnetBase(e.address);
      assert Dedup(es) == AddEntry(d, e);
      forall k | 0 <= k < |Dedup(es)| ensures FirstAddress(es, Dedup(es)[k].base) == Some(Dedup(es)[k].localIp) {
        FirstAddressSnoc(init, e, Dedup(es)[k].base);
        if k == |d| {
          assert base !in Bases(d);
          assert Dedup(es)[k] == Subnet(base, e.address);
        } else {
          assert Dedup(es)[k] == d[k];
        }
      }
    }
  }

  /** The position of the first entry whose base is `base`; `|es|` when there is none. */
  function FirstIndex(es: seq<IfaceEntry>, base: string): (p: nat)
    ensures p <= |es|
    ensures p < |es| ==> SubnetBase(es[p].address) == base
    ensures forall k :: 0 <= k < p ==> SubnetBase(es[k].address) != base
    decreases |es|
  {
    if |es| == 0 then 0
    else if SubnetBase(es[0].address) == base then 0
    else
      var rest := FirstIndex(es[1..], base);
      assert forall k :: 0 < k <= rest ==> es[k] == es[1..][k - 1];
      1 + rest
  }

  /** A position holding `base` with no earlier entry holding it is the first index. */
  lemma FirstIndexIs(es: seq<IfaceEntry>, base: string, p: nat)
    requires p < |es| && SubnetBase(es[p].address) == base
    requires forall k :: 0 <= k < p ==> SubnetBase(es[k].address) != base
    ensures FirstIndex(es, base) == p
  {
  }

  /** The subnets come in the order in which their bases were first seen. */
  lemma {:induction false} DedupOrder(es: seq<IfaceEntry>)
    ensures forall k :: 0 <= k < |Dedup(es)| ==> FirstIndex(es, Dedup(es)[k].base) < |es|
    ensures forall i, j :: 0 <= i < j < |Dedup(es)| ==>
      FirstIndex(es, Dedup(es)[i].base) < FirstIndex(es, Dedup(es)[j].base)
    decreases |es|
  {
    if |es| > 0 {
      var init := es[..|es| - 1];
      var e := es[|es| - 1];
      DedupOrder(init);
      DedupDistinct(init);
      assert es == init + [e];
      var d := Dedup(init);
      assert Dedup(es) == AddEntry(d, e);
      forall k | 0 <= k < |d| ensures FirstIndex(es, d[k].base) == FirstIndex(init, d[k].base) {
        var p := FirstIndex(init, d[k].base);
        FirstIndexIs(es, d[k].base, p);
      }
      var base := SubnetBase(e.address);
      if base !in Bases(d) {
        forall k | 0 <= k < |init| ensures SubnetBase(es[k].address) != base {
          assert es[k] == init[k];
        }
        FirstIndexIs(es, base, |init|);
      }
    }
  }

  /** The recorded subnets have distinct bases, cover every base seen, keep the first address,
      and follow the order in which the bases were first seen. */
  lemma LocalSubnetsSpec(ifaces: seq<Option<seq<IfaceEntry>>>)
    ensures forall i, j :: 0 <= i < j < |LocalSubnets(ifaces)| ==> LocalSubnets(ifaces)[i].base != LocalSubnets(ifaces)[j].base
    ensures Bases(LocalSubnets(ifaces)) == set e | e in Eligible(ifaces) :: SubnetBase(e.address)
    ensures forall k :: 0 <= k < |LocalSubnets(ifaces)| ==>
      FirstAddress(Eligible(ifaces), LocalSubnets(ifaces)[k].base) == Some(LocalSubnets(ifaces)[k].localIp)
    ensures forall i, j :: 0 <= i < j < |LocalSubnets(ifaces)| ==>
      FirstIndex(Eligible(ifaces), LocalSubnets(ifaces)[i].base) < FirstIndex(Eligible(ifaces), LocalSubnets(ifaces)[j].base)
  {
    DedupDistinct(Eligible(ifaces));
    DedupKeepsFirst(Eligible(ifaces));
    DedupOrder(Eligible(ifaces));
  }

  /** Only external IPv4 entries are eligible, and every one of them is. */
  lemma {:induction false} EligibleSpec(ifaces: seq<Option<seq<IfaceEntry>>>)
    ensures forall e :: e in Eligible(ifaces) <==>
      Considered(e) && exists k :: 0 <= k < |ifaces| && ifaces[k].Some? && e in ifaces[k].value
    decreases |ifaces|
  {
    if |ifaces| > 0 {
      var init := ifaces[..|ifaces| - 1];
      EligibleSpec(init);
      var last := ifaces[|ifaces| - 1];
      if last.Some? {
        ConsideredInSpec(last.value);
      }
      forall e ensures e in Eligible(ifaces) <==>
        Considered(e) && exists k :: 0 <= k < |ifaces| && ifaces[k].Some? && e in ifaces[k].value
      {
        EligibleStep(ifaces, e);
      }
    }
  }

  /** Membership in the eligible entries, one interface more. */
  lemma EligibleStep(ifaces: seq<Option<seq<IfaceEntry>>>, e: IfaceEntry)
    requires |ifaces| > 0
    requires var init := ifaces[..|ifaces| - 1];
      e in Eligible(init) <==> Considered(e) && exists k :: 0 <= k < |init| && init[k].Some? && e in init[k].value
    requires var last := ifaces[|ifaces| - 1];
      last.Some? ==> (e in ConsideredIn(last.value) <==> e in last.value && Considered(e))
    ensures e in Eligible(ifaces) <==>
      Considered(e) && exists k :: 0 <= k < |ifaces| && ifaces[k].Some? && e in ifaces[k].value
  {
    var init := ifaces[..|ifaces| - 1];
    if Considered(e) && exists k :: 0 <= k < |ifaces| && ifaces[k].Some? && e in ifaces[k].value {
      var k :| 0 <= k < |ifaces| && ifaces[k].Some? && e in ifaces[k].value;
      if k < |init| {
        assert init[k] == ifaces[k];
      }
    }
    if e in Eligible(init) {
      var k :| 0 <= k < |init| && init[k].Some? && e in init[k].value;
      assert init[k] == ifaces[k];
    }
  }

  lemma {:induction false} ConsideredInSpec(entries: seq<IfaceEntry>)
    ensures forall e :: e in ConsideredIn(entries) <==> e in entries && Considered(e)
    decreases |entries|
  {
    if |entries| > 0 {
      var init := entries[..|entries| - 1];
      ConsideredInSpec(init);
      assert entries == init + [entries[|entries| - 1]];
    }
  }

  // ---------------------------------------------------------------------------
  // candidates and batches
  // ---------------------------------------------------------------------------

  /** `${base}.${i}`. */
  function HostIp(base: string, i: nat): string {
    base + "." + NatToString(i)
  }

  /** The host numbers among 1..n whose address is not a recorded local IP, ascending. */
  function CandidateNumbers(base: string, localIps: set<string>, n: nat): seq<nat>
    decreases n
  {
    if n == 0 then []
    else CandidateNumbers(base, localIps, n - 1) + (if HostIp(base, n) !in localIps then [n] else [])
  }

  function Addresses(base: string, numbers: seq<nat>): (ips: seq<string>)
    ensures |ips| == |numbers|
  {
    seq(|numbers|, k requires 0 <= k < |numbers| => HostIp(base, numbers[k]))
  }

  /** The candidate list of a subnet: `base.1` .. `base.254` minus the recorded local IPs. */
  function Candidates(base: string, localIps: set<string>): seq<string> {
    Addresses(base, CandidateNumbers(base, localIps, 254))
  }

  /** The loop building `ips`. */
  method CandidateIps(base: string, localIps: set<string>) returns (ips: seq<string>)
    ensures ips == Candidates(base, localIps)
  {
    ips := [];
    ghost var numbers: seq<nat> := [];
    for i := 1 to 255
      invariant numbers == CandidateNumbers(base, localIps, i - 1)
      invariant ips == Addresses(base, numbers)
    {
      var ip := base + "." + NatToString(i);
      if ip !in localIps {
        ips := ips + [ip];
        numbers := numbers + [i];
      }
    }
  }

  /** The host numbers kept are exactly those in 1..n whose address is not local, in ascending order. */
  lemma {:induction false} CandidateNumbersSpec(base: string, localIps: set<string>, n: nat)
    ensures forall k :: k in CandidateNumbers(base, localIps, n) <==> 1 <= k <= n && HostIp(base, k) !in localIps
    ensures forall a, b :: 0 <= a < b < |CandidateNumbers(base, localIps, n)| ==>
      CandidateNumbers(base, localIps, n)[a] < CandidateNumbers(base, localIps, n)[b]
    decreases n
  {
    if n > 0 {
      var prev := CandidateNumbers(base, localIps, n - 1);
      CandidateNumbersSpec(base, localIps, n - 1);
      forall a | 0 <= a < |prev| ensures prev[a] < n {
        assert prev[a] in prev;
      }
    }
  }

  /** Two host numbers give the same address only if they are equal. */
  lemma HostIpInjective(base: string, m: nat, n: nat)
    requires HostIp(base, m) == HostIp(base, n)
    ensures m == n
  {
    assert HostIp(base, m)[|base| + 1..] == NatToString(m);
    assert HostIp(base, n)[|base| + 1..] == NatToString(n);
    NatToStringInjective(m, n);
  }

  /** The candidates of a subnet are `base.1` .. `base.254` minus the recorded local IPs: no local
      IP is probed, every other host number is, each once, in ascending order of host number. */
  lemma CandidatesSpec(base: string, localIps: set<string>)
    ensures forall ip :: ip in Candidates(base, localIps) <==>
      ip !in localIps && exists k :: 1 <= k <= 254 && ip == HostIp(base, k)
    ensures forall a, b :: 0 <= a < b < |Candidates(base, localIps)| ==> Candidates(base, localIps)[a] != Candidates(base, localIps)[b]
    ensures |Candidates(base, localIps)| <= 254
  {
    CandidatesMembers(base, localIps);
    CandidatesDistinct(base, localIps);
    CandidateNumbersSpec(base, localIps, 254);
    CountBelow(CandidateNumbers(base, localIps, 254), 254);
  }

  lemma CandidatesMembers(base: string, localIps: set<string>)
    ensures forall ip :: ip in Candidates(base, localIps) <==>
      ip !in localIps && exists k :: 1 <= k <= 254 && ip == HostIp(base, k)
  {
    var numbers := CandidateNumbers(base, localIps, 254);
    CandidateNumbersSpec(base, localIps, 254);
    var c := Candidates(base, localIps);
    forall ip | ip in c ensures ip !in localIps && exists k :: 1 <= k <= 254 && ip == HostIp(base, k) {
      var a :| 0 <= a < |c| && c[a] == ip;
      assert numbers[a] in numbers;
    }
    forall ip | ip !in localIps && exists k :: 1 <= k <= 254 && ip == HostIp(base, k) ensures ip in c {
      var k :| 1 <= k <= 254 && ip == HostIp(base, k);
      assert k in numbers;
      var a :| 0 <= a < |numbers| && numbers[a] == k;
      assert c[a] == ip;
    }
  }

  lemma CandidatesDistinct(base: string, localIps: set<string>)
    ensures forall a, b :: 0 <= a < b < |Candidates(base, localIps)| ==> Candidates(base, localIps)[a] != Candidates(base, localIps)[b]
  {
    var numbers := CandidateNumbers(base, localIps, 254);
    CandidateNumbersSpec(base, localIps, 254);
    var c := Candidates(base, localIps);
    forall a, b | 0 <= a < b < |c| ensures c[a] != c[b] {
      if c[a] == c[b] {
        HostIpInjective(base, numbers[a], numbers[b]);
      }
    }
  }

  /** A strictly increasing list of numbers in 1..n has at most n elements. */
  lemma {:induction false} CountBelow(xs: seq<nat>, n: nat)
    requires forall k :: k in xs ==> 1 <= k <= n
    requires forall a, b :: 0 <= a < b < |xs| ==> xs[a] < xs[b]
    ensures |xs| <= n
    decreases n
  {
    if |xs| > 0 {
      var init := xs[..|xs| - 1];
      assert xs[|xs| - 1] in xs;
      forall k | k in init ensures 1 <= k <= n - 1 {
        var a :| 0 <= a < |init| && init[a] == k;
        assert xs[a] < xs[|xs| - 1];
        assert xs[a] in xs;
      }
      CountBelow(init, n - 1);
    }
  }

  /** Every candidate lies in the subnet it was built for: splitting it on dots and keeping three
      parts gives the base back, whenever the base is three dot-free parts. */
  lemma BaseOfHostIp(parts: seq<string>, i: nat)
    requires |parts| == 3
    requires forall k :: 0 <= k < 3 ==> '.' !in parts[k]
    ensures SubnetBase(HostIp(Join(parts, '.'), i)) == Join(parts, '.')
  {
    var d := NatToString(i);
    var all := parts + [d];
    assert '.' !in d;
    assert Join(all, '.') == HostIp(Join(parts, '.'), i) by {
      assert all[1..][1..][1..] == [d];
      assert all[1..][1..] == [parts[2], d];
      assert all[1..] == [parts[1], parts[2], d];
      assert Join(all[1..][1..], '.') == parts[2] + ['.'] + d;
      assert Join(all[1..], '.') == parts[1] + ['.'] + (parts[2] + ['.'] + d);
      assert Join(all, '.') == parts[0] + ['.'] + (parts[1] + ['.'] + (parts[2] + ['.'] + d));
      assert parts[1..][1..] == [parts[2]];
      assert parts[1..] == [parts[1], parts[2]];
      assert Join(parts[1..], '.') == parts[1] + ['.'] + parts[2];
      assert Join(parts, '.') == parts[0] + ['.'] + (parts[1] + ['.'] + parts[2]);
    }
    forall k | 0 <= k < |all| ensures '.' !in all[k] {
      if k == 3 { assert all[k] == d; } else { assert all[k] == parts[k]; }
    }
    SplitJoin(all, '.');
    assert all[..3] == parts;
  }

  /** Only the first address seen on a /24 is left out of that subnet's scan: a second external
      IPv4 address on the same /24 stays among the candidates and is probed like any other. */
  lemma SecondLocalAddressProbed(first: IfaceEntry, second: IfaceEntry, n: nat)
    requires Considered(first) && Considered(second)
    requires 1 <= n <= 254
    requires second.address == HostIp(SubnetBase(first.address), n)
    requires SubnetBase(second.address) == SubnetBase(first.address)
    requires second.address != first.address
    ensures LocalSubnets([Some([first, second])]) == [Subnet(SubnetBase(first.address), first.address)]
    ensures second.address in Candidates(SubnetBase(first.address), LocalIps(LocalSubnets([Some([first, second])])))
  {
    var ifaces := [Some([first, second])];
    var es := [first, second];
    assert es[..1] == [first];
    assert [first][..0] == [];
    assert ConsideredIn([first]) == [first];
    assert ConsideredIn(es) == es;
    assert ifaces[..0] == [];
    assert Eligible(ifaces) == es;
    var base := SubnetBase(first.address);
    assert Dedup([first]) == [Subnet(base, first.address)];
    assert Dedup(es) == AddEntry(Dedup([first]), second);
    assert Bases([Subnet(base, first.address)]) == {base};
    var subnets := LocalSubnets(ifaces);
    assert LocalIps(subnets) == {first.address};
    CandidatesSpec(base, {first.address});
  }

  /** Consecutive slices of at most `size` elements. */
  function Batches<T>(xs: seq<T>, size: nat): seq<seq<T>>
    requires size > 0
    decreases |xs|
  {
    if |xs| == 0 then []
    else
      var cut := if |xs| < size then |xs| else size;
      [xs[..cut]] + Batches(xs[cut..], size)
  }

  function Flatten<T>(xss: seq<seq<T>>): seq<T>
    decreases |xss|
  {
    if |xss| == 0 then [] else xss[0] + Flatten(xss[1..])
  }

  /** The batches are non-empty, no longer than the batch size, and cover the list exactly once, in order. */
  lemma {:induction false} BatchesCover<T>(xs: seq<T>, size: nat)
    requires size > 0
    ensures Flatten(Batches(xs, size)) == xs
    ensures forall k :: 0 <= k < |Batches(xs, size)| ==> 0 < |Batches(xs, size)[k]| <= size
    decreases |xs|
  {
    if |xs| > 0 {
      var cut := if |xs| < size then |xs| else size;
      BatchesCover(xs[cut..], size);
      var bs := Batches(xs, size);
      assert bs[1..] == Batches(xs[cut..], size);
      assert xs == xs[..cut] + xs[cut..];
    }
  }

  /** The addresses whose probe succeeded, in list order. */
  function Reachable(ips: seq<string>, remote: string -> ProbeOutcome): seq<string>
    decreases |ips|
  {
    if |ips| == 0 then []
    else
      var ip := ips[|ips| - 1];
      Reachable(ips[..|ips| - 1], remote) + (if ProbeOllama(remote(ip)) then [ip] else [])
  }

  function HostAt(ip: string, port: int): Host {
    Host(ip + ":" + IntToString(port), ip)
  }

  function HostsAt(ips: seq<string>, port: int): (hosts: seq<Host>)
    ensures |hosts| == |ips|
  {
    seq(|ips|, k requires 0 <= k < |ips| => HostAt(ips[k], port))
  }

  lemma ReachableAppend(a: seq<string>, b: seq<string>, remote: string -> ProbeOutcome)
    ensures Reachable(a + b, remote) == Reachable(a, remote) + Reachable(b, remote)
    decreases |b|
  {
    if |b| == 0 {
      assert a + b == a;
    } else {
      assert (a + b)[..|a + b| - 1] == a + b[..|b| - 1];
      ReachableAppend(a, b[..|b| - 1], remote);
    }
  }

  lemma HostsAtAppend(a: seq<string>, b: seq<string>, port: int)
    ensures HostsAt(a + b, port) == HostsAt(a, port) + HostsAt(b, port)
  {
  }

  /** The probes of one batch, issued together; the results come back in batch order. */
  method ProbeBatch(batch: seq<string>, port: int, remote: string -> ProbeOutcome) returns (found: seq<Host>)
    ensures found == HostsAt(Reachable(batch, remote), port)
  {
    var results: seq<bool> := seq(|batch|, k requires 0 <= k < |batch| => ProbeOllama(remote(batch[k])));
    found := [];
    for k := 0 to |batch|
      invariant found == HostsAt(Reachable(batch[..k], remote), port)
    {
      assert batch[..k + 1][..k] == batch[..k];
      if results[k] {
        HostsAtAppend(Reachable(batch[..k], remote), [batch[k]], port);
        found := found + [HostAt(batch[k], port)];
      }
    }
    assert batch[..|batch|] == batch;
  }

  /** The batch loop for one subnet: batches in sequence, and the reachable addresses of each
      batch appended in batch order. */
  method ScanSubnet(ips: seq<string>, size: int, port: int, remote: string -> ProbeOutcome)
    returns (found: seq<Host>, ghost batches: seq<seq<string>>)
    requires size > 0
    ensures batches == Batches(ips, size)
    ensures found == HostsAt(Reachable(ips, remote), port)
  {
    found := [];
    batches := [];
    var b := 0;
    ghost var pos := 0;
    while b < |ips|
      invariant 0 <= b && pos <= |ips|
      invariant b < |ips| ==> pos == b
      invariant b >= |ips| ==> pos == |ips|
      invariant Batches(ips, size) == batches + Batches(ips[pos..], size)
      invariant found == HostsAt(Reachable(ips[..pos], remote), port)
      decreases |ips| - b
    {
      var end := if b + size < |ips| then b + size else |ips|;
      var batch := ips[b..end];
      var results := ProbeBatch(batch, port, remote);
      BatchStep(ips, b, end, size);
      FoundStep(ips, b, end, port, remote);
      found := found + results;
      batches := batches + [batch];
      b := b + size;
      pos := end;
    }
    assert ips[..|ips|] == ips;
    assert ips[|ips|..] == [];
  }

  /** What one more batch adds to the hosts found so far. */
  lemma FoundStep(ips: seq<string>, b: nat, end: nat, port: int, remote: string -> ProbeOutcome)
    requires b <= end <= |ips|
    ensures HostsAt(Reachable(ips[..end], remote), port)
         == HostsAt(Reachable(ips[..b], remote), port) + HostsAt(Reachable(ips[b..end], remote), port)
  {
    assert ips[..end] == ips[..b] + ips[b..end];
    ReachableAppend(ips[..b], ips[b..end], remote);
    HostsAtAppend(Reachable(ips[..b], remote), Reachable(ips[b..end], remote), port);
  }

  lemma BatchStep<T>(xs: seq<T>, b: nat, end: nat, size: nat)
    requires size > 0 && b < |xs| && end == (if b + size < |xs| then b + size else |xs|)
    ensures Batches(xs[b..], size) == [xs[b..end]] + Batches(xs[end..], size)
  {
    assert xs[b..][..end - b] == xs[b..end];
    assert xs[b..][end - b..] == xs[end..];
  }

  // ---------------------------------------------------------------------------
  // discover
  // ---------------------------------------------------------------------------

  /** The recorded local IPs: the first address seen for each base. */
  function LocalIps(subnets: seq<Subnet>): set<string> {
    set s | s in subnets :: s.localIp
  }

  /** The hosts found by the subnet scans, subnet by subnet. */
  function ScanAll(subnets: seq<Subnet>, localIps: set<string>, port: int, remote: string -> ProbeOutcome): seq<Host>
    decreases |subnets|
  {
    if |subnets| == 0 then []
    else
      ScanAll(subnets[..|subnets| - 1], localIps, port, remote)
      + HostsAt(Reachable(Candidates(subnets[|subnets| - 1].base, localIps), remote), port)
  }

  lemma ScanAllStep(subnets: seq<Subnet>, i: nat, localIps: set<string>, port: int, remote: string -> ProbeOutcome)
    requires i < |subnets|
    ensures ScanAll(subnets[..i + 1], localIps, port, remote)
         == ScanAll(subnets[..i], localIps, port, remote)
            + HostsAt(Reachable(Candidates(subnets[i].base, localIps), remote), port)
  {
    assert subnets[..i + 1][..i] == subnets[..i];
  }

  function LocalhostFound(cfg: Config, localhost: seq<ProbeOutcome>): bool
    requires cfg.localhostRetries <= |localhost|
  {
    exists i :: 0 <= i < Max0(cfg.localhostRetries) && ProbeOllama(localhost[i])
  }

  /** The hosts `discover` returns. */
  function Discovered(cfg: Config, localhost: seq<ProbeOutcome>, ifaces: seq<Option<seq<IfaceEntry>>>,
                      remote: string -> ProbeOutcome): seq<Host>
    requires cfg.localhostRetries <= |localhost|
  {
    var subnets := LocalSubnets(ifaces);
    (if LocalhostFound(cfg, localhost) then [LocalhostHost(cfg.ollamaPort)] else [])
    + ScanAll(subnets, LocalIps(subnets), cfg.ollamaPort, remote)
  }

  /** The per-subnet loop of `discover`: candidates, then the batched scan, subnet by subnet. */
  method ScanSubnets(subnets: seq<Subnet>, localIps: set<string>, size: int, port: int,
                     remote: string -> ProbeOutcome) returns (hosts: seq<Host>)
    requires size > 0
    ensures hosts == ScanAll(subnets, localIps, port, remote)
  {
    hosts := [];
    for i := 0 to |subnets|
      invariant hosts == ScanAll(subnets[..i], localIps, port, remote)
    {
      var ips := CandidateIps(subnets[i].base, localIps);
      var found, _ := ScanSubnet(ips, size, port, remote);
      ScanAllStep(subnets, i, localIps, port, remote);
      hosts := hosts + found;
    }
    assert subnets[..|subnets|] == subnets;
  }

  /** `discover`. A batch size of zero or less never advances the batch loop, so it is excluded. */
  method DiscoverHosts(cfg: Config, localhost: seq<ProbeOutcome>, ifaces: seq<Option<seq<IfaceEntry>>>,
                       remote: string -> ProbeOutcome) returns (hosts: seq<Host>)
    requires cfg.localhostRetries <= |localhost|
    requires cfg.subnetBatchSize > 0
    ensures hosts == Discovered(cfg, localhost, ifaces, remote)
  {
    hosts := [];
    var localhostFound, _ := CheckLocalhost(cfg.localhostRetries, localhost);
    if localhostFound {
      hosts := hosts + [LocalhostHost(cfg.ollamaPort)];
    }
    assert localhostFound == LocalhostFound(cfg, localhost);
    var subnets := GetLocalSubnets(ifaces);
    var localIps := LocalIps(subnets);
    var scanned := ScanSubnets(subnets, localIps, cfg.subnetBatchSize, cfg.ollamaPort, remote);
    assert subnets == LocalSubnets(ifaces);
    hosts := hosts + scanned;
  }

  // ---------------------------------------------------------------------------
  // what discovery finds
  // ---------------------------------------------------------------------------

  lemma {:induction false} ReachableSpec(ips: seq<string>, remote: string -> ProbeOutcome)
    ensures forall ip :: ip in Reachable(ips, remote) <==> ip in ips && ProbeOllama(remote(ip))
    decreases |ips|
  {
    if |ips| > 0 {
      var init := ips[..|ips| - 1];
      ReachableSpec(init, remote);
      assert ips == init + [ips[|ips| - 1]];
    }
  }

  lemma HostsAtSpec(ips: seq<string>, port: int)
    ensures forall h :: h in HostsAt(ips, port) <==> h.hostname in ips && h == HostAt(h.hostname, port)
  {
    var hosts := HostsAt(ips, port);
    forall h ensures h in hosts <==> h.hostname in ips && h == HostAt(h.hostname, port) {
      if h in hosts {
        var k :| 0 <= k < |hosts| && hosts[k] == h;
      }
      if h.hostname in ips && h == HostAt(h.hostname, port) {
        var k :| 0 <= k < |ips| && ips[k] == h.hostname;
        assert hosts[k] == h;
      }
    }
  }

  /** A host found by the scan: it is `ip:port` for an address that answered its probe and is a
      candidate of one of the scanned subnets. */
  ghost predicate ScannedFrom(h: Host, subnets: seq<Subnet>, localIps: set<string>, port: int,
                              remote: string -> ProbeOutcome) {
    h == HostAt(h.hostname, port) && ProbeOllama(remote(h.hostname))
    && exists s :: s in subnets && h.hostname in Candidates(s.base, localIps)
  }

  /** The subnet scans find exactly the reachable candidates. */
  lemma {:induction false} ScanAllSpec(subnets: seq<Subnet>, localIps: set<string>, port: int, remote: string -> ProbeOutcome)
    ensures forall h :: h in ScanAll(subnets, localIps, port, remote) <==> ScannedFrom(h, subnets, localIps, port, remote)
    decreases |subnets|
  {
    if |subnets| > 0 {
      var init := subnets[..|subnets| - 1];
      ScanAllSpec(init, localIps, port, remote);
      forall h ensures h in ScanAll(subnets, localIps, port, remote) <==> ScannedFrom(h, subnets, localIps, port, remote) {
        ScanStep(h, subnets, localIps, port, remote);
      }
    }
  }

  lemma ScanStep(h: Host, subnets: seq<Subnet>, localIps: set<string>, port: int, remote: string -> ProbeOutcome)
    requires |subnets| > 0
    requires var init := subnets[..|subnets| - 1];
      h in ScanAll(init, localIps, port, remote) <==> ScannedFrom(h, init, localIps, port, remote)
    ensures h in ScanAll(subnets, localIps, port, remote) <==> ScannedFrom(h, subnets, localIps, port, remote)
  {
    var init := subnets[..|subnets| - 1];
    var last := subnets[|subnets| - 1];
    var c := Candidates(last.base, localIps);
    var found := HostsAt(Reachable(c, remote), port);
    assert ScanAll(subnets, localIps, port, remote) == ScanAll(init, localIps, port, remote) + found;
    ReachableSpec(c, remote);
    HostsAtSpec(Reachable(c, remote), port);
    var direct := h == HostAt(h.hostname, port) && ProbeOllama(remote(h.hostname)) && h.hostname in c;
    assert h in found <==> direct;
    assert forall s :: s in subnets <==> s in init || s == last;
  }

  /** A scanned host's name is a dotted address, never "localhost". */
  lemma CandidateNotLocalhost(base: string, localIps: set<string>, ip: string)
    requires ip in Candidates(base, localIps)
    ensures ip != "localhost"
  {
    CandidatesMembers(base, localIps);
    var k :| 1 <= k <= 254 && ip == HostIp(base, k);
    assert ip[|base|] == '.';
    assert '.' in ip;
    assert '.' !in "localhost";
  }

  /** `discover` returns localhost first when it answered, then exactly the reachable candidates of
      the recorded subnets; a host named "localhost" appears only when localhost answered. */
  lemma DiscoveredSpec(cfg: Config, localhost: seq<ProbeOutcome>, ifaces: seq<Option<seq<IfaceEntry>>>,
                       remote: string -> ProbeOutcome)
    requires cfg.localhostRetries <= |localhost|
    ensures LocalhostFound(cfg, localhost) ==>
      |Discovered(cfg, localhost, ifaces, remote)| >= 1 && Discovered(cfg, localhost, ifaces, remote)[0] == LocalhostHost(cfg.ollamaPort)
    ensures forall h :: h in Discovered(cfg, localhost, ifaces, remote) <==>
      (LocalhostFound(cfg, localhost) && h == LocalhostHost(cfg.ollamaPort))
      || ScannedFrom(h, LocalSubnets(ifaces), LocalIps(LocalSubnets(ifaces)), cfg.ollamaPort, remote)
    ensures forall h :: h in Discovered(cfg, localhost, ifaces, remote) && h.hostname == "localhost" ==>
      LocalhostFound(cfg, localhost)
  {
    var subnets := LocalSubnets(ifaces);
    var localIps := LocalIps(subnets);
    ScanAllSpec(subnets, localIps, cfg.ollamaPort, remote);
    forall h | ScannedFrom(h, subnets, localIps, cfg.ollamaPort, remote) ensures h.hostname != "localhost" {
      var s :| s in subnets && h.hostname in Candidates(s.base, localIps);
      CandidateNotLocalhost(s.base, localIps, h.hostname);
    }
  }

  lemma {:induction false} NoneEligible(ifaces: seq<Option<seq<IfaceEntry>>>)
    requires forall k, e :: 0 <= k < |ifaces| && ifaces[k].Some? && e in ifaces[k].value ==> !Considered(e)
    ensures Eligible(ifaces) == []
    decreases |ifaces|
  {
    if |ifaces| > 0 {
      var init := ifaces[..|ifaces| - 1];
      forall k, e | 0 <= k < |init| && init[k].Some? && e in init[k].value ensures !Considered(e) {
        assert init[k] == ifaces[k];
      }
      NoneEligible(init);
      var last := ifaces[|ifaces| - 1];
      if last.Some? {
        NoneConsidered(last.value);
      }
    }
  }

  lemma {:induction false} NoneConsidered(entries: seq<IfaceEntry>)
    requires forall e :: e in entries ==> !Considered(e)
    ensures ConsideredIn(entries) == []
    decreases |entries|
  {
    if |entries| > 0 {
      var init := entries[..|entries| - 1];
      assert forall e :: e in init ==> e in entries;
      NoneConsidered(init);
      assert entries[|entries| - 1] in entries;
    }
  }

  /** With no external IPv4 address on any interface, only localhost can be found. */
  lemma NoExternalIPv4OnlyLocalhost(cfg: Config, localhost: seq<ProbeOutcome>, ifaces: seq<Option<seq<IfaceEntry>>>,
                                    remote: string -> ProbeOutcome)
    requires cfg.localhostRetries <= |localhost|
    requires forall k, e :: 0 <= k < |ifaces| && ifaces[k].Some? && e in ifaces[k].value ==> !Considered(e)
    ensures Discovered(cfg, localhost, ifaces, remote)
         == if LocalhostFound(cfg, localhost) then [LocalhostHost(cfg.ollamaPort)] else []
  {
    NoneEligible(ifaces);
    assert LocalSubnets(ifaces) == [];
  }
}
