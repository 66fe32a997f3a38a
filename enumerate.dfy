/** The enumeration stage: list each host's models, validate each one with a `show` request, and
    keep the validated ones with their metadata. Both requests are replaced by oracles: `list`
    gives what the tag listing produced for a host, `show` what the show request produced for a
    model name on a host. */
module Enumerate {
  import opened Types

  /** The metadata block of a listed model. */
  datatype Details = Details(family: string, parameterSize: string, quantization: string)

  /** One entry of a tag listing; `details` is absent when the server left the block out. */
  datatype Listed = Listed(name: string, size: nat, details: Option<Details>)

  /** The tag listing of one host: the models it reported, or a failure anywhere on the way
      (refused connection, timeout, a body that is not JSON or carries no model list). */
  datatype ListOutcome = ListFailed | ListReplied(models: seq<Listed>)

  /** The show request for one model: a thrown error (network, timeout, unreadable body), or a
      response with its `ok` flag, its status and the `capabilities` field if present. */
  datatype ShowOutcome = ShowThrew | ShowReplied(ok: bool, status: int, capabilities: Option<seq<string>>)

  /** A model is validated when its show request came back ok. */
  predicate ShowOk(reply: ShowOutcome) {
    reply.ShowReplied? && reply.ok
  }

  /** The record pushed for a validated model: every field is copied from the listing. */
  function Info(host: Host, m: Listed, d: Details, capabilities: seq<string>): (info: ModelInfo)
    ensures info.host == host && info.name == m.name && info.size == m.size
    ensures info.parameterSize == d.parameterSize && info.quantization == d.quantization
    ensures info.family == d.family && info.capabilities == capabilities
  {
    ModelInfo(host, m.name, m.size, d.parameterSize, d.quantization, d.family, capabilities)
  }

  /** A validated model without a details block: reading its fields throws, which abandons the
      rest of the host's listing. */
  predicate Aborts(m: Listed, reply: ShowOutcome) {
    ShowOk(reply) && m.details.None?
  }

  /** The models kept from one host so far, and whether the host's listing was abandoned. */
  datatype Scan = Scan(found: seq<ModelInfo>, aborted: bool)

  /** The inner loop over one host's listing, entry by entry. */
  function HostScan(host: Host, ms: seq<Listed>, show: (Host, string) -> ShowOutcome): Scan
    decreases |ms|
  {
    if |ms| == 0 then Scan([], false)
    else
      Step(HostScan(host, ms[..|ms| - 1], show), host, ms[|ms| - 1], show)
  }

  /** One iteration of the inner loop, on listed entry `m`. */
  function Step(prev: Scan, host: Host, m: Listed, show: (Host, string) -> ShowOutcome): (next: Scan)
    ensures prev.aborted ==> next == prev
    ensures prev.found <= next.found && |next.found| <= |prev.found| + 1
    ensures |next.found| == |prev.found| + 1 <==> !prev.aborted && ShowOk(show(host, m.name)) && m.details.Some?
  {
    var reply := show(host, m.name);
    if prev.aborted || !ShowOk(reply) then prev
    else if m.details.None? then Scan(prev.found, true)
    else Scan(prev.found + [Info(host, m, m.details.value, reply.capabilities.GetOr([]))], false)
  }

  /** What one host contributes. */
  function HostModels(host: Host, list: Host -> ListOutcome, show: (Host, string) -> ShowOutcome): seq<ModelInfo> {
    match list(host)
    case ListFailed => []
    case ListReplied(ms) => HostScan(host, ms, show).found
  }

  /** The contributions of a list of hosts, host by host, in order. */
  function Collect<H, M>(hosts: seq<H>, contribution: H -> seq<M>): seq<M>
    decreases |hosts|
  {
    if |hosts| == 0 then []
    else Collect(hosts[..|hosts| - 1], contribution) + contribution(hosts[|hosts| - 1])
  }

  /** What each host contributes, as a function of the host. */
  function Contribution(list: Host -> ListOutcome, show: (Host, string) -> ShowOutcome): Host -> seq<ModelInfo> {
    host => HostModels(host, list, show)
  }

  /** `enumerate`: the contributions of the hosts, host by host. */
  function Enumerated(hosts: seq<Host>, list: Host -> ListOutcome, show: (Host, string) -> ShowOutcome): seq<ModelInfo> {
    Collect(hosts, Contribution(list, show))
  }

  /** Once a host's listing is abandoned, later entries add nothing. */
  lemma {:induction false} AbortSticky(host: Host, ms: seq<Listed>, n: nat, show: (Host, string) -> ShowOutcome)
    requires n <= |ms|
    requires HostScan(host, ms[..n], show).aborted
    ensures HostScan(host, ms, show) == HostScan(host, ms[..n], show)
    decreases |ms| - n
  {
    if n < |ms| {
      assert ms[..|ms| - 1][..n] == ms[..n];
      AbortSticky(host, ms[..|ms| - 1], n, show);
    } else {
      assert ms[..n] == ms;
    }
  }

  /** The inner loop of `enumerate` over one host's listing. */
  method ScanListing(host: Host, ms: seq<Listed>, show: (Host, string) -> ShowOutcome) returns (found: seq<ModelInfo>)
    ensures found == HostScan(host, ms, show).found
  {
    found := [];
    var j := 0;
    while j < |ms|
      invariant 0 <= j <= |ms|
      invariant found == HostScan(host, ms[..j], show).found
      invariant !HostScan(host, ms[..j], show).aborted
    {
      var m := ms[j];
      assert ms[..j + 1][..j] == ms[..j];
      var reply := show(host, m.name);
      if !reply.ShowReplied? || !reply.ok {
        j := j + 1;
        continue;
      }
      if m.details.None? {
        AbortSticky(host, ms, j + 1, show);
        return;
      }
      var capabilities := if reply.capabilities.Some? then reply.capabilities.value else [];
      found := found + [Info(host, m, m.details.value, capabilities)];
      j := j + 1;
    }
    assert ms[..|ms|] == ms;
  }

  /** The loop of `enumerate`: hosts in order, a failed listing ending that host's turn. */
  method EnumerateModels(hosts: seq<Host>, list: Host -> ListOutcome, show: (Host, string) -> ShowOutcome)
    returns (models: seq<ModelInfo>)
    ensures models == Enumerated(hosts, list, show)
  {
    models := [];
    for i := 0 to |hosts|
      invariant models == Enumerated(hosts[..i], list, show)
    {
      var host := hosts[i];
      assert hosts[..i + 1][..i] == hosts[..i];
      assert Contribution(list, show)(host) == HostModels(host, list, show);
      var listing := list(host);
      if listing.ListFailed? {
        continue;
      }
      var found := ScanListing(host, listing.models, show);
      models := models + found;
    }
    assert hosts[..|hosts|] == hosts;
  }

  // ---------------------------------------------------------------------------
  // what enumeration keeps
  // ---------------------------------------------------------------------------

  /** The models kept from one listing, by an independent front-to-back reading: validated
      entries are kept in order, entries whose show failed are skipped, and the first validated
      entry without details ends the listing. */
  function Validated(host: Host, ms: seq<Listed>, show: (Host, string) -> ShowOutcome): (kept: seq<ModelInfo>)
    ensures forall info :: info in kept ==> info.host == host
    decreases |ms|
  {
    if |ms| == 0 then []
    else
      var reply := show(host, ms[0].name);
      if !ShowOk(reply) then Validated(host, ms[1..], show)
      else if ms[0].details.None? then []
      else [Info(host, ms[0], ms[0].details.value, reply.capabilities.GetOr([]))] + Validated(host, ms[1..], show)
  }

  /** Scanning `p + q` is scanning `p`, then (unless `p` was abandoned) reading `q` from the front. */
  lemma {:induction false} HostScanSplit(host: Host, p: seq<Listed>, q: seq<Listed>, show: (Host, string) -> ShowOutcome)
    ensures HostScan(host, p + q, show).found
         == HostScan(host, p, show).found + (if HostScan(host, p, show).aborted then [] else Validated(host, q, show))
    decreases |q|
  {
    if |q| == 0 {
      assert p + q == p;
    } else {
      var p' := p + [q[0]];
      HostScanSplit(host, p', q[1..], show);
      assert p' + q[1..] == p + q;
      HostScanSnoc(host, p, q[0], show);
      StepThenRest(HostScan(host, p, show), host, q, show);
    }
  }

  lemma HostScanSnoc(host: Host, p: seq<Listed>, m: Listed, show: (Host, string) -> ShowOutcome)
    ensures HostScan(host, p + [m], show) == Step(HostScan(host, p, show), host, m, show)
  {
    assert (p + [m])[..|p|] == p;
  }

  /** One step on the head of `q`, then the front-to-back reading of the rest, is reading `q`. */
  lemma StepThenRest(sc: Scan, host: Host, q: seq<Listed>, show: (Host, string) -> ShowOutcome)
    requires |q| > 0
    ensures var next := Step(sc, host, q[0], show);
            next.found + (if next.aborted then [] else Validated(host, q[1..], show))
            == sc.found + (if sc.aborted then [] else Validated(host, q, show))
  {
    if !sc.aborted && ShowOk(show(host, q[0].name)) && q[0].details.Some? {
      var info := Info(host, q[0], q[0].details.value, show(host, q[0].name).capabilities.GetOr([]));
      assert sc.found + [info] + Validated(host, q[1..], show) == sc.found + ([info] + Validated(host, q[1..], show));
    }
  }

  /** The loop's scan and the front-to-back reading agree. */
  lemma HostScanValidated(host: Host, ms: seq<Listed>, show: (Host, string) -> ShowOutcome)
    ensures HostScan(host, ms, show).found == Validated(host, ms, show)
  {
    var empty: seq<Listed> := [];
    assert empty + ms == ms;
    HostScanSplit(host, empty, ms, show);
    var start := HostScan(host, empty, show);
    assert start == Scan([], false);
    assert start.found + Validated(host, ms, show) == Validated(host, ms, show);
  }

  /** Every kept model was listed by its host, its show request came back ok, and its fields are
      the listing's; capabilities default to the empty list. */
  lemma {:induction false} ValidatedSound(host: Host, ms: seq<Listed>, show: (Host, string) -> ShowOutcome)
    ensures |Validated(host, ms, show)| <= |ms|
    ensures forall info :: info in Validated(host, ms, show) ==>
      exists m :: m in ms && ShowOk(show(host, m.name)) && m.details.Some?
        && info == Info(host, m, m.details.value, show(host, m.name).capabilities.GetOr([]))
    decreases |ms|
  {
    if |ms| > 0 {
      ValidatedSound(host, ms[1..], show);
      assert forall m :: m in ms[1..] ==> m in ms;
    }
  }

  /** With no validated entry missing its details, every validated entry is kept. */
  lemma {:induction false} ValidatedComplete(host: Host, ms: seq<Listed>, show: (Host, string) -> ShowOutcome)
    requires forall k :: 0 <= k < |ms| ==> !Aborts(ms[k], show(host, ms[k].name))
    ensures forall m :: m in ms && ShowOk(show(host, m.name)) ==> m.details.Some?
    ensures forall m :: m in ms && ShowOk(show(host, m.name)) && m.details.Some? ==>
      Info(host, m, m.details.value, show(host, m.name).capabilities.GetOr([])) in Validated(host, ms, show)
    decreases |ms|
  {
    if |ms| > 0 {
      assert forall k :: 0 <= k < |ms[1..]| ==> ms[1..][k] == ms[k + 1];
      ValidatedComplete(host, ms[1..], show);
      assert forall m :: m in ms ==> m == ms[0] || m in ms[1..];
    }
  }

  /** The first validated entry without details ends the host's listing: nothing after it is kept. */
  lemma {:induction false} AbortTruncates(host: Host, ms: seq<Listed>, k: nat, show: (Host, string) -> ShowOutcome)
    requires k < |ms| && Aborts(ms[k], show(host, ms[k].name))
    ensures Validated(host, ms, show) == Validated(host, ms[..k], show) || exists j :: 0 <= j < k && Aborts(ms[j], show(host, ms[j].name))
    decreases k
  {
    if k > 0 {
      AbortTruncates(host, ms[1..], k - 1, show);
      assert ms[1..][..k - 1] == ms[..k][1..];
      if exists j :: 0 <= j < k - 1 && Aborts(ms[1..][j], show(host, ms[1..][j].name)) {
        var j :| 0 <= j < k - 1 && Aborts(ms[1..][j], show(host, ms[1..][j].name));
        assert ms[1..][j] == ms[j + 1];
      }
    }
  }

  /** Hosts keep their order: the models of an earlier host come before those of a later one. */
  lemma EnumeratedAppend(a: seq<Host>, b: seq<Host>, list: Host -> ListOutcome, show: (Host, string) -> ShowOutcome)
    ensures Enumerated(a + b, list, show) == Enumerated(a, list, show) + Enumerated(b, list, show)
  {
    CollectAppend(a, b, Contribution(list, show));
  }

  lemma {:induction false} CollectAppend<H, M>(a: seq<H>, b: seq<H>, contribution: H -> seq<M>)
    ensures Collect(a + b, contribution) == Collect(a, contribution) + Collect(b, contribution)
    decreases |b|
  {
    if |b| == 0 {
      assert a + b == a;
    } else {
      assert (a + b)[..|a + b| - 1] == a + b[..|b| - 1];
      assert (a + b)[|a + b| - 1] == b[|b| - 1];
      CollectAppend(a, b[..|b| - 1], contribution);
    }
  }

  /** How many entries the hosts listed, counting only the hosts whose listing succeeded. */
  function ListedTotal(hosts: seq<Host>, list: Host -> ListOutcome): nat
    decreases |hosts|
  {
    if |hosts| == 0 then 0
    else
      var last := list(hosts[|hosts| - 1]);
      ListedTotal(hosts[..|hosts| - 1], list) + (if last.ListReplied? then |last.models| else 0)
  }

  /** `enumerate` returns no more models than the hosts listed in all, and each one references
      one of the given hosts. */
  lemma {:induction false} EnumeratedBound(hosts: seq<Host>, list: Host -> ListOutcome, show: (Host, string) -> ShowOutcome)
    ensures |Enumerated(hosts, list, show)| <= ListedTotal(hosts, list)
    ensures forall info :: info in Enumerated(hosts, list, show) ==> info.host in hosts
    decreases |hosts|
  {
    if |hosts| > 0 {
      var init := hosts[..|hosts| - 1];
      var last := hosts[|hosts| - 1];
      EnumeratedBound(init, list, show);
      HostModelsBounds(last, list, show);
      assert Contribution(list, show)(last) == HostModels(last, list, show);
      assert Enumerated(hosts, list, show) == Enumerated(init, list, show) + HostModels(last, list, show);
      assert forall h :: h in init ==> h in hosts;
    }
  }

  /** A host whose listing failed contributes nothing, and no host contributes more models than it listed. */
  lemma HostModelsBounds(host: Host, list: Host -> ListOutcome, show: (Host, string) -> ShowOutcome)
    ensures list(host).ListFailed? ==> HostModels(host, list, show) == []
    ensures list(host).ListReplied? ==> |HostModels(host, list, show)| <= |list(host).models|
    ensures forall info :: info in HostModels(host, list, show) ==> info.host == host
  {
    if list(host).ListReplied? {
      HostScanValidated(host, list(host).models, show);
      ValidatedSound(host, list(host).models, show);
    }
  }
}
