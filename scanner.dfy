/**
 * The scan orchestration of escanar_rango_completo and escanar_puertos_comunes.
 * The TCP connect of scan_port_rapido is the oracle isOpen, and validar_host is
 * the oracle validHost; the thread pool is not modelled because results are read
 * back in submission order.
 */
module PortScanner {
  import opened Ordering
  import opened ServiceCatalog

  /** The hard ceiling on worker threads for a range scan. */
  const MaxWorkers: int := 1000
  /** The worker count of the common-ports scan. */
  const CommonWorkers: int := 50
  /** The worker count a range scan asks for unless told otherwise; main always uses it. */
  const DefaultWorkers: int := 200
  /** A progress line is printed after every this many completed probes. */
  const ProgressEvery: int := 500
  const MinPort: int := 1
  const MaxPort: int := 65535

  /** What one probe reports: the port it was given and whether it connected. */
  datatype ProbeResult = ProbeResult(port: int, open: bool)

  /** A progress notification: probes completed so far, out of the total. */
  datatype Progress = Progress(completed: int, total: int)

  /** How a scan ended. PoolRefused is the pool constructor's ValueError for a worker count below 1. */
  datatype Status = HostInvalid | RangeInvalid | PoolRefused | Completed

  /** What a scan did besides returning its list: its ending, its pool size, the ports it submitted, its progress lines. */
  datatype ScanTrace = ScanTrace(status: Status, workers: int, submitted: seq<int>, progress: seq<Progress>)

  /** The figures printed after a range scan. */
  datatype Stats = Stats(totalPorts: int, openCount: int)

  /** One probe, as scan_port_rapido performs it: every failure reads as closed, so the answer is the oracle's. */
  function ScanPort(isOpen: int -> bool, port: int): (r: ProbeResult)
    ensures r.port == port
  {
    ProbeResult(port, isOpen(port))
  }

  /** The admissible port ranges. */
  predicate ValidRange(startPort: int, endPort: int): (ok: bool)
    ensures ok ==> 1 <= |PortRange(startPort, endPort)| <= MaxPort
  {
    MinPort <= startPort <= endPort <= MaxPort
  }

  /** The pool size of a range scan: the request, capped at MaxWorkers. */
  function ClampWorkers(maxThreads: int): (w: int)
    ensures w <= MaxWorkers
    ensures w == maxThreads || w == MaxWorkers
    ensures maxThreads <= MaxWorkers ==> w == maxThreads
  {
    if maxThreads < MaxWorkers then maxThreads else MaxWorkers
  }

  /** The ports from startPort to endPort inclusive, as range(startPort, endPort + 1) yields them. */
  function PortRange(startPort: int, endPort: int): (ports: seq<int>)
    ensures |ports| == if startPort <= endPort then endPort - startPort + 1 else 0
    ensures forall i :: 0 <= i < |ports| ==> ports[i] == startPort + i
  {
    if startPort <= endPort then seq(endPort - startPort + 1, i => startPort + i) else []
  }

  /** The port range is strictly ascending and holds exactly the ports between its bounds. */
  lemma PortRangeContents(startPort: int, endPort: int)
    ensures StrictlyAscending(PortRange(startPort, endPort))
    ensures forall p :: p in PortRange(startPort, endPort) <==> startPort <= p <= endPort
  {
    var ports := PortRange(startPort, endPort);
    forall p | startPort <= p <= endPort ensures p in ports {
      assert ports[p - startPort] == p;
    }
  }

  /**
   * The list a scan over ports builds when reading its results in order:
   * each open port, with its label, in the order the ports were submitted.
   */
  function OpenServices(ports: seq<int>, isOpen: int -> bool): (r: seq<Entry>)
    ensures forall k :: 0 <= k < |r| ==> r[k].port in ports && isOpen(r[k].port)
  {
    if ports == [] then []
    else
      var p := ports[|ports| - 1];
      OpenServices(ports[..|ports| - 1], isOpen)
        + if isOpen(p) then [Entry(p, ServiceCatalog.Label(p))] else []
  }

  /** An entry is in the list exactly when its port was submitted, answered open, and carries its label. */
  lemma {:induction false} OpenServicesMembers(ports: seq<int>, isOpen: int -> bool, e: Entry)
    ensures e in OpenServices(ports, isOpen)
      <==> e.port in ports && isOpen(e.port) && e.service == ServiceCatalog.Label(e.port)
  {
    if ports != [] {
      var init := ports[..|ports| - 1];
      var p := ports[|ports| - 1];
      assert ports == init + [p];
      OpenServicesMembers(init, isOpen, e);
    }
  }

  /** The list never has more entries than ports were submitted. */
  lemma {:induction false} OpenServicesBound(ports: seq<int>, isOpen: int -> bool)
    ensures |OpenServices(ports, isOpen)| <= |ports|
  {
    if ports != [] {
      OpenServicesBound(ports[..|ports| - 1], isOpen);
    }
  }

  /** Submitting ports in ascending order yields a list ascending by port, hence without repeated ports. */
  lemma {:induction false} OpenServicesAscending(ports: seq<int>, isOpen: int -> bool)
    requires StrictlyAscending(ports)
    ensures StrictlyAscending(PortsOf(OpenServices(ports, isOpen)))
    ensures NoDuplicates(PortsOf(OpenServices(ports, isOpen)))
  {
    if ports != [] {
      var init := ports[..|ports| - 1];
      var p := ports[|ports| - 1];
      var before := OpenServices(init, isOpen);
      OpenServicesAscending(init, isOpen);
      if isOpen(p) {
        var all := before + [Entry(p, ServiceCatalog.Label(p))];
        var ps := PortsOf(all);
        forall i, j | 0 <= i < j < |ps| ensures ps[i] < ps[j] {
          if j < |before| {
            assert ps[i] == PortsOf(before)[i] && ps[j] == PortsOf(before)[j];
          } else {
            OpenServicesMembers(init, isOpen, before[i]);
            var k :| 0 <= k < |init| && init[k] == before[i].port;
            assert ps[i] == ports[k] && ps[j] == ports[|ports| - 1];
          }
        }
      } else {
        assert OpenServices(ports, isOpen) == before;
      }
    }
    AscendingHasNoDuplicates(PortsOf(OpenServices(ports, isOpen)));
  }

  /** The figures printed after a range scan: the size of the range and the number of open ports. */
  function Statistics(startPort: int, endPort: int, openPorts: seq<Entry>): (st: Stats)
    ensures st.openCount == |openPorts|
    ensures startPort <= endPort ==> st.totalPorts == |PortRange(startPort, endPort)|
  {
    Stats(endPort - startPort + 1, |openPorts|)
  }

  /** The percentage of open ports, exact; defined only when the range is not empty. */
  function OpenPercentage(st: Stats): (r: real)
    requires st.totalPorts != 0
    ensures r * st.totalPorts as real == st.openCount as real * 100.0
    ensures 0 <= st.openCount <= st.totalPorts ==> 0.0 <= r <= 100.0
  {
    var r := (st.openCount as real / st.totalPorts as real) * 100.0;
    PercentageBounds(st.openCount as real, st.totalPorts as real);
    r
  }

  lemma PercentageBounds(open: real, total: real)
    requires total != 0.0
    ensures (open / total * 100.0) * total == open * 100.0
    ensures 0.0 <= open <= total ==> 0.0 <= open / total * 100.0 <= 100.0
  {
  }

  /** A list without repeated ports whose only member is one entry is that entry alone. */
  lemma SingleEntryList(found: seq<Entry>, only: Entry)
    requires forall e :: e in found <==> e == only
    requires NoDuplicates(PortsOf(found))
    ensures found == [only]
  {
    assert only in found;
    var last := |found| - 1;
    assert found[0] in found && found[last] in found;
    SamePortSamePosition(PortsOf(found), 0, last);
  }

  /** A range in which exactly one port answers yields exactly one entry: that port with its label. */
  lemma SingleOpenPortList(isOpen: int -> bool, startPort: int, endPort: int, port: int)
    requires startPort <= port <= endPort
    requires forall p :: startPort <= p <= endPort ==> (isOpen(p) <==> p == port)
    ensures OpenServices(PortRange(startPort, endPort), isOpen) == [Entry(port, Label(port))]
  {
    var found := OpenServices(PortRange(startPort, endPort), isOpen);
    RangeResult(startPort, endPort, isOpen);
    SingleEntryList(found, Entry(port, Label(port)));
  }

  /** With one open port the percentage is one hundred divided by the number of ports. */
  lemma OneOpenPercentage(st: Stats)
    requires st.totalPorts > 0 && st.openCount == 1
    ensures OpenPercentage(st) == 100.0 / st.totalPorts as real
  {
    assert OpenPercentage(st) * st.totalPorts as real == 100.0;
  }

  /**
   * A range in which exactly one port answers yields exactly one entry, for
   * that port with its label, and a percentage of 100 / (end - start + 1).
   */
  lemma SingleOpenPortScan(isOpen: int -> bool, startPort: int, endPort: int, port: int)
    requires startPort <= port <= endPort
    requires forall p :: startPort <= p <= endPort ==> (isOpen(p) <==> p == port)
    ensures OpenServices(PortRange(startPort, endPort), isOpen) == [Entry(port, Label(port))]
    ensures OpenPercentage(Statistics(startPort, endPort, [Entry(port, Label(port))]))
      == 100.0 / (endPort - startPort + 1) as real
  {
    SingleOpenPortList(isOpen, startPort, endPort, port);
    OneOpenPercentage(Statistics(startPort, endPort, [Entry(port, Label(port))]));
  }

  /** Progress lines a loop over `completed` probes has printed, one every ProgressEvery. */
  predicate ProgressSoFar(progress: seq<Progress>, completed: int, total: int): (ok: bool)
    ensures ok && completed >= 0 ==>
      ProgressEvery * |progress| <= completed < ProgressEvery * (|progress| + 1)
  {
    && |progress| == completed / ProgressEvery
    && forall k :: 0 <= k < |progress| ==> progress[k] == Progress(ProgressEvery * (k + 1), total)
  }

  /** Every progress line carries a positive multiple of ProgressEvery, no larger than the probes completed, and the total. */
  lemma ProgressLines(progress: seq<Progress>, completed: nat, total: int)
    requires ProgressSoFar(progress, completed, total)
    ensures forall k :: 0 <= k < |progress| ==>
      progress[k].completed % ProgressEvery == 0 && 0 < progress[k].completed <= completed
      && progress[k].total == total
  {
  }

  lemma ProgressStep(completed: nat)
    ensures (completed + 1) % ProgressEvery == 0 ==>
      (completed + 1) / ProgressEvery == completed / ProgressEvery + 1
      && completed + 1 == ProgressEvery * ((completed + 1) / ProgressEvery)
    ensures (completed + 1) % ProgressEvery != 0 ==>
      (completed + 1) / ProgressEvery == completed / ProgressEvery
  {
  }

  /** What the list built over a whole port range holds: its labelled open ports, ascending, at most one per port. */
  lemma RangeResult(startPort: int, endPort: int, isOpen: int -> bool)
    ensures var found := OpenServices(PortRange(startPort, endPort), isOpen);
      && (forall e :: e in found <==>
            startPort <= e.port <= endPort && isOpen(e.port) && e.service == ServiceCatalog.Label(e.port))
      && StrictlyAscending(PortsOf(found))
      && NoDuplicates(PortsOf(found))
      && |found| <= |PortRange(startPort, endPort)|
  {
    var ports := PortRange(startPort, endPort);
    PortRangeContents(startPort, endPort);
    forall e ensures e in OpenServices(ports, isOpen) <==>
      startPort <= e.port <= endPort && isOpen(e.port) && e.service == ServiceCatalog.Label(e.port)
    {
      OpenServicesMembers(ports, isOpen, e);
    }
    OpenServicesAscending(ports, isOpen);
    OpenServicesBound(ports, isOpen);
  }

  /**
   * escanar_rango_completo: the host check, then the range check, then the
   * worker clamp; then one probe per port of the range in ascending order,
   * read back in that order, with a progress line every ProgressEvery results.
   * main always passes DefaultWorkers as maxThreads.
   */
  method ScanRange(validHost: string -> bool, isOpen: int -> bool, host: string,
                   startPort: int, endPort: int, maxThreads: int)
    returns (openPorts: seq<Entry>, trace: ScanTrace)
    ensures !validHost(host) ==> trace.status == HostInvalid
    ensures validHost(host) && !ValidRange(startPort, endPort) ==> trace.status == RangeInvalid
    ensures validHost(host) && ValidRange(startPort, endPort) && ClampWorkers(maxThreads) < 1 ==>
      trace.status == PoolRefused
    ensures validHost(host) && ValidRange(startPort, endPort) && ClampWorkers(maxThreads) >= 1 ==>
      trace.status == Completed
    ensures trace.status != Completed ==>
      openPorts == [] && trace.submitted == [] && trace.progress == []
    ensures trace.status == Completed ==>
      && trace.workers == ClampWorkers(maxThreads)
      && 1 <= trace.workers <= MaxWorkers
      && trace.submitted == PortRange(startPort, endPort)
      && |trace.submitted| == endPort - startPort + 1 >= 1
      && openPorts == OpenServices(trace.submitted, isOpen)
      && (forall e :: e in openPorts <==>
            startPort <= e.port <= endPort && isOpen(e.port) && e.service == ServiceCatalog.Label(e.port))
      && StrictlyAscending(PortsOf(openPorts))
      && NoDuplicates(PortsOf(openPorts))
      && ProgressSoFar(trace.progress, endPort - startPort + 1, endPort - startPort + 1)
      && Statistics(startPort, endPort, openPorts).totalPorts == |trace.submitted|
      && Statistics(startPort, endPort, openPorts).openCount <= |trace.submitted|
  {
    if !validHost(host) {
      return [], ScanTrace(HostInvalid, 0, [], []);
    }
    if !(MinPort <= startPort <= endPort <= MaxPort) {
      return [], ScanTrace(RangeInvalid, 0, [], []);
    }
    var workers := ClampWorkers(maxThreads);
    if workers < 1 {
      return [], ScanTrace(PoolRefused, workers, [], []);
    }
    var total := endPort - startPort + 1;
    var ports := PortRange(startPort, endPort);
    var futures := seq(|ports|, i requires 0 <= i < |ports| => ScanPort(isOpen, ports[i]));
    openPorts := [];
    var progress: seq<Progress> := [];
    var completed := 0;
    var i := 0;
    while i < |futures|
      invariant 0 <= i <= |futures| && completed == i
      invariant openPorts == OpenServices(ports[..i], isOpen)
      invariant ProgressSoFar(progress, completed, total)
    {
      var result := futures[i];
      ProgressStep(completed);
      completed := completed + 1;
      if completed % ProgressEvery == 0 {
        progress := progress + [Progress(completed, total)];
      }
      if result.open {
        var service := ServiceCatalog.Label(result.port);
        openPorts := openPorts + [Entry(result.port, service)];
      }
      assert ports[..i + 1][..i] == ports[..i];
      i := i + 1;
    }
    assert ports[..i] == ports;
    RangeResult(startPort, endPort, isOpen);
    ghost var percentage := OpenPercentage(Statistics(startPort, endPort, openPorts));
    trace := ScanTrace(Completed, workers, ports, progress);
  }

  /**
   * escanar_puertos_comunes: the host check, then one probe per catalog port
   * in the catalog's order, read back in that order.
   */
  method ScanCommon(validHost: string -> bool, isOpen: int -> bool, host: string)
    returns (openPorts: seq<Entry>, trace: ScanTrace)
    ensures !validHost(host) ==> openPorts == [] && trace == ScanTrace(HostInvalid, 0, [], [])
    ensures validHost(host) ==>
      && trace == ScanTrace(Completed, CommonWorkers, ServiceCatalog.Keys(), [])
      && openPorts == OpenServices(ServiceCatalog.Keys(), isOpen)
      && (forall e :: e in openPorts <==>
            e.port in ServiceCatalog.Keys() && isOpen(e.port)
            && Entry(e.port, e.service) in ServiceCatalog.Entries)
      && StrictlyAscending(PortsOf(openPorts))
      && NoDuplicates(PortsOf(openPorts))
      && |openPorts| <= |ServiceCatalog.Entries|
  {
    if !validHost(host) {
      return [], ScanTrace(HostInvalid, 0, [], []);
    }
    var ports := ServiceCatalog.Keys();
    var futures := seq(|ports|, i requires 0 <= i < |ports| => ScanPort(isOpen, ports[i]));
    openPorts := [];
    var i := 0;
    while i < |futures|
      invariant 0 <= i <= |futures|
      invariant openPorts == OpenServices(ports[..i], isOpen)
    {
      var result := futures[i];
      if result.open {
        var service := ServiceCatalog.Label(result.port);
        openPorts := openPorts + [Entry(result.port, service)];
      }
      assert ports[..i + 1][..i] == ports[..i];
      i := i + 1;
    }
    assert ports[..i] == ports;
    trace := ScanTrace(Completed, CommonWorkers, ports, []);
    forall e ensures e in openPorts <==>
      e.port in ports && isOpen(e.port) && Entry(e.port, e.service) in ServiceCatalog.Entries
    {
      OpenServicesMembers(ports, isOpen, e);
      if e.port in ports && Entry(e.port, e.service) in ServiceCatalog.Entries {
        ServiceCatalog.LabelOfListedPort(e.port, e.service);
      }
    }
    ServiceCatalog.KeysAscending();
    OpenServicesAscending(ports, isOpen);
    OpenServicesBound(ports, isOpen);
  }
}
