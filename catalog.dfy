/**
 * The static table of well-known ports and their service names
 * (PUERTOS_COMUNES), and the lookup with the "Desconocido" default.
 */
module ServiceCatalog {
  import opened Wrappers
  import opened Ordering

  /** A port and the name of the service behind it: a row of the table, or an entry of a scan's result. */
  datatype Entry = Entry(port: int, service: string)

  /** The label used for a port that the table does not list. */
  const Unknown: string := "Desconocido"

  /** The table, in the order its rows are written (a dictionary keeps that order). */
  const Entries: seq<Entry> := [
    Entry(21, "FTP"), Entry(22, "SSH"), Entry(23, "Telnet"), Entry(25, "SMTP"),
    Entry(53, "DNS"), Entry(80, "HTTP"), Entry(110, "POP3"), Entry(143, "IMAP"),
    Entry(443, "HTTPS"), Entry(993, "IMAPS"), Entry(995, "POP3S"),
    Entry(1433, "MSSQL"), Entry(3306, "MySQL"), Entry(3389, "RDP"),
    Entry(5432, "PostgreSQL"), Entry(8080, "HTTP-Alt"), Entry(8443, "HTTPS-Alt")
  ]

  /** The ports of a list of rows, in the same order. */
  function PortsOf(es: seq<Entry>): (ps: seq<int>)
    ensures |ps| == |es|
    ensures forall i :: 0 <= i < |es| ==> ps[i] == es[i].port
  {
    seq(|es|, i requires 0 <= i < |es| => es[i].port)
  }

  /** The keys of the table, in iteration order. */
  function Keys(): (ks: seq<int>)
    ensures |ks| == |Entries|
    ensures forall i :: 0 <= i < |Entries| ==> ks[i] == Entries[i].port
  {
    PortsOf(Entries)
  }

  /**
   * Lookup of a port's service in a table whose keys are distinct, as a dictionary's
   * are; with distinct keys the row found is the only one for that port (FindListed).
   */
  function Find(es: seq<Entry>, port: int): (r: Option<string>)
    ensures r.Some? <==> port in PortsOf(es)
    ensures r.Some? ==> Entry(port, r.value) in es
  {
    if es == [] then None
    else if es[0].port == port then Some(es[0].service)
    else
      assert PortsOf(es) == [es[0].port] + PortsOf(es[1..]);
      Find(es[1..], port)
  }

  /** In a table whose keys are distinct, the lookup finds a key's own row. */
  lemma {:induction false} FindListed(es: seq<Entry>, port: int, service: string)
    requires NoDuplicates(PortsOf(es))
    requires Entry(port, service) in es
    ensures Find(es, port) == Some(service)
  {
    if es[0] != Entry(port, service) {
      var ps := PortsOf(es);
      var rest := es[1..];
      assert PortsOf(rest) == ps[1..];
      var k :| 0 <= k < |es| && es[k] == Entry(port, service);
      assert k != 0 ==> ps[0] != ps[k];
      assert Entry(port, service) in rest by { assert rest[k - 1] == es[k]; }
      FindListed(rest, port, service);
    }
  }

  /** Dictionary lookup with a default, as the table's get does. */
  function Get(port: int, default: string): (r: string)
    ensures port in Keys() ==> Entry(port, r) in Entries
    ensures port !in Keys() ==> r == default
  {
    match Find(Entries, port)
    case Some(s) => s
    case None => default
  }

  /** The label a scan attaches to an open port. */
  function Label(port: int): (r: string)
    ensures port in Keys() ==> Entry(port, r) in Entries
    ensures port !in Keys() ==> r == Unknown
  {
    Get(port, Unknown)
  }

  /** The table lists 17 ports, in strictly ascending order, so its keys are distinct. */
  lemma KeysAscending()
    ensures |Keys()| == 17
    ensures StrictlyAscending(Keys())
    ensures NoDuplicates(Keys())
  {
    var ks := Keys();
    assert AscendingSteps(ks) by {
      forall i | 0 <= i < |ks| - 1 ensures ks[i] < ks[i + 1] {
        assert ks[i] == Entries[i].port && ks[i + 1] == Entries[i + 1].port;
      }
    }
    StepsAscending(ks);
    AscendingHasNoDuplicates(ks);
  }

  /** A listed port is labelled with exactly its own row's service. */
  lemma LabelOfListedPort(port: int, service: string)
    requires Entry(port, service) in Entries
    ensures Label(port) == service
  {
    KeysAscending();
    FindListed(Entries, port, service);
  }

  /** Port 22 is SSH and port 54321 is not listed. */
  lemma LabelExamples()
    ensures Label(22) == "SSH"
    ensures Label(54321) == Unknown
  {
    LabelOfListedPort(22, "SSH");
    KeysAscending();
    var ks := Keys();
    assert ks[16] == 8443;
    forall i | 0 <= i < |ks| ensures ks[i] != 54321 {
      if i < 16 { assert ks[i] < ks[16]; }
    }
  }
}
