/** The metrics listen address (bot/metrics.py): `host:port`, with the
    host defaulting to all interfaces and the port to 9123. */
module Metrics {
  import opened Wrappers
  import opened Strings

  const DefaultHost := "0.0.0.0"
  const DefaultPort: int := 9123

  datatype ListenAddress = ListenAddress(host: string, port: int)

  /** `addr.partition(":")`: the text before the first colon, whether there
      is one, and the text after it. */
  function Partition(addr: string): (r: (string, bool, string))
    ensures !r.1 ==> r.0 == addr && r.2 == "" && ':' !in addr
    ensures r.1 ==> addr == r.0 + ":" + r.2 && ':' !in r.0
  {
    var k := IndexOf(addr, ':');
    if k == |addr| then (addr, false, "")
    else
      assert addr == addr[..k] + ":" + addr[k + 1..];
      (addr[..k], true, addr[k + 1..])
  }

  /** The address `start_metrics_server(addr)` listens on; None where
      `int(port_str)` raises. */
  function ParseMetricsAddr(addr: string): (r: Option<ListenAddress>)
    ensures r.Some? ==> r.value.host != ""
    ensures Partition(addr).2 == "" ==> r == Some(ListenAddress(if Partition(addr).0 == "" then DefaultHost else Partition(addr).0, DefaultPort))
    ensures Partition(addr).2 != "" ==> (r.Some? <==> PyInt(Partition(addr).2).Some?)
    ensures r.Some? && Partition(addr).2 != "" ==> r.value.port == PyInt(Partition(addr).2).value
  {
    var (host, _, portText) := Partition(addr);
    var h := if host == "" then DefaultHost else host;
    if portText == "" then Some(ListenAddress(h, DefaultPort))
    else match PyInt(portText)
      case None => None
      case Some(p) => Some(ListenAddress(h, p))
  }

  /** A host without a colon and a port written in decimal read back as
      themselves. */
  lemma {:induction false} HostPortRoundTrip(host: string, port: nat)
    requires host != "" && ':' !in host
    ensures ParseMetricsAddr(host + ":" + NatToString(port)) == Some(ListenAddress(host, port))
  {
    var addr := host + ":" + NatToString(port);
    IndexOfAfter(host, ':', NatToString(port));
    assert addr[..|host|] == host && addr[|host| + 1..] == NatToString(port);
    PyIntOfNatToString(port);
  }

  /** A lone colon, or nothing at all, is the default address. */
  lemma {:induction false} DefaultsFillIn()
    ensures ParseMetricsAddr(":") == Some(ListenAddress(DefaultHost, DefaultPort))
    ensures ParseMetricsAddr("") == Some(ListenAddress(DefaultHost, DefaultPort))
  {
    assert IndexOf(":", ':') == 0;
  }
}
