/** The client's `host[:port]` strings: `parse_host_port` and the Host field it prints. */
module HostPort {
  import opened Wrappers
  import opened Text

  const PORT_LIMIT := 0x1_0000

  /** `parse_host_port`: the host up to the first colon and the port behind it, reduced to sixteen
      bits; the default port if there is no colon or no number behind it. */
  method ParseHostPort(hostPort: string, defaultPort: nat) returns (host: string, port: nat)
    requires defaultPort < PORT_LIMIT
    ensures port < PORT_LIMIT
    ensures ':' !in host && host <= hostPort
    ensures (host, port) == HostAndPort(hostPort, defaultPort)
  {
    FindIsFirst(hostPort, ':');
    var hostEnd := Find(hostPort, ':');
    if hostEnd == None {
      host, port := hostPort, defaultPort;
    } else {
      host := hostPort[..hostEnd.value];
      var number := Stoul(hostPort[hostEnd.value + 1..], 10);
      port := if number == None then defaultPort else number.value % PORT_LIMIT;
    }
  }

  function HostAndPort(hostPort: string, defaultPort: nat): (string, nat) {
    match Find(hostPort, ':')
    case None => (hostPort, defaultPort)
    case Some(k) =>
      (hostPort[..k],
       match Stoul(hostPort[k + 1..], 10)
       case None => defaultPort
       case Some(n) => n % PORT_LIMIT)
  }

  /** The value of the Host field: the port is printed unless it is the default. */
  function HostValue(host: string, port: nat, defaultPort: nat): string {
    if port != defaultPort then host + ":" + ToDecimal(port) else host
  }

  /** Round trip: parsing the printed Host value returns host and port, printed or omitted, exactly
      if the host has no colon. */
  lemma RoundTrip(host: string, port: nat, defaultPort: nat)
    requires port < PORT_LIMIT && defaultPort < PORT_LIMIT
    ensures HostAndPort(HostValue(host, port, defaultPort), defaultPort) == (host, port) <==> ':' !in host
  {
    hide Stoul, ToDecimal;
    var s := HostValue(host, port, defaultPort);
    FindIsFirst(s, ':');
    if ':' !in host {
      if port != defaultPort {
        FindAfter(host, ':', ToDecimal(port));
        assert s == host + [':'] + ToDecimal(port);
        assert s[..|host|] == host && s[|host| + 1..] == ToDecimal(port);
        DecimalRoundTrip(port);
      } else {
        FindNone(host, ':');
      }
    }
  }

  /** The port is printed exactly if it is not the default. */
  lemma HostAloneIff(host: string, port: nat, defaultPort: nat)
    ensures HostValue(host, port, defaultPort) == host <==> port == defaultPort
    ensures port != defaultPort ==> HostValue(host, port, defaultPort) == host + ":" + Printed(port, "0123456789")
  {
    DecimalIsPrinted(port);
  }

  /** A number behind the colon is cut to sixteen bits; where there is none that fits 64 bits, or no colon,
      the default port is taken. */
  lemma PortMeaning(host: string, text: string, defaultPort: nat)
    requires ':' !in host
    ensures HostAndPort(host, defaultPort) == (host, defaultPort)
    ensures HostAndPort(host + ":" + text, defaultPort)
         == (host, if Stoul(text, 10) == None then defaultPort else Stoul(text, 10).value % 65536)
  {
    hide Stoul;
    FindNone(host, ':');
    FindAfter(host, ':', text);
    var s := host + ":" + text;
    assert s == host + [':'] + text && s[..|host|] == host && s[|host| + 1..] == text;
  }
}
