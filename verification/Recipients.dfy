/**
 * Recipients of a mail file and where they are served: parse_mail and its helpers
 * (client/src/parser.c), and the connections made from them (client/src/client.c).
 *
 * DNS enters as two functions: the mail exchanger of a host and the address of a host.
 */
module Recipients {
  import opened Wrappers

  const MAX_TO_COUNT := 16
  const HOME_HOST := "alfabank.com"
  const HOME_IP := "127.0.0.1"
  const HOME_PORT := 3001
  const SMTP_PORT := 25

  // ---------- cutting addresses out of lines ----------

  /** What stands behind the first `c` (strchr). */
  function Behind(s: string, c: char): string
    requires c in s
  {
    if s[0] == c then s[1..] else Behind(s[1..], c)
  }

  /** What stands before the last `c` (strrchr). */
  function BeforeLast(s: string, c: char): string
    requires c in s
  {
    if s[|s| - 1] == c then s[..|s| - 1] else BeforeLast(s[..|s| - 1], c)
  }

  /** The lines that cut_addresses_from_mail_format can handle: a `<` and behind it a `>`. */
  predicate Bracketed(raw: string) {
    '<' in raw && '>' in Behind(raw, '<')
  }

  /** cut_addresses_from_mail_format: what stands between the first `<` and the last `>`. */
  function CutAddress(raw: string): string
    requires Bracketed(raw)
  {
    BeforeLast(Behind(raw, '<'), '>')
  }

  /** cut_host_from_reciever: what stands behind the first `@`. */
  function CutHost(reciever: string): string
    requires '@' in reciever
  {
    Behind(reciever, '@')
  }

  predicate ToLine(raw: string) {
    Bracketed(raw) && '@' in CutAddress(raw)
  }

  lemma {:induction false} BehindFirst(a: string, c: char, b: string)
    requires c !in a
    ensures Behind(a + [c] + b, c) == b
  {
    var s := a + [c] + b;
    assert s[|a|] == c;
    if a == "" {
      assert s[1..] == b;
    } else {
      assert s[0] == a[0] && s[1..] == a[1..] + [c] + b;
      BehindFirst(a[1..], c, b);
    }
  }

  lemma {:induction false} BeforeLastOne(a: string, c: char, b: string)
    requires c !in b
    ensures BeforeLast(a + [c] + b, c) == a
  {
    var s := a + [c] + b;
    assert s[|a|] == c;
    if b == "" {
      assert s[..|s| - 1] == a;
    } else {
      assert s[|s| - 1] == b[|b| - 1] && s[..|s| - 1] == a + [c] + b[..|b| - 1];
      BeforeLastOne(a, c, b[..|b| - 1]);
    }
  }

  /** What is cut out of a well-written line is what was written into it. */
  lemma CutWritten(name: string, user: string, host: string, rest: string)
    requires '<' !in name && '>' !in rest && '@' !in user
    ensures var raw := name + ['<'] + (user + ['@'] + host + ['>'] + rest);
      ToLine(raw) && CutAddress(raw) == user + ['@'] + host && CutHost(CutAddress(raw)) == host
  {
    var to := user + ['@'] + host;
    var raw := name + ['<'] + (to + ['>'] + rest);
    BehindFirst(name, '<', to + ['>'] + rest);
    assert raw[|name|] == '<' && (to + ['>'] + rest)[|to|] == '>' && to[|user|] == '@';
    BeforeLastOne(to, '>', rest);
    BehindFirst(user, '@', host);
  }

  // ---------- where a host is served ----------

  datatype Dns = Dns(mx: string -> Option<string>, a: string -> Option<string>)

  datatype Place = Place(address: string, port: int)

  /** What get_address_from_reciever answers; the address "home" means to leave the recipient out. */
  function Lookup(host: string, homeMode: bool, dns: Dns): Option<Place> {
    if host == HOME_HOST then Some(if homeMode then Place(HOME_IP, HOME_PORT) else Place("home", 0))
    else match dns.mx(host)
      case None => None
      case Some(mx) =>
        match dns.a(mx)
        case None => None
        case Some(addr) => Some(Place(addr, SMTP_PORT))
  }

  /** get_address_from_reciever; the port goes to `ports[at]`, except for the home server. */
  method GetAddressFromReciever(host: string, ports: array<int>, at: nat, homeMode: bool, dns: Dns) returns (addr: Option<string>)
    requires at < ports.Length
    modifies ports
    ensures host == "alfabank.com" ==> addr == Some(if homeMode then "127.0.0.1" else "home")
    ensures host != "alfabank.com" ==> addr == if dns.mx(host).None? then None else dns.a(dns.mx(host).value)
    ensures host == "alfabank.com" && homeMode ==> ports[at] == 3001
    ensures host != "alfabank.com" && addr.Some? ==> ports[at] == 25
    ensures forall i :: 0 <= i < ports.Length && i != at ==> ports[i] == old(ports[i])
  {
    addr := Some("home");
    if host == HOME_HOST {
      if homeMode {
        addr := Some(HOME_IP);
        ports[at] := HOME_PORT;
      }
    } else {
      var mx := dns.mx(host);
      if mx.None? {
        return None;
      }
      addr := dns.a(mx.value);
      if addr.None? {
        return None;
      }
      ports[at] := SMTP_PORT;
    }
  }

  /** The places of hosts in order, without those that are "home". */
  function Places(hosts: seq<string>, homeMode: bool, dns: Dns): (r: seq<Place>)
    ensures |r| <= |hosts|
  {
    if hosts == [] then []
    else
      var r := Places(hosts[..|hosts| - 1], homeMode, dns);
      match Lookup(hosts[|hosts| - 1], homeMode, dns)
      case None => r
      case Some(p) => r + Kept(p)
  }

  function Kept(p: Place): seq<Place> {
    if p.address == "home" then [] else [p]
  }

  predicate AllFound(hosts: seq<string>, homeMode: bool, dns: Dns) {
    forall i :: 0 <= i < |hosts| ==> Lookup(hosts[i], homeMode, dns).Some?
  }

  /** The beginning of an array that has been zeroed before. */
  ghost predicate Holds(a: array<Option<string>>, s: seq<string>)
    reads a
  {
    && |s| <= a.Length
    && (forall i :: 0 <= i < |s| ==> a[i] == Some(s[i]))
    && (forall i :: |s| <= i < a.Length ==> a[i] == None)
  }

  lemma PlacesNext(hosts: seq<string>, k: nat, homeMode: bool, dns: Dns, p: Option<Place>)
    requires k < |hosts|
    requires p == Lookup(hosts[k], homeMode, dns)
    ensures Places(hosts[..k + 1], homeMode, dns) == Places(hosts[..k], homeMode, dns) + if p.None? then [] else Kept(p.value)
    ensures AllFound(hosts[..k], homeMode, dns) ==> (AllFound(hosts[..k + 1], homeMode, dns) <==> p.Some?)
    ensures p.None? ==> !AllFound(hosts, homeMode, dns)
  {
    hide Lookup, Kept;
    var r := hosts[..k + 1];
    assert r[..k] == hosts[..k] && r[k] == hosts[k];
  }

  /** The two arrays hold these places, and the addresses end there. */
  ghost predicate Filled(addrs: array<Option<string>>, ports: array<int>, places: seq<Place>)
    reads addrs, ports
  {
    && |places| <= addrs.Length == ports.Length
    && (forall i :: 0 <= i < |places| ==> addrs[i] == Some(places[i].address) && ports[i] == places[i].port)
    && (forall i :: |places| <= i < addrs.Length ==> addrs[i] == None)
  }

  /** get_recievers_from_hosts: null as soon as a lookup fails. */
  method GetRecieversFromHosts(hosts: array<Option<string>>, ports: array<int>, homeMode: bool, dns: Dns, ghost names: seq<string>)
    returns (addrs: array?<Option<string>>)
    requires hosts.Length == ports.Length == MAX_TO_COUNT && Holds(hosts, names) && |names| < MAX_TO_COUNT
    modifies ports
    ensures addrs == null <==> !AllFound(names, homeMode, dns)
    ensures addrs != null ==> fresh(addrs) && Filled(addrs, ports, Places(names, homeMode, dns))
  {
    var i := 0;
    addrs := new Option<string>[MAX_TO_COUNT](_ => None);
    var rhc := 0;
    ghost var places := [];
    while hosts[i] != None && i < MAX_TO_COUNT
      invariant 0 <= i <= |names| && AllFound(names[..i], homeMode, dns)
      invariant addrs != null && fresh(addrs) && addrs.Length == MAX_TO_COUNT
      invariant places == Places(names[..i], homeMode, dns) && rhc == |places| <= i
      invariant Filled(addrs, ports, places)
      decreases |names| - i
    {
      PlacesNext(names, i, homeMode, dns, Lookup(names[i], homeMode, dns));
      assert hosts[i] == Some(names[i]);
      var more;
      more, rhc, places := LookupOne(hosts[i].value, addrs, ports, rhc, homeMode, dns, places);
      if !more {
        return null;
      }
      i := i + 1;
    }
    assert names[..i] == names;
  }

  // the body of that loop
  method LookupOne(host: string, addrs: array<Option<string>>, ports: array<int>, rhc: nat, homeMode: bool, dns: Dns, ghost places: seq<Place>)
    returns (more: bool, rhc': nat, ghost places': seq<Place>)
    requires Filled(addrs, ports, places) && rhc == |places| < addrs.Length
    modifies addrs, ports
    ensures more <==> Lookup(host, homeMode, dns).Some?
    ensures more ==> Filled(addrs, ports, places') && rhc' == |places'|
    ensures more ==> places' == places + Kept(Lookup(host, homeMode, dns).value)
  {
    var addr := GetAddressFromReciever(host, ports, rhc, homeMode, dns);
    more, rhc', places' := true, rhc, places;
    if addr.None? {
      more := false;
    } else if addr.value == "home" {
      // the home server is left out
    } else {
      addrs[rhc] := addr;
      rhc' := rhc + 1;
      places' := places + [Lookup(host, homeMode, dns).value];
    }
  }

  // ---------- parse_mail ----------

  predicate AllTo(raws: seq<string>) {
    forall i :: 0 <= i < |raws| ==> ToLine(raws[i])
  }

  /** The recipients of the X-TO lines in file order; outside the home mode those at home are left out. */
  function Recievers(raws: seq<string>, homeMode: bool): (r: seq<string>)
    requires AllTo(raws)
    ensures |r| <= |raws| && forall i :: 0 <= i < |r| ==> '@' in r[i]
  {
    if raws == [] then []
    else
      var r := Recievers(raws[..|raws| - 1], homeMode);
      assert ToLine(raws[|raws| - 1]);
      var to := CutAddress(raws[|raws| - 1]);
      if CutHost(to) == HOME_HOST && !homeMode then r else r + [to]
  }

  function Hosts(tos: seq<string>): (r: seq<string>)
    requires forall i :: 0 <= i < |tos| ==> '@' in tos[i]
    ensures |r| == |tos| && forall i :: 0 <= i < |r| ==> r[i] == CutHost(tos[i])
  {
    if tos == [] then [] else Hosts(tos[..|tos| - 1]) + [CutHost(tos[|tos| - 1])]
  }

  predicate Blank(line: string) {
    line == "\n" || line == "\r\n"
  }

  /** The lines between the sender and the first blank line, in a file that can be read. */
  ghost predicate Header(lines: seq<string>, raws: seq<string>) {
    && |raws| + 1 < |lines| && raws == lines[1..|raws| + 1] && lines[|raws| + 1] in ["\n", "\r\n"]
    && |raws| < 16 && Bracketed(lines[0])
    && AllTo(raws) && forall i :: 0 <= i < |raws| ==> raws[i] !in ["\n", "\r\n"]
  }

  datatype Mail = Mail(from: string, recievers: seq<Option<string>>, hosts: seq<Option<string>>, ports: seq<int>, tosCount: nat, text: seq<string>)

  // the first loop of parse_mail
  method CollectRaws(lines: seq<string>, ghost raws: seq<string>) returns (toRaws: array<Option<string>>, toCount: nat)
    requires Header(lines, raws)
    ensures fresh(toRaws) && toRaws.Length == MAX_TO_COUNT && Holds(toRaws, raws) && toCount == |raws|
  {
    toRaws := new Option<string>[MAX_TO_COUNT](_ => None);
    toCount := 0;
    var sn := 1;
    while !Blank(lines[sn])
      invariant 1 <= sn == toCount + 1 <= |raws| + 1 && toRaws.Length == MAX_TO_COUNT
      invariant Holds(toRaws, raws[..toCount]) && (toCount < |raws| ==> lines[sn] == raws[toCount])
      decreases |raws| - toCount
    {
      toRaws[sn - 1] := Some(lines[sn]);
      toCount := toCount + 1;
      sn := sn + 1;
    }
    assert raws[..toCount] == raws;
  }

  // the second loop: cutting the addresses and leaving out those at home
  method SortOut(toRaws: array<Option<string>>, homeMode: bool, ghost raws: seq<string>)
    returns (tos: array<Option<string>>, hosts: array<Option<string>>, rhc: nat)
    requires toRaws.Length == MAX_TO_COUNT && Holds(toRaws, raws) && AllTo(raws)
    ensures fresh(tos) && fresh(hosts) && tos.Length == hosts.Length == MAX_TO_COUNT && rhc == |Recievers(raws, homeMode)|
    ensures Holds(tos, Recievers(raws, homeMode)) && Holds(hosts, Hosts(Recievers(raws, homeMode)))
  {
    tos := new Option<string>[MAX_TO_COUNT](_ => None);
    hosts := new Option<string>[MAX_TO_COUNT](_ => None);
    rhc := SortAll(toRaws[..], tos, hosts, homeMode, raws);
    assert raws[..|raws|] == raws;
  }

  /** What an array that holds `raws` reads like. */
  predicate Lists(slots: seq<Option<string>>, raws: seq<string>) {
    && |raws| <= |slots| && (forall i :: 0 <= i < |raws| ==> slots[i] == Some(raws[i]))
    && (|raws| < |slots| ==> slots[|raws|] == None)
  }

  method SortAll(toRaws: seq<Option<string>>, tos: array<Option<string>>, hosts: array<Option<string>>, homeMode: bool, ghost raws: seq<string>)
    returns (rhc: nat)
    requires |toRaws| == tos.Length == hosts.Length == MAX_TO_COUNT && tos != hosts
    requires Lists(toRaws, raws) && AllTo(raws) && Sorted(tos, hosts, 0, [])
    modifies tos, hosts
    ensures SortedUpTo(tos, hosts, rhc, raws, |raws|, homeMode)
  {
    hide CutAddress, CutHost, ToLine, Hosts;
    rhc := 0;
    var i := 0;
    assert raws[..0] == [];
    while i < MAX_TO_COUNT
      invariant 0 <= i <= |raws|
      invariant SortedUpTo(tos, hosts, rhc, raws, i, homeMode)
      decreases MAX_TO_COUNT - i
    {
      if toRaws[i] == None {
        break;
      }
      rhc := SortNext(toRaws[i].value, tos, hosts, rhc, homeMode, raws, i);
      i := i + 1;
    }
  }

  /** The first `i` lines are sorted out. */
  ghost predicate SortedUpTo(tos: array<Option<string>>, hosts: array<Option<string>>, rhc: nat, raws: seq<string>, i: nat, homeMode: bool)
    requires AllTo(raws) && i <= |raws|
    reads tos, hosts
  {
    Sorted(tos, hosts, rhc, Recievers(raws[..i], homeMode))
  }

  method SortNext(toRaw: string, tos: array<Option<string>>, hosts: array<Option<string>>, rhc: nat, homeMode: bool,
                  ghost raws: seq<string>, ghost i: nat)
    returns (rhc': nat)
    requires i < |raws| <= tos.Length == hosts.Length && tos != hosts && toRaw == raws[i]
    requires AllTo(raws) && SortedUpTo(tos, hosts, rhc, raws, i, homeMode)
    modifies tos, hosts
    ensures SortedUpTo(tos, hosts, rhc', raws, i + 1, homeMode)
  {
    RecieversNext(raws, i, homeMode);
    ghost var kept;
    rhc', kept := SortOne(toRaw, tos, hosts, rhc, homeMode, Recievers(raws[..i], homeMode));
  }

  ghost predicate Sorted(tos: array<Option<string>>, hosts: array<Option<string>>, rhc: nat, kept: seq<string>)
    reads tos, hosts
  {
    && (forall i :: 0 <= i < |kept| ==> '@' in kept[i])
    && Holds(tos, kept) && Holds(hosts, Hosts(kept)) && rhc == |kept|
  }

  lemma RecieversNext(raws: seq<string>, k: nat, homeMode: bool)
    requires k < |raws| && AllTo(raws)
    ensures ToLine(raws[k])
    ensures Recievers(raws[..k + 1], homeMode) == Recievers(raws[..k], homeMode) + Counted(CutAddress(raws[k]), homeMode)
  {
    assert raws[..k + 1][..k] == raws[..k];
  }

  function Counted(to: string, homeMode: bool): seq<string>
    requires '@' in to
  {
    if CutHost(to) == HOME_HOST && !homeMode then [] else [to]
  }

  // the body of that loop
  method SortOne(toRaw: string, tos: array<Option<string>>, hosts: array<Option<string>>, rhc: nat, homeMode: bool, ghost kept: seq<string>)
    returns (rhc': nat, ghost kept': seq<string>)
    requires ToLine(toRaw) && Sorted(tos, hosts, rhc, kept) && rhc < tos.Length == hosts.Length && tos != hosts
    modifies tos, hosts
    ensures kept' == kept + Counted(CutAddress(toRaw), homeMode) && Sorted(tos, hosts, rhc', kept')
  {
    rhc', kept' := rhc, kept;
    var to := CutAddress(toRaw);
    var host := CutHost(to);
    if host == HOME_HOST && !homeMode {
      // left out
    } else {
      hosts[rhc] := Some(host);
      tos[rhc] := Some(to);
      rhc' := rhc + 1;
      assert (kept + [to])[..|kept|] == kept;
      kept' := kept + [to];
    }
  }

  // the last loop: the text behind the blank line
  method CopyText(lines: seq<string>, toCount: nat) returns (text: seq<string>)
    requires toCount + 2 <= |lines|
    ensures text == lines[toCount + 2..]
  {
    text := [];
    for i := 0 to |lines| - toCount - 2
      invariant text == lines[toCount + 2..toCount + 2 + i]
    {
      text := text + [lines[i + toCount + 2]];
    }
  }

  /** The fields of a parsed mail. */
  ghost predicate Parsed(m: Mail, lines: seq<string>, raws: seq<string>, homeMode: bool, dns: Dns)
    requires Header(lines, raws)
  {
    var tos := Recievers(raws, homeMode);
    && m.from == CutAddress(lines[0]) && m.text == lines[|raws| + 2..]
    && Table(m, tos, Places(Hosts(tos), homeMode, dns))
  }

  ghost predicate Table(m: Mail, tos: seq<string>, places: seq<Place>) {
    && m.tosCount == |tos| && |tos| <= |m.recievers| == |m.hosts| == |m.ports| == MAX_TO_COUNT && |places| <= MAX_TO_COUNT
    && (forall i :: 0 <= i < |tos| ==> m.recievers[i] == Some(tos[i]))
    && (forall i :: 0 <= i < |places| ==> m.hosts[i] == Some(places[i].address) && m.ports[i] == places[i].port)
    && (forall i :: |places| <= i < MAX_TO_COUNT ==> m.hosts[i] == None)
  }

  lemma TableOf(m: Mail, recievers: array<Option<string>>, addrs: array<Option<string>>, ports: array<int>, tos: seq<string>, places: seq<Place>)
    requires recievers.Length == addrs.Length == ports.Length == MAX_TO_COUNT
    requires Holds(recievers, tos) && Filled(addrs, ports, places)
    requires m.tosCount == |tos| && m.recievers == recievers[..] && m.hosts == addrs[..] && m.ports == ports[..]
    ensures Table(m, tos, places)
  {
  }

  /** parse_mail, on a file whose header is in order. */
  method ParseMail(lines: seq<string>, homeMode: bool, dns: Dns, ghost raws: seq<string>) returns (m: Option<Mail>)
    requires |lines| >= 3 ==> Header(lines, raws)
    ensures |lines| < 3 ==> m == None
    ensures |lines| >= 3 ==> (m.Some? <==> AllFound(Hosts(Recievers(raws, homeMode)), homeMode, dns))
    ensures m.Some? ==> Parsed(m.value, lines, raws, homeMode, dns)
  {
    hide Recievers, Hosts, Places, CutHost, Lookup;
    if |lines| < 3 {
      return None;
    }
    var toRaws, toCount := CollectRaws(lines, raws);
    var from := CutAddress(lines[0]);
    var tos, hosts, rhc := SortOut(toRaws, homeMode, raws);
    var ports := new int[MAX_TO_COUNT];
    var addrs := GetRecieversFromHosts(hosts, ports, homeMode, dns, Hosts(Recievers(raws, homeMode)));
    if addrs == null {
      return None;
    }
    var text := CopyText(lines, toCount);
    m := Some(Mail(from, tos[..], addrs[..], ports[..], rhc, text));
    TableOf(m.value, tos, addrs, ports, Recievers(raws, homeMode), Places(Hosts(Recievers(raws, homeMode)), homeMode, dns));
  }

  // ---------- the table of recipients ----------

  /** Host and port of each recipient are where that recipient's domain is served. */
  ghost predicate Aligned(m: Mail, tos: seq<string>, homeMode: bool, dns: Dns)
    requires |tos| <= |m.hosts| == |m.ports| && forall i :: 0 <= i < |tos| ==> '@' in tos[i]
  {
    forall i :: 0 <= i < |tos| ==> Serves(m.hosts[i], m.ports[i], Lookup(CutHost(tos[i]), homeMode, dns))
  }

  predicate Serves(host: Option<string>, port: int, p: Option<Place>) {
    p.Some? && host == Some(p.value.address) && port == p.value.port
  }

  /** Some mail exchanger of these hosts has the address "home". */
  predicate NamedHome(hosts: seq<string>, homeMode: bool, dns: Dns) {
    exists i :: 0 <= i < |hosts| && Lookup(hosts[i], homeMode, dns).Some? && Lookup(hosts[i], homeMode, dns).value.address == "home"
  }

  lemma {:induction false} PlacesAll(hosts: seq<string>, homeMode: bool, dns: Dns)
    requires AllFound(hosts, homeMode, dns)
    ensures var places := Places(hosts, homeMode, dns);
      !NamedHome(hosts, homeMode, dns) ==>
        |places| == |hosts| && forall i :: 0 <= i < |hosts| ==> Lookup(hosts[i], homeMode, dns) == Some(places[i])
    ensures NamedHome(hosts, homeMode, dns) ==> |Places(hosts, homeMode, dns)| < |hosts|
  {
    if hosts != [] {
      var r := hosts[..|hosts| - 1];
      PlacesAll(r, homeMode, dns);
      if !NamedHome(hosts, homeMode, dns) {
        assert forall i :: 0 <= i < |r| ==> r[i] == hosts[i];
      } else {
        var i :| 0 <= i < |hosts| && Lookup(hosts[i], homeMode, dns).Some? && Lookup(hosts[i], homeMode, dns).value.address == "home";
        assert i < |r| ==> r[i] == hosts[i];
      }
    }
  }

  /** A parsed mail has its hosts and ports in line with its recipients exactly if no resolver answers "home". */
  lemma AlignedIff(m: Mail, lines: seq<string>, raws: seq<string>, homeMode: bool, dns: Dns)
    requires Header(lines, raws) && Parsed(m, lines, raws, homeMode, dns)
    requires AllFound(Hosts(Recievers(raws, homeMode)), homeMode, dns)
    ensures Aligned(m, Recievers(raws, homeMode), homeMode, dns) <==> !NamedHome(Hosts(Recievers(raws, homeMode)), homeMode, dns)
  {
    var tos := Recievers(raws, homeMode);
    var hosts := Hosts(tos);
    PlacesAll(hosts, homeMode, dns);
    if NamedHome(hosts, homeMode, dns) {
      var k := |tos| - 1;
      assert m.hosts[k] == None;
      assert !Serves(m.hosts[k], m.ports[k], Lookup(CutHost(tos[k]), homeMode, dns));
    } else {
      forall i | 0 <= i < |tos|
        ensures Serves(m.hosts[i], m.ports[i], Lookup(CutHost(tos[i]), homeMode, dns))
      {
        assert hosts[i] == CutHost(tos[i]);
      }
    }
  }

  /** Only the DNS can bring that about: recipients at home are left out, or have an address of their own. */
  lemma {:induction false} HomeFiltered(raws: seq<string>, homeMode: bool, dns: Dns, i: nat)
    requires AllTo(raws) && i < |Recievers(raws, homeMode)|
    ensures var host := CutHost(Recievers(raws, homeMode)[i]);
      var p := Lookup(host, homeMode, dns);
      p.Some? && p.value.address == "home" ==>
        host != HOME_HOST && dns.mx(host).Some? && dns.a(dns.mx(host).value) == Some("home")
  {
    var r := raws[..|raws| - 1];
    if i < |Recievers(r, homeMode)| {
      HomeFiltered(r, homeMode, dns, i);
    }
  }

  // ---------- connections ----------

  /** What init_connection takes over from a mail. */
  datatype Target = Target(from: string, to: Option<string>, host: Option<string>, port: int, text: seq<string>)

  predicate Usable(m: Mail) {
    m.tosCount <= |m.recievers| && m.tosCount <= |m.hosts| && m.tosCount <= |m.ports|
  }

  predicate AllUsable(mails: seq<Mail>) {
    forall i :: 0 <= i < |mails| ==> Usable(mails[i])
  }

  /** Connection `c` is for recipient `b` of the mail: to its host, at its port, with the mail's sender and text. */
  predicate Carries(c: Target, m: Mail, b: nat) {
    && Usable(m) && b < m.tosCount
    && c.from == m.from && c.to == m.recievers[b] && c.host == m.hosts[b] && c.port == m.ports[b] && c.text == m.text
  }

  /** How many recipients the first `a` mails have. */
  function Offset(mails: seq<Mail>, a: nat): nat
    requires a <= |mails|
  {
    if a == 0 then 0 else Offset(mails, a - 1) + mails[a - 1].tosCount
  }

  lemma {:induction false} OffsetGrows(mails: seq<Mail>, a: nat, b: nat)
    requires a <= b <= |mails|
    ensures Offset(mails, a) <= Offset(mails, b)
    decreases b
  {
    if a < b {
      OffsetGrows(mails, a, b - 1);
    }
  }

  /** The connections for the first `n` recipients of the mail are those from number `o` on. */
  predicate MadeFrom(cs: seq<Target>, o: nat, m: Mail, n: nat) {
    o + n <= |cs| && forall i :: o <= i < o + n ==> Carries(cs[i], m, i - o)
  }

  /** For each of the first `n` mails they stand behind those of the mails before. */
  predicate MadeFor(cs: seq<Target>, mails: seq<Mail>, n: nat)
    requires n <= |mails|
  {
    forall a :: 0 <= a < n ==> MadeFrom(cs, Offset(mails, a), mails[a], mails[a].tosCount)
  }

  lemma MadeNone(mails: seq<Mail>)
    ensures MadeFor([], mails, 0)
  {
  }

  lemma MadeStays(cs: seq<Target>, more: seq<Target>, o: nat, m: Mail, n: nat)
    requires MadeFrom(cs, o, m, n) && cs <= more
    ensures MadeFrom(more, o, m, n)
  {
    hide Carries;
    assert forall i :: o <= i < o + n ==> more[i] == cs[i];
  }

  /** One more mail, whose connections are put behind the others. */
  lemma MadeNext(cs: seq<Target>, more: seq<Target>, mails: seq<Mail>, n: nat)
    requires n < |mails| && MadeFor(cs, mails, n) && |cs| == Offset(mails, n) && cs <= more
    requires MadeFrom(more, |cs|, mails[n], mails[n].tosCount)
    ensures MadeFor(more, mails, n + 1)
  {
    hide MadeFrom, Offset;
    forall a | 0 <= a < n + 1
      ensures MadeFrom(more, Offset(mails, a), mails[a], mails[a].tosCount)
    {
      if a < n {
        MadeStays(cs, more, Offset(mails, a), mails[a], mails[a].tosCount);
      }
    }
  }

  /** No connection is for anything else. */
  lemma {:induction false} EachConnection(mails: seq<Mail>, n: nat, i: nat) returns (a: nat, b: nat)
    requires n <= |mails| && i < Offset(mails, n)
    ensures a < n && b < mails[a].tosCount && i == Offset(mails, a) + b
  {
    if i < Offset(mails, n - 1) {
      a, b := EachConnection(mails, n - 1, i);
    } else {
      a, b := n - 1, i - Offset(mails, n - 1);
    }
  }

  /** count_mails_connections */
  method CountMailsConnections(mails: seq<Mail>) returns (cnt: nat)
    ensures cnt == Offset(mails, |mails|)
  {
    cnt := 0;
    for i := 0 to |mails|
      invariant cnt == Offset(mails, i)
    {
      cnt := cnt + mails[i].tosCount;
    }
  }

  /** init_connection */
  method InitConnection(m: Mail, j: nat) returns (c: Target)
    requires Usable(m) && j < m.tosCount
    ensures Carries(c, m, j)
  {
    c := Target(m.from, m.recievers[j], m.hosts[j], m.ports[j], m.text);
  }

  /** init_connections: the computed count is filled exactly. */
  method InitConnections(mails: seq<Mail>, connsCount: nat) returns (connections: array<Target>)
    requires AllUsable(mails) && connsCount == Offset(mails, |mails|)
    ensures fresh(connections) && connections.Length == connsCount && MadeFor(connections[..], mails, |mails|)
  {
    hide MadeFor, MadeFrom;
    MadeNone(mails);
    var cci := 0;
    connections := new Target[connsCount](_ => Target("", None, None, 0, []));
    assert connections[..0] == [];
    for i := 0 to |mails|
      invariant cci == Offset(mails, i) && connections.Length == connsCount
      invariant cci <= connsCount && MadeFor(connections[..cci], mails, i)
    {
      OffsetGrows(mails, i + 1, |mails|);
      ghost var before := connections[..cci];
      cci := AddConnections(connections, cci, mails[i]);
      MadeNext(before, connections[..cci], mails, i);
    }
    assert connections[..cci] == connections[..];
  }

  // the inner loop: the recipients of one mail
  method AddConnections(connections: array<Target>, cci: nat, m: Mail) returns (cci': nat)
    requires Usable(m) && cci + m.tosCount <= connections.Length
    modifies connections
    ensures cci' == cci + m.tosCount && connections[..cci] == old(connections[..cci])
    ensures MadeFrom(connections[..cci'], cci, m, m.tosCount)
  {
    cci' := cci;
    for j := 0 to m.tosCount
      invariant cci' == cci + j && connections[..cci] == old(connections[..cci])
      invariant MadeFrom(connections[..cci'], cci, m, j)
    {
      var c := InitConnection(m, j);
      connections[cci'] := c;
      cci' := cci' + 1;
    }
  }
}
