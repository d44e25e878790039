/**
 * What a mail file says about who gets the mail and where they are served, and that the connections
 * made from it keep to that (client/src/parser.c, client/src/client.c): told from the lines of the file
 * and the answers of the DNS alone.
 */
module Delivery {
  import opened Wrappers
  import opened Recipients

  // ---------- what a line names ----------

  /** `a` stands between the first `<` and the last `>` of the line, and `h` behind the first `@` of `a`. */
  ghost predicate Names(line: string, a: string, h: string) {
    exists pre, post, user :: Spelt(line, a, h, pre, post, user)
  }

  predicate Spelt(line: string, a: string, h: string, pre: string, post: string, user: string) {
    && line == pre + ['<'] + (a + ['>'] + post) && '<' !in pre && '>' !in post
    && a == user + ['@'] + h && '@' !in user
  }

  lemma {:induction false} BehindSplits(s: string, c: char) returns (pre: string)
    requires c in s
    ensures s == pre + [c] + Behind(s, c) && c !in pre
  {
    if s[0] == c {
      pre := "";
    } else {
      pre := BehindSplits(s[1..], c);
      pre := [s[0]] + pre;
    }
  }

  lemma {:induction false} BeforeLastSplits(s: string, c: char) returns (post: string)
    requires c in s
    ensures s == BeforeLast(s, c) + [c] + post && c !in post
  {
    if s[|s| - 1] == c {
      post := "";
    } else {
      post := BeforeLastSplits(s[..|s| - 1], c);
      post := post + [s[|s| - 1]];
    }
  }

  /** Each line with brackets and an `@` names one address and one host: those that are cut out of it. */
  lemma NamesCut(line: string, a: string, h: string)
    ensures Names(line, a, h) <==> ToLine(line) && a == CutAddress(line) && h == CutHost(a)
  {
    if Names(line, a, h) {
      var pre, post, user :| Spelt(line, a, h, pre, post, user);
      assert line[|pre|] == '<' && (a + ['>'] + post)[|a|] == '>' && a[|user|] == '@';
      BehindFirst(pre, '<', a + ['>'] + post);
      BeforeLastOne(a, '>', post);
      BehindFirst(user, '@', h);
    }
    if ToLine(line) && a == CutAddress(line) && h == CutHost(a) {
      var pre := BehindSplits(line, '<');
      var post := BeforeLastSplits(Behind(line, '<'), '>');
      var user := BehindSplits(a, '@');
      assert Spelt(line, a, h, pre, post, user);
    }
  }

  // ---------- the recipients of a parsed mail ----------

  /** The recipients that are served: outside the home mode those at the home domain are left out. */
  function Wanted(homeMode: bool): string -> bool {
    h => homeMode || h != "alfabank.com"
  }

  /** The DNS answers with the word that means the home server. */
  predicate SaysHome(h: string, dns: Dns) {
    h != "alfabank.com" && dns.mx(h).Some? && dns.a(dns.mx(h).value) == Some("home")
  }

  /** Those of them that keep their place in the table of hosts. */
  function Placed(homeMode: bool, dns: Dns): string -> bool {
    h => Wanted(homeMode)(h) && !SaysHome(h, dns)
  }

  /** Line `k` names a recipient at such a host. */
  ghost predicate Chosen(raws: seq<string>, at: string -> bool, k: nat) {
    k < |raws| && exists a, h :: Names(raws[k], a, h) && at(h)
  }

  /** How many of the first `k` lines do. */
  ghost function Before(raws: seq<string>, at: string -> bool, k: nat): nat {
    |set i: nat | i < k && Chosen(raws, at, i)|
  }

  lemma BeforeNext(raws: seq<string>, at: string -> bool, k: nat)
    ensures Before(raws, at, k + 1) == Before(raws, at, k) + if Chosen(raws, at, k) then 1 else 0
  {
    hide Chosen;
    var s := set i: nat | i < k && Chosen(raws, at, i);
    assert (set i: nat | i < k + 1 && Chosen(raws, at, i)) == s + if Chosen(raws, at, k) then {k} else {};
  }

  lemma ChosenCut(raws: seq<string>, at: string -> bool, k: nat)
    requires k < |raws| && ToLine(raws[k])
    ensures Chosen(raws, at, k) <==> at(CutHost(CutAddress(raws[k])))
  {
    NamesCut(raws[k], CutAddress(raws[k]), CutHost(CutAddress(raws[k])));
    if a, h :| Names(raws[k], a, h) && at(h) {
      NamesCut(raws[k], a, h);
    }
  }

  /** Counting up to lines none of which is chosen differently. */
  lemma {:induction false} BeforeSame(raws: seq<string>, at: string -> bool, at': string -> bool, k: nat)
    requires forall i :: 0 <= i < k ==> Chosen(raws, at, i) == Chosen(raws, at', i)
    ensures Before(raws, at, k) == Before(raws, at', k)
  {
    assert (set i: nat | i < k && Chosen(raws, at, i)) == (set i: nat | i < k && Chosen(raws, at', i));
  }

  lemma RecieversNone(raws: seq<string>, homeMode: bool)
    ensures Recievers([], homeMode) == [] && raws[..0] == [] && Before(raws, Wanted(homeMode), 0) == 0
  {
    assert (set i: nat | i < 0 && Chosen(raws, Wanted(homeMode), i)) == {};
  }

  lemma {:induction false} RecieversCount(raws: seq<string>, homeMode: bool, k: nat)
    requires AllTo(raws) && k <= |raws|
    ensures |Recievers(raws[..k], homeMode)| == Before(raws, Wanted(homeMode), k)
  {
    hide AllTo, ToLine, CutAddress, CutHost, Chosen, Before, Names, Recievers;
    if k == 0 {
      RecieversNone(raws, homeMode);
    } else {
      RecieversCount(raws, homeMode, k - 1);
      RecieversNext(raws, k - 1, homeMode);
      BeforeNext(raws, Wanted(homeMode), k - 1);
      ChosenCut(raws, Wanted(homeMode), k - 1);
    }
  }

  lemma {:induction false} RecieversGrow(raws: seq<string>, homeMode: bool, k: nat)
    requires AllTo(raws) && k <= |raws|
    ensures Recievers(raws[..k], homeMode) <= Recievers(raws, homeMode)
    decreases |raws| - k
  {
    hide CutAddress, CutHost, ToLine;
    if k < |raws| {
      RecieversNext(raws, k, homeMode);
      RecieversGrow(raws, homeMode, k + 1);
    } else {
      assert raws[..k] == raws;
    }
  }

  /** The recipients are the addresses of the wanted lines, each as far down as there are such lines before it. */
  lemma RecieverAt(raws: seq<string>, homeMode: bool, k: nat, a: string, h: string)
    requires AllTo(raws) && k < |raws| && Names(raws[k], a, h) && Wanted(homeMode)(h)
    ensures var i := Before(raws, Wanted(homeMode), k);
      i < |Recievers(raws, homeMode)| && Recievers(raws, homeMode)[i] == a
  {
    hide AllTo, ToLine, CutAddress, CutHost, Before, Names, Recievers;
    NamesCut(raws[k], a, h);
    RecieversCount(raws, homeMode, k);
    RecieversNext(raws, k, homeMode);
    RecieversGrow(raws, homeMode, k + 1);
  }

  // ---------- where they are served ----------

  /** The host is served there: the home domain by this machine, any other by its mail exchanger. */
  predicate Reaches(h: string, dns: Dns, addr: Option<string>, port: int) {
    if h == "alfabank.com" then addr == Some("127.0.0.1") && port == 3001
    else dns.mx(h).Some? && addr.Some? && addr == dns.a(dns.mx(h).value) && port == 25
  }

  /** The host can be reached: it is at home, or both queries are answered. */
  predicate Resolves(h: string, dns: Dns) {
    h == "alfabank.com" || (dns.mx(h).Some? && dns.a(dns.mx(h).value).Some?)
  }

  ghost predicate AllResolve(raws: seq<string>, dns: Dns) {
    forall k, a, h :: 0 <= k < |raws| && Names(raws[k], a, h) ==> Resolves(h, dns)
  }

  ghost predicate NoneSaysHome(raws: seq<string>, dns: Dns) {
    forall k, a, h :: 0 <= k < |raws| && Names(raws[k], a, h) ==> !SaysHome(h, dns)
  }

  /** The hosts that are looked up for the first `k` lines. */
  function HostsTo(raws: seq<string>, homeMode: bool, k: nat): seq<string>
    requires AllTo(raws) && k <= |raws|
  {
    Hosts(Recievers(raws[..k], homeMode))
  }

  lemma HostsNext(raws: seq<string>, homeMode: bool, k: nat)
    requires AllTo(raws) && k < |raws|
    ensures var h := CutHost(CutAddress(raws[k]));
      HostsTo(raws, homeMode, k + 1) == HostsTo(raws, homeMode, k) + if Wanted(homeMode)(h) then [h] else []
  {
    RecieversNext(raws, k, homeMode);
    var tos := Recievers(raws[..k], homeMode);
    assert (tos + [CutAddress(raws[k])])[..|tos|] == tos;
  }

  /** The addresses and ports found for them. */
  function PlacesTo(raws: seq<string>, homeMode: bool, dns: Dns, k: nat): seq<Place>
    requires AllTo(raws) && k <= |raws|
  {
    Places(HostsTo(raws, homeMode, k), homeMode, dns)
  }

  /** What one more line adds to them. */
  ghost predicate Adds(before: seq<Place>, after: seq<Place>, placed: bool, h: string, dns: Dns) {
    if placed then |after| == |before| + 1 && before <= after && Reaches(h, dns, Some(after[|before|].address), after[|before|].port)
    else after == before
  }

  lemma LookupReaches(h: string, homeMode: bool, dns: Dns)
    requires Wanted(homeMode)(h) && Resolves(h, dns)
    ensures var p := Lookup(h, homeMode, dns);
      && p.Some? && Reaches(h, dns, Some(p.value.address), p.value.port)
      && Kept(p.value) == if SaysHome(h, dns) then [] else [p.value]
  {
  }

  lemma PlacesNextLine(raws: seq<string>, homeMode: bool, dns: Dns, k: nat)
    requires AllTo(raws) && k < |raws| && AllResolve(raws, dns)
    ensures var h := CutHost(CutAddress(raws[k]));
      Adds(PlacesTo(raws, homeMode, dns, k), PlacesTo(raws, homeMode, dns, k + 1), Placed(homeMode, dns)(h), h, dns)
  {
    hide Lookup, Recievers, Hosts, HostsTo, SaysHome, Reaches, CutHost, CutAddress, Kept;
    var a := CutAddress(raws[k]);
    var h := CutHost(a);
    NamesCut(raws[k], a, h);
    assert Resolves(h, dns);
    HostsNext(raws, homeMode, k);
    var hosts := HostsTo(raws, homeMode, k);
    if Wanted(homeMode)(h) {
      LookupReaches(h, homeMode, dns);
      assert (hosts + [h])[..|hosts|] == hosts;
      assert PlacesTo(raws, homeMode, dns, k + 1) == PlacesTo(raws, homeMode, dns, k) + Kept(Lookup(h, homeMode, dns).value);
    } else {
      assert hosts + [] == hosts;
    }
  }

  lemma PlacesNone(raws: seq<string>, homeMode: bool, dns: Dns)
    requires AllTo(raws)
    ensures PlacesTo(raws, homeMode, dns, 0) == [] && Before(raws, Placed(homeMode, dns), 0) == 0
  {
    assert (set i: nat | i < 0 && Chosen(raws, Placed(homeMode, dns), i)) == {};
  }

  lemma {:induction false} PlacesCount(raws: seq<string>, homeMode: bool, dns: Dns, k: nat)
    requires AllTo(raws) && k <= |raws| && AllResolve(raws, dns)
    ensures |PlacesTo(raws, homeMode, dns, k)| == Before(raws, Placed(homeMode, dns), k)
  {
    hide AllResolve, PlacesTo, Reaches, Chosen, CutHost, CutAddress, Placed, ToLine, Before;
    if k == 0 {
      PlacesNone(raws, homeMode, dns);
    } else {
      PlacesCount(raws, homeMode, dns, k - 1);
      PlacesNextLine(raws, homeMode, dns, k - 1);
      BeforeNext(raws, Placed(homeMode, dns), k - 1);
      ChosenCut(raws, Placed(homeMode, dns), k - 1);
    }
  }

  lemma {:induction false} PlacesGrow(raws: seq<string>, homeMode: bool, dns: Dns, k: nat)
    requires AllTo(raws) && k <= |raws| && AllResolve(raws, dns)
    ensures PlacesTo(raws, homeMode, dns, k) <= PlacesTo(raws, homeMode, dns, |raws|)
    decreases |raws| - k
  {
    hide AllResolve, PlacesTo, Reaches, CutHost, CutAddress, Placed;
    if k < |raws| {
      PlacesNextLine(raws, homeMode, dns, k);
      PlacesGrow(raws, homeMode, dns, k + 1);
    }
  }

  /** Unless the DNS says "home", a wanted recipient has a place that reaches its host. */
  lemma PlaceAt(raws: seq<string>, homeMode: bool, dns: Dns, k: nat, a: string, h: string)
    requires AllTo(raws) && AllResolve(raws, dns) && k < |raws| && Names(raws[k], a, h) && Placed(homeMode, dns)(h)
    ensures var i, places := Before(raws, Placed(homeMode, dns), k), PlacesTo(raws, homeMode, dns, |raws|);
      i < |places| && Reaches(h, dns, Some(places[i].address), places[i].port)
  {
    hide AllResolve, PlacesTo, Reaches, CutHost, CutAddress, Placed, Before, ToLine, Names;
    NamesCut(raws[k], a, h);
    PlacesCount(raws, homeMode, dns, k);
    PlacesNextLine(raws, homeMode, dns, k);
    PlacesGrow(raws, homeMode, dns, k + 1);
  }

  lemma {:induction false} RecieverFrom(raws: seq<string>, homeMode: bool, i: nat) returns (k: nat)
    requires AllTo(raws) && i < |Recievers(raws, homeMode)|
    ensures k < |raws| && Recievers(raws, homeMode)[i] == CutAddress(raws[k]) && Wanted(homeMode)(CutHost(CutAddress(raws[k])))
  {
    var r := raws[..|raws| - 1];
    if i < |Recievers(r, homeMode)| {
      k := RecieverFrom(r, homeMode, i);
    } else {
      k := |r|;
    }
  }

  lemma FoundResolves(raws: seq<string>, homeMode: bool, dns: Dns, k: nat, a: string, h: string)
    requires AllTo(raws) && AllFound(Hosts(Recievers(raws, homeMode)), homeMode, dns)
    requires k < |raws| && Names(raws[k], a, h)
    ensures Resolves(h, dns)
  {
    hide AllTo, Names, ToLine, CutAddress, Before, Recievers;
    if Wanted(homeMode)(h) {
      RecieverAt(raws, homeMode, k, a, h);
      NamesCut(raws[k], a, h);
      var i := Before(raws, Wanted(homeMode), k);
      assert Lookup(Hosts(Recievers(raws, homeMode))[i], homeMode, dns).Some?;
    }
  }

  lemma ResolvesFound(raws: seq<string>, homeMode: bool, dns: Dns, i: nat)
    requires AllTo(raws) && AllResolve(raws, dns) && i < |Recievers(raws, homeMode)|
    ensures Lookup(Hosts(Recievers(raws, homeMode))[i], homeMode, dns).Some?
  {
    hide Names, ToLine, CutAddress, Recievers;
    var k := RecieverFrom(raws, homeMode, i);
    var a := Recievers(raws, homeMode)[i];
    NamesCut(raws[k], a, CutHost(a));
  }

  /** All lookups succeed exactly if both queries do for each line outside the home domain. */
  lemma FoundIff(raws: seq<string>, homeMode: bool, dns: Dns)
    requires AllTo(raws)
    ensures AllFound(Hosts(Recievers(raws, homeMode)), homeMode, dns) <==> AllResolve(raws, dns)
  {
    hide AllTo, Names, Recievers, Lookup, Resolves;
    if AllFound(Hosts(Recievers(raws, homeMode)), homeMode, dns) {
      forall k, a, h | 0 <= k < |raws| && Names(raws[k], a, h)
        ensures Resolves(h, dns)
      {
        FoundResolves(raws, homeMode, dns, k, a, h);
      }
    }
    if AllResolve(raws, dns) {
      forall i | 0 <= i < |Hosts(Recievers(raws, homeMode))|
        ensures Lookup(Hosts(Recievers(raws, homeMode))[i], homeMode, dns).Some?
      {
        ResolvesFound(raws, homeMode, dns, i);
      }
    }
  }

  /** Without such an answer every wanted line has a place. */
  lemma PlacedWanted(raws: seq<string>, homeMode: bool, dns: Dns, k: nat)
    requires NoneSaysHome(raws, dns)
    ensures Before(raws, Placed(homeMode, dns), k) == Before(raws, Wanted(homeMode), k)
  {
    forall i: nat | i < k
      ensures Chosen(raws, Placed(homeMode, dns), i) == Chosen(raws, Wanted(homeMode), i)
    {
      if Chosen(raws, Wanted(homeMode), i) {
        var a, h :| Names(raws[i], a, h) && Wanted(homeMode)(h);
        assert Placed(homeMode, dns)(h);
      }
    }
    BeforeSame(raws, Placed(homeMode, dns), Wanted(homeMode), k);
  }

  // ---------- a parsed mail ----------

  /** Slot `i` of the mail has this recipient, and slot `j` a host and a port that reach the recipient's host. */
  ghost predicate Slots(m: Mail, i: nat, a: string, j: nat, h: string, dns: Dns) {
    && i < m.tosCount && i < |m.recievers| && m.recievers[i] == Some(a)
    && (!SaysHome(h, dns) ==> j < |m.hosts| == |m.ports| && Reaches(h, dns, m.hosts[j], m.ports[j]))
  }

  /**
   * In a parsed mail the line that names `a` at `h` is wanted or left out. If it is wanted, its recipient
   * stands behind those of the wanted lines before it. The server of `h` stands in the same place, moved
   * up by the lines for which the DNS said "home".
   */
  lemma ParsedLine(m: Mail, lines: seq<string>, raws: seq<string>, homeMode: bool, dns: Dns, k: nat, a: string, h: string)
    requires Header(lines, raws) && Parsed(m, lines, raws, homeMode, dns) && AllResolve(raws, dns)
    requires k < |raws| && Names(raws[k], a, h) && Wanted(homeMode)(h)
    ensures Slots(m, Before(raws, Wanted(homeMode), k), a, Before(raws, Placed(homeMode, dns), k), h, dns)
  {
    RecieverAt(raws, homeMode, k, a, h);
    assert raws[..|raws|] == raws;
    if !SaysHome(h, dns) {
      PlaceAt(raws, homeMode, dns, k, a, h);
    }
  }

  /** All its recipients are from wanted lines. */
  lemma ParsedCount(m: Mail, lines: seq<string>, raws: seq<string>, homeMode: bool, dns: Dns)
    requires Header(lines, raws) && Parsed(m, lines, raws, homeMode, dns)
    ensures m.tosCount == Before(raws, Wanted(homeMode), |raws|)
  {
    RecieversCount(raws, homeMode, |raws|);
    assert raws[..|raws|] == raws;
  }

  // ---------- a batch of mail files ----------

  /** Of the connections for these X-TO lines, which begin at number `o`, there is one for each wanted line in file order. */
  ghost predicate Covers(cs: seq<Target>, o: nat, lines: seq<string>, raws: seq<string>, homeMode: bool, dns: Dns)
    requires Header(lines, raws)
  {
    forall k, to, h :: 0 <= k < |raws| && Names(raws[k], to, h) && Wanted(homeMode)(h) ==>
      Delivers(cs, o + Before(raws, Wanted(homeMode), k), lines, raws, to, h, dns)
  }

  /** This connection brings the letter to the recipient, and if the DNS does not say "home", to the server of its host. */
  ghost predicate Delivers(cs: seq<Target>, i: nat, lines: seq<string>, raws: seq<string>, to: string, h: string, dns: Dns)
    requires Header(lines, raws)
  {
    && i < |cs| && cs[i].to == Some(to) && cs[i].from == CutAddress(lines[0]) && cs[i].text == lines[|raws| + 2..]
    && (NoneSaysHome(raws, dns) ==> Reaches(h, dns, cs[i].host, cs[i].port))
  }

  lemma ConnectionDelivers(cs: seq<Target>, o: nat, m: Mail, lines: seq<string>, raws: seq<string>, homeMode: bool, dns: Dns,
                           k: nat, to: string, h: string)
    requires Header(lines, raws) && Parsed(m, lines, raws, homeMode, dns) && AllResolve(raws, dns)
    requires MadeFrom(cs, o, m, m.tosCount)
    requires k < |raws| && Names(raws[k], to, h) && Wanted(homeMode)(h)
    ensures Delivers(cs, o + Before(raws, Wanted(homeMode), k), lines, raws, to, h, dns)
  {
    hide AllResolve, Header, Recievers, Places, Hosts, Table, Before;
    var b := Before(raws, Wanted(homeMode), k);
    ParsedLine(m, lines, raws, homeMode, dns, k, to, h);
    assert Carries(cs[o + b], m, o + b - o);
    if NoneSaysHome(raws, dns) {
      PlacedWanted(raws, homeMode, dns, k);
    }
  }

  /** How many wanted recipients the first `a` files name. */
  ghost function Position(raws: seq<seq<string>>, homeMode: bool, a: nat): nat
    requires a <= |raws|
  {
    if a == 0 then 0 else Position(raws, homeMode, a - 1) + Before(raws[a - 1], Wanted(homeMode), |raws[a - 1]|)
  }

  /** The file can be read and is long enough, and every host that it names can be found. */
  ghost predicate Ready(file: Option<seq<string>>, raws: seq<string>, dns: Dns) {
    file.Some? && |file.value| >= 3 && AllResolve(raws, dns)
  }

  ghost predicate AllReady(files: seq<Option<seq<string>>>, raws: seq<seq<string>>, dns: Dns, n: nat)
    requires n <= |files| == |raws|
  {
    forall i :: 0 <= i < n ==> Ready(files[i], raws[i], dns)
  }

  /** The header of each file that is parsed is in order. */
  ghost predicate InOrder(files: seq<Option<seq<string>>>, raws: seq<seq<string>>, dns: Dns) {
    && |raws| == |files|
    && forall i :: 0 <= i < |files| && AllReady(files, raws, dns, i) && files[i].Some? && |files[i].value| >= 3 ==> Header(files[i].value, raws[i])
  }

  /** The mail was made from this file. */
  ghost predicate MadeOf(m: Mail, file: Option<seq<string>>, raws: seq<string>, homeMode: bool, dns: Dns) {
    && Ready(file, raws, dns) && Header(file.value, raws) && Parsed(m, file.value, raws, homeMode, dns)
  }

  ghost predicate AllMade(mails: seq<Mail>, files: seq<Option<seq<string>>>, raws: seq<seq<string>>, homeMode: bool, dns: Dns) {
    |mails| <= |files| == |raws| && forall i :: 0 <= i < |mails| ==> MadeOf(mails[i], files[i], raws[i], homeMode, dns)
  }

  lemma {:induction false} OffsetPosition(mails: seq<Mail>, files: seq<Option<seq<string>>>, raws: seq<seq<string>>, homeMode: bool, dns: Dns, a: nat)
    requires AllMade(mails, files, raws, homeMode, dns) && a <= |mails|
    ensures Offset(mails, a) == Position(raws, homeMode, a)
  {
    hide Header, Parsed, AllResolve, Before;
    if a > 0 {
      OffsetPosition(mails, files, raws, homeMode, dns, a - 1);
      ParsedCount(mails[a - 1], files[a - 1].value, raws[a - 1], homeMode, dns);
    }
  }

  /** The connections are those of the mails, and the mails those of the files. */
  lemma FilesServed(cs: seq<Target>, mails: seq<Mail>, files: seq<Option<seq<string>>>, raws: seq<seq<string>>, homeMode: bool, dns: Dns, a: nat)
    requires AllMade(mails, files, raws, homeMode, dns) && MadeFor(cs, mails, |mails|) && a < |mails|
    ensures Header(files[a].value, raws[a]) && Covers(cs, Position(raws, homeMode, a), files[a].value, raws[a], homeMode, dns)
  {
    hide Names, Header, Parsed, AllResolve, Before, Delivers;
    OffsetPosition(mails, files, raws, homeMode, dns, a);
    var lines, rs, o := files[a].value, raws[a], Position(raws, homeMode, a);
    forall k, to, h | 0 <= k < |rs| && Names(rs[k], to, h) && Wanted(homeMode)(h)
      ensures Delivers(cs, o + Before(rs, Wanted(homeMode), k), lines, rs, to, h, dns)
    {
      ConnectionDelivers(cs, o, mails[a], lines, rs, homeMode, dns, k, to, h);
    }
  }

  lemma MadeUsable(mails: seq<Mail>, files: seq<Option<seq<string>>>, raws: seq<seq<string>>, homeMode: bool, dns: Dns)
    requires AllMade(mails, files, raws, homeMode, dns)
    ensures AllUsable(mails)
  {
    hide Header, AllResolve, Places, Hosts, Recievers;
  }

  // the body of the loop below
  method ProcessFile(file: Option<seq<string>>, homeMode: bool, dns: Dns, ghost raws: seq<string>) returns (mail: Option<Mail>)
    requires file.Some? && |file.value| >= 3 ==> Header(file.value, raws)
    ensures mail.Some? <==> Ready(file, raws, dns)
    ensures mail.Some? ==> MadeOf(mail.value, file, raws, homeMode, dns)
  {
    hide Parsed, AllResolve, AllFound, Recievers, Hosts, AllTo;
    if file.None? {
      return None;
    }
    mail := ParseMail(file.value, homeMode, dns, raws);
    if |file.value| >= 3 {
      FoundIff(raws, homeMode, dns);
    }
  }

  /**
   * process_mail_files up to where the connections are started: it gives up at the first file that is not
   * ready, and else makes the connections for all of them.
   */
  method ProcessMailFiles(files: seq<Option<seq<string>>>, homeMode: bool, dns: Dns, ghost raws: seq<seq<string>>)
    returns (connections: array?<Target>)
    requires InOrder(files, raws, dns)
    ensures connections != null <==> AllReady(files, raws, dns, |files|)
    ensures connections != null ==> fresh(connections) && connections.Length == Position(raws, homeMode, |files|)
    ensures connections != null ==> forall a :: 0 <= a < |files| ==>
      Covers(connections[..], Position(raws, homeMode, a), files[a].value, raws[a], homeMode, dns)
  {
    hide Header, Parsed, AllResolve, Covers, Position, Offset, MadeFor, AllUsable;
    var mails := [];
    for i := 0 to |files|
      invariant |mails| == i && AllMade(mails, files, raws, homeMode, dns)
    {
      var mail := ProcessFile(files[i], homeMode, dns, raws[i]);
      if mail.None? {
        return null;
      }
      mails := mails + [mail.value];
    }
    MadeUsable(mails, files, raws, homeMode, dns);
    var count := CountMailsConnections(mails);
    connections := InitConnections(mails, count);
    OffsetPosition(mails, files, raws, homeMode, dns, |files|);
    forall a | 0 <= a < |files|
      ensures Covers(connections[..], Position(raws, homeMode, a), files[a].value, raws[a], homeMode, dns)
    {
      FilesServed(connections[..], mails, files, raws, homeMode, dns, a);
    }
  }
}
