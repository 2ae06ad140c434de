/** Whose address a request is charged to: the forwarded-header scan behind trusted proxies
    (crates/peryx-driver/src/rate_limit.rs). */
module Forwarded {
  import opened Common

  /** One forwarded hop: an address, or something that is not one. */
  datatype Hop = Malformed | Address(ip: nat)

  /** Address syntax and proxy trust, as the limiter sees them: parsing trims and canonicalizes. */
  datatype Net = Net(parse: string -> Option<nat>, trusts: nat -> bool)

  function HopOf(net: Net, part: string): Hop {
    if net.parse(part).Some? then Address(net.parse(part).value) else Malformed
  }

  function HopsOf(net: Net, parts: seq<string>): seq<Hop> {
    if parts == [] then [] else [HopOf(net, parts[0])] + HopsOf(net, parts[1..])
  }

  /** The hops of all header values in order; a value that is not text is one malformed hop. */
  function Hops(net: Net, values: seq<Option<string>>): seq<Hop> {
    if values == [] then [] else ValueHops(net, values[0]) + Hops(net, values[1..])
  }

  function ValueHops(net: Net, value: Option<string>): seq<Hop> {
    if value.None? then [Malformed] else HopsOf(net, Split(value.value, ','))
  }

  /** The rule: from the right, skip trusted addresses; the first untrusted one is the client; a malformed hop or the end
      of the list, met first, names nobody. */
  function RightToLeft(net: Net, hops: seq<Hop>): Option<nat>
    decreases |hops|
  {
    if hops == [] then None
    else
      match hops[|hops| - 1]
      case Malformed => None
      case Address(ip) => if net.trusts(ip) then RightToLeft(net, hops[..|hops| - 1]) else Some(ip)
  }

  /** The scan's two variables after some hops. */
  datatype Scan = Scan(client: Option<nat>, suffixMalformed: bool)

  function Feed(net: Net, s: Scan, hop: Hop): Scan {
    match hop
    case Malformed => Scan(None, true)
    case Address(ip) => if net.trusts(ip) then s else Scan(Some(ip), false)
  }

  function Yield(s: Scan): Option<nat> { if s.suffixMalformed then None else s.client }

  /** The scan is at the point the rule would have reached reading these hops from the right. */
  ghost predicate Reads(net: Net, s: Scan, hops: seq<Hop>) {
    Yield(s) == RightToLeft(net, hops) && (s.suffixMalformed ==> s.client.None?)
  }

  lemma FeedReads(net: Net, s: Scan, hops: seq<Hop>, hop: Hop)
    requires Reads(net, s, hops)
    ensures Reads(net, Feed(net, s, hop), hops + [hop])
  {
    assert (hops + [hop])[..|hops|] == hops;
  }

  /** The left-to-right pass over every header value. */
  method ScanForwarded(net: Net, values: seq<Option<string>>) returns (client: Option<nat>)
    ensures client == RightToLeft(net, Hops(net, values))
  {
    var s := Scan(None, false);
    for n := 0 to |values|
      invariant Reads(net, s, Hops(net, values[..n]))
    {
      HopsGrow(net, values, n);
      s := ScanOne(net, s, Hops(net, values[..n]), values[n]);
    }
    assert values[..|values|] == values;
    client := if s.suffixMalformed then None else s.client;
  }

  lemma HopsGrow(net: Net, values: seq<Option<string>>, n: nat)
    requires n < |values|
    ensures Hops(net, values[..n + 1]) == Hops(net, values[..n]) + ValueHops(net, values[n])
  {
    assert values[..n + 1] == values[..n] + [values[n]];
    HopsConcat(net, values[..n], [values[n]]);
  }

  lemma {:induction false} HopsConcat(net: Net, a: seq<Option<string>>, b: seq<Option<string>>)
    ensures Hops(net, a + b) == Hops(net, a) + Hops(net, b)
    decreases |a|
  {
    if a == [] {
      assert a + b == b;
    } else {
      var first, rest := a[0], a[1..];
      assert a == [first] + rest && a + b == [first] + (rest + b);
      HopsConcat(net, rest, b);
    }
  }

  method ScanOne(net: Net, start: Scan, ghost seen: seq<Hop>, value: Option<string>) returns (s: Scan)
    requires Reads(net, start, seen)
    ensures Reads(net, s, seen + ValueHops(net, value))
  {
    if value.None? {
      FeedReads(net, start, seen, Malformed);
      s := Scan(None, true);
    } else {
      s := ScanValue(net, start, seen, Split(value.value, ','));
    }
  }

  /** The inner loop over one value's comma-separated parts. */
  method ScanValue(net: Net, start: Scan, ghost seen: seq<Hop>, parts: seq<string>) returns (s: Scan)
    requires Reads(net, start, seen)
    ensures Reads(net, s, seen + HopsOf(net, parts))
  {
    s := start;
    ghost var hops := seen;
    assert parts[0..] == parts;
    for n := 0 to |parts|
      invariant Reads(net, s, hops)
      invariant hops + HopsOf(net, parts[n..]) == seen + HopsOf(net, parts)
    {
      assert parts[n..][0] == parts[n] && parts[n..][1..] == parts[n + 1..];
      ghost var hop, rest := HopOf(net, parts[n]), HopsOf(net, parts[n + 1..]);
      FeedReads(net, s, hops, hop);
      assert hops + ([hop] + rest) == hops + [hop] + rest;
      hops := hops + [hop];
      var address := net.parse(parts[n]);
      if address.None? {
        s := Scan(None, true);
      } else if !net.trusts(address.value) {
        s := Scan(Some(address.value), false);
      }
    }
    assert hops == seen + HopsOf(net, parts);
  }

  /** One hop per comma-separated part: an address if the part parses as one, else malformed. */
  lemma {:induction false} HopsOfParts(net: Net, parts: seq<string>)
    ensures |HopsOf(net, parts)| == |parts|
    ensures forall i :: 0 <= i < |parts| ==>
      HopsOf(net, parts)[i] == match net.parse(parts[i]) case Some(ip) => Address(ip) case None => Malformed
    decreases |parts|
  {
    if parts != [] { HopsOfParts(net, parts[1..]); }
  }

  /** A header value written as parts between commas has those parts as its hops. */
  lemma ValueOfParts(net: Net, parts: seq<string>)
    requires |parts| >= 1 && FreeOf(parts, ',')
    ensures ValueHops(net, Some(Join(parts, ','))) == HopsOf(net, parts)
  {
    SplitOfJoin(parts, ',');
  }

  /** It does not matter how proxies spread the hops over header lines: two text values read as one, joined by a comma. */
  lemma LinesJoin(net: Net, before: seq<Option<string>>, a: string, b: string, after: seq<Option<string>>)
    ensures Hops(net, before + [Some(a), Some(b)] + after) == Hops(net, before + [Some(a + "," + b)] + after)
  {
    var two, one := [Some(a), Some(b)], [Some(a + "," + b)];
    TwoLines(net, a, b);
    HopsConcat(net, before + two, after);
    HopsConcat(net, before + one, after);
    HopsConcat(net, before, two);
    HopsConcat(net, before, one);
  }

  lemma TwoLines(net: Net, a: string, b: string)
    ensures Hops(net, [Some(a), Some(b)]) == Hops(net, [Some(a + "," + b)])
  {
    var x, y := Split(a, ','), Split(b, ',');
    assert Join(x + y, ',') == a + "," + b && FreeOf(x + y, ',') by {
      JoinOfSplit(a, ',');
      JoinOfSplit(b, ',');
      JoinAppend(x, y, ',');
    }
    ValueOfParts(net, x + y);
    HopsOfAppend(net, x, y);
    assert [Some(a), Some(b)] == [Some(a)] + [Some(b)];
    HopsConcat(net, [Some(a)], [Some(b)]);
  }

  lemma {:induction false} HopsOfAppend(net: Net, a: seq<string>, b: seq<string>)
    ensures HopsOf(net, a + b) == HopsOf(net, a) + HopsOf(net, b)
    decreases |a|
  {
    if a == [] {
      assert a + b == b;
    } else {
      HopsOfAppend(net, a[1..], b);
      assert (a + b)[1..] == a[1..] + b;
      assert [HopOf(net, a[0])] + (HopsOf(net, a[1..]) + HopsOf(net, b)) == HopsOf(net, a) + HopsOf(net, b);
    }
  }

  /** Nothing a client writes to the left of the hop its first trusted proxy appended can change the answer. */
  lemma {:induction false} ClientCannotForge(net: Net, claimed: seq<Hop>, peer: nat, proxies: seq<Hop>)
    requires !net.trusts(peer) && forall i :: 0 <= i < |proxies| ==> proxies[i].Address? && net.trusts(proxies[i].ip)
    ensures RightToLeft(net, claimed + [Address(peer)] + proxies) == Some(peer)
    decreases |proxies|
  {
    var hops := claimed + [Address(peer)] + proxies;
    if proxies == [] {
      assert hops[|hops| - 1] == Address(peer);
    } else {
      var n := |proxies| - 1;
      ClientCannotForge(net, claimed, peer, proxies[..n]);
      assert hops[..|hops| - 1] == claimed + [Address(peer)] + proxies[..n];
    }
  }

  /** What the headers say when no forwarded value is present: the single real-address value, if it is one. */
  function RealClient(net: Net, reals: seq<Option<string>>): Option<nat> {
    if |reals| != 1 || reals[0].None? then None else net.parse(reals[0].value)
  }

  /** The address a connection is charged to; an untrusted peer speaks only for itself. */
  method ClientIp(net: Net, peer: Option<nat>, values: seq<Option<string>>, reals: seq<Option<string>>) returns (ip: Option<nat>)
    ensures peer.None? ==> ip.None?
    ensures peer.Some? && !net.trusts(peer.value) ==> ip == peer
    ensures peer.Some? && net.trusts(peer.value) && values != [] ==>
      (var said := RightToLeft(net, Hops(net, values)); ip == if said.Some? then said else peer)
    ensures peer.Some? && net.trusts(peer.value) && values == [] ==>
      (forall text, address :: reals == [Some(text)] && net.parse(text) == Some(address) ==> ip == Some(address))
    ensures peer.Some? && net.trusts(peer.value) && values == [] ==>
      ip == peer || exists text :: reals == [Some(text)] && ip == net.parse(text)
  {
    if peer.None? { return None; }
    if !net.trusts(peer.value) { return peer; }
    var said;
    if values == [] {
      said := RealClient(net, reals);
    } else {
      said := ScanForwarded(net, values);
    }
    ip := if said.Some? then said else peer;
  }
}
