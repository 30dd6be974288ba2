/** The DNS block-list gate of `Handler.is_ip_on_dns_blocked_list`: which
    addresses it checks, the names it queries, in which order, and when it
    stops. Name resolution is an input `resolves(qname)`. */
module Dnsbl {
  import opened PyStr

  // ---------------------------------------------------------------------
  // Addresses

  /** One part of a dotted quad as `ipaddress` accepts it: one to three
      ASCII digits, no leading zero, at most 255. */
  predicate IsOctet(s: string) {
    && s != [] && |s| <= 3 && AllDigits(s)
    && (s[0] == '0' ==> s == "0")
    && DecimalValue(s) <= 255
  }

  /** `ipaddress.ip_address(s)` succeeds with version 4. Every other text,
      whether an IPv6 address or not an address at all, is not checked. */
  predicate IsIPv4(s: string) {
    var parts := Split(s, '.');
    |parts| == 4 && forall k | 0 <= k < 4 :: IsOctet(parts[k])
  }

  /** `'.'.join(reversed(ipaddr.split('.')))`. */
  function ReverseName(ip: string): string {
    Join(Reverse(Split(ip, '.')), '.')
  }

  /** The name queried for one zone, `f'{rip}.{zone}'`, where `rip` is the
      reversed address. */
  function ZoneName(rip: string, zone: string): string {
    rip + "." + zone
  }

  /** The name queried for address `ip` in one zone. */
  function QueryName(ip: string, zone: string): string {
    ZoneName(ReverseName(ip), zone)
  }

  lemma {:induction false} ReverseReverse<T>(s: seq<T>)
    ensures Reverse(Reverse(s)) == s
  {
  }

  /** Reversing the parts twice gives the address back. */
  lemma ReverseNameInvolution(ip: string)
    ensures ReverseName(ReverseName(ip)) == ip
  {
    var parts := Split(ip, '.');
    SplitPartsFree(ip, '.');
    var rev := Reverse(parts);
    assert forall k | 0 <= k < |rev| :: '.' !in rev[k] by {
      forall k | 0 <= k < |rev| ensures '.' !in rev[k] {
        assert rev[k] == parts[|parts| - 1 - k];
      }
    }
    SplitJoin(rev, '.');
    ReverseReverse(parts);
    JoinSplit(ip, '.');
  }

  // ---------------------------------------------------------------------
  // Zones

  /** `list(filter(None, zones))`: the zones that are not empty, in order. */
  function NonEmptyZones(zones: seq<string>): (r: seq<string>)
    ensures |r| <= |zones|
    ensures forall k | 0 <= k < |r| :: r[k] != []
    ensures forall z :: z in r <==> z in zones && z != []
  {
    if zones == [] then []
    else if zones[0] == [] then NonEmptyZones(zones[1..])
    else [zones[0]] + NonEmptyZones(zones[1..])
  }

  /** The filter keeps the order: it works piece by piece. */
  lemma {:induction false} NonEmptyZonesAppend(a: seq<string>, b: seq<string>)
    ensures NonEmptyZones(a + b) == NonEmptyZones(a) + NonEmptyZones(b)
  {
    if a != [] {
      assert (a + b)[1..] == a[1..] + b;
      NonEmptyZonesAppend(a[1..], b);
    } else {
      assert a + b == b;
    }
  }

  /** Filtering twice is filtering once; a list without empty zones is kept. */
  lemma {:induction false} NonEmptyZonesKeeps(zones: seq<string>)
    requires forall k | 0 <= k < |zones| :: zones[k] != []
    ensures NonEmptyZones(zones) == zones
  {
    if zones != [] {
      NonEmptyZonesKeeps(zones[1..]);
    }
  }

  // ---------------------------------------------------------------------
  // The gate, as specified

  /** Some zone from index `i` on lists the address. */
  predicate ListedFrom(rip: string, zones: seq<string>, i: nat, resolves: string -> bool) {
    exists k | i <= k < |zones| :: resolves(ZoneName(rip, zones[k]))
  }

  /** Some configured zone lists the address. */
  predicate Listed(ip: string, zones: seq<string>, resolves: string -> bool) {
    IsIPv4(ip) && ListedFrom(ReverseName(ip), zones, 0, resolves)
  }

  /** The names queried from zone `i` on: each in turn, stopping after the
      first that resolves. */
  function QueriesFrom(rip: string, zones: seq<string>, i: nat, resolves: string -> bool): seq<string>
    requires i <= |zones|
    decreases |zones| - i
  {
    if i == |zones| then []
    else
      var q := ZoneName(rip, zones[i]);
      [q] + (if resolves(q) then [] else QueriesFrom(rip, zones, i + 1, resolves))
  }

  /** The names the gate queries: none for an address that is not IPv4. */
  function Lookups(ip: string, zones: seq<string>, resolves: string -> bool): seq<string> {
    if IsIPv4(ip) then QueriesFrom(ReverseName(ip), zones, 0, resolves) else []
  }

  lemma {:induction false} ListedFromStep(rip: string, zones: seq<string>, i: nat, resolves: string -> bool)
    requires i < |zones|
    ensures ListedFrom(rip, zones, i, resolves) <==>
      resolves(ZoneName(rip, zones[i])) || ListedFrom(rip, zones, i + 1, resolves)
  {
    if ListedFrom(rip, zones, i, resolves) && !resolves(ZoneName(rip, zones[i])) {
      var k :| i <= k < |zones| && resolves(ZoneName(rip, zones[k]));
      assert i + 1 <= k;
    }
  }

  /** The queries from zone `i` on: zone `i`'s name, then, when it
      missed, the queries from the next zone. */
  lemma {:induction false} QueriesFromStep(rip: string, zones: seq<string>, i: nat, resolves: string -> bool, prefix: seq<string>)
    requires i < |zones|
    ensures var q := ZoneName(rip, zones[i]);
      && (resolves(q) ==> prefix + QueriesFrom(rip, zones, i, resolves) == prefix + [q])
      && (!resolves(q) ==> prefix + QueriesFrom(rip, zones, i, resolves)
                           == (prefix + [q]) + QueriesFrom(rip, zones, i + 1, resolves))
  {
    var q := ZoneName(rip, zones[i]);
    if !resolves(q) {
      assert prefix + ([q] + QueriesFrom(rip, zones, i + 1, resolves))
        == (prefix + [q]) + QueriesFrom(rip, zones, i + 1, resolves);
    } else {
      assert [q] + [] == [q];
    }
  }

  /** The queries from zone `i` on are the names of consecutive zones. */
  lemma {:induction false} QueriesFromNames(rip: string, zones: seq<string>, i: nat, resolves: string -> bool)
    requires i <= |zones|
    ensures NamesFrom(rip, zones, i, QueriesFrom(rip, zones, i, resolves))
    decreases |zones| - i
  {
    if i < |zones| {
      QueriesFromNames(rip, zones, i + 1, resolves);
      NamesStep(rip, zones, i, resolves);
    }
  }

  lemma {:induction false} NamesStep(rip: string, zones: seq<string>, i: nat, resolves: string -> bool)
    requires i < |zones|
    requires NamesFrom(rip, zones, i + 1, QueriesFrom(rip, zones, i + 1, resolves))
    ensures NamesFrom(rip, zones, i, QueriesFrom(rip, zones, i, resolves))
  {
    QueriesFromStep(rip, zones, i, resolves, []);
    var qs := QueriesFrom(rip, zones, i, resolves);
    assert [] + qs == qs;
    NamesCons(rip, zones, i, ZoneName(rip, zones[i]), QueriesFrom(rip, zones, i + 1, resolves),
      qs, resolves(ZoneName(rip, zones[i])));
  }

  /** `qs` are the names of the zones from `i` on, one per zone, in order. */
  predicate NamesFrom(rip: string, zones: seq<string>, i: nat, qs: seq<string>) {
    && |qs| <= |zones| - i
    && forall k | 0 <= k < |qs| :: qs[k] == ZoneName(rip, zones[i + k])
  }

  /** The name of zone `i` in front of the names of the zones after it. */
  lemma {:induction false} NamesCons(rip: string, zones: seq<string>, i: nat, q: string, rest: seq<string>,
                                     qs: seq<string>, hit: bool)
    requires i < |zones| && q == ZoneName(rip, zones[i]) && NamesFrom(rip, zones, i + 1, rest)
    requires hit ==> qs == [] + [q]
    requires !hit ==> qs == ([] + [q]) + rest
    ensures NamesFrom(rip, zones, i, qs)
  {
    assert [] + [q] == [q];
    if hit {
      assert NamesFrom(rip, zones, i + 1, []);
      NamesConsRest(rip, zones, i, q, []);
    } else {
      NamesConsRest(rip, zones, i, q, rest);
    }
  }

  lemma {:induction false} NamesConsRest(rip: string, zones: seq<string>, i: nat, q: string, rest: seq<string>)
    requires i < |zones| && q == ZoneName(rip, zones[i]) && NamesFrom(rip, zones, i + 1, rest)
    ensures NamesFrom(rip, zones, i, [q] + rest)
  {
    forall k | 0 < k < |[q] + rest| ensures ([q] + rest)[k] == ZoneName(rip, zones[i + k]) {
      assert ([q] + rest)[k] == rest[k - 1];
      assert i + 1 + (k - 1) == i + k;
    }
  }

  /** Every name but the last misses. */
  predicate MissesBeforeLast(qs: seq<string>, resolves: string -> bool) {
    forall k | 0 <= k < |qs| - 1 :: !resolves(qs[k])
  }

  /** All queries but the last miss. */
  lemma {:induction false} QueriesFromMisses(rip: string, zones: seq<string>, i: nat, resolves: string -> bool)
    requires i <= |zones|
    ensures MissesBeforeLast(QueriesFrom(rip, zones, i, resolves), resolves)
    decreases |zones| - i
  {
    if i < |zones| {
      var q := ZoneName(rip, zones[i]);
      if !resolves(q) {
        QueriesFromMisses(rip, zones, i + 1, resolves);
        var rest := QueriesFrom(rip, zones, i + 1, resolves);
        var qs := [q] + rest;
        assert QueriesFrom(rip, zones, i, resolves) == qs;
        forall k | 0 <= k < |qs| - 1 ensures !resolves(qs[k]) {
          if k > 0 {
            assert qs[k] == rest[k - 1];
          }
        }
      }
    }
  }

  /** The queries from zone `i` on end with a name that resolves exactly
      when some zone there lists the address, and cover every zone there
      otherwise. */
  lemma {:induction false} QueriesFromStops(rip: string, zones: seq<string>, i: nat, resolves: string -> bool)
    requires i <= |zones|
    ensures StopsAtListing(rip, zones, i, resolves, QueriesFrom(rip, zones, i, resolves))
    decreases |zones| - i
  {
    if i < |zones| {
      QueriesFromStops(rip, zones, i + 1, resolves);
      StopsStep(rip, zones, i, resolves);
    }
  }

  /** `qs` ends with a name that resolves exactly when some zone from `i`
      on lists the address, and has one name per zone from `i` on otherwise. */
  predicate StopsAtListing(rip: string, zones: seq<string>, i: nat, resolves: string -> bool, qs: seq<string>) {
    && (ListedFrom(rip, zones, i, resolves) <==> qs != [] && resolves(qs[|qs| - 1]))
    && (!ListedFrom(rip, zones, i, resolves) ==> |qs| == |zones| - i)
  }

  lemma {:induction false} StopsStep(rip: string, zones: seq<string>, i: nat, resolves: string -> bool)
    requires i < |zones|
    requires StopsAtListing(rip, zones, i + 1, resolves, QueriesFrom(rip, zones, i + 1, resolves))
    ensures StopsAtListing(rip, zones, i, resolves, QueriesFrom(rip, zones, i, resolves))
  {
    ListedFromStep(rip, zones, i, resolves);
    QueriesFromStep(rip, zones, i, resolves, []);
    var qs := QueriesFrom(rip, zones, i, resolves);
    assert [] + qs == qs;
    StopsCons(ZoneName(rip, zones[i]), QueriesFrom(rip, zones, i + 1, resolves), qs, resolves,
      ListedFrom(rip, zones, i + 1, resolves), ListedFrom(rip, zones, i, resolves), |zones| - i);
  }

  /** One step of `StopsAtListing`, with the zone walk abstracted away:
      `qs` is `q` alone when `q` resolves and `q` before `rest` otherwise. */
  lemma StopsCons(q: string, rest: seq<string>, qs: seq<string>, resolves: string -> bool,
                  listedNext: bool, listedHere: bool, n: nat)
    requires listedHere <==> resolves(q) || listedNext
    requires resolves(q) ==> qs == [] + [q]
    requires !resolves(q) ==> qs == ([] + [q]) + rest
    requires listedNext <==> rest != [] && resolves(rest[|rest| - 1])
    requires !listedNext ==> |rest| == n - 1
    ensures listedHere <==> qs != [] && resolves(qs[|qs| - 1])
    ensures !listedHere ==> |qs| == n
  {
    assert [] + [q] == [q];
    if !resolves(q) {
      LastOfCons(q, rest);
    }
  }

  /** Putting a name in front keeps the last name and adds one to the length. */
  lemma {:induction false} LastOfCons(q: string, rest: seq<string>)
    ensures |[q] + rest| == |rest| + 1
    ensures rest != [] ==> ([q] + rest)[|[q] + rest| - 1] == rest[|rest| - 1]
  {
  }

  /** The gate queries the configured zones in order, with the name
      `<reversed octets>.<zone>`, stops right after the first name that
      resolves, and queries every zone when none does. An address that is
      not IPv4 is never looked up. */
  lemma LookupsOrder(ip: string, zones: seq<string>, resolves: string -> bool)
    ensures var qs := Lookups(ip, zones, resolves);
      && |qs| <= |zones|
      && (forall k | 0 <= k < |qs| :: qs[k] == QueryName(ip, zones[k]))
      && MissesBeforeLast(qs, resolves)
      && (Listed(ip, zones, resolves) <==> qs != [] && resolves(qs[|qs| - 1]))
      && (IsIPv4(ip) && !Listed(ip, zones, resolves) ==> |qs| == |zones|)
      && (!IsIPv4(ip) ==> qs == [])
  {
    var rip := ReverseName(ip);
    QueriesFromNames(rip, zones, 0, resolves);
    assert NamesFrom(rip, zones, 0, QueriesFrom(rip, zones, 0, resolves));
    QueriesFromMisses(rip, zones, 0, resolves);
    QueriesFromStops(rip, zones, 0, resolves);
    assert StopsAtListing(rip, zones, 0, resolves, QueriesFrom(rip, zones, 0, resolves));
  }

  /** With no zones nothing is queried and nothing is listed. */
  lemma NoZonesNoLookups(ip: string, resolves: string -> bool)
    ensures Lookups(ip, [], resolves) == [] && !Listed(ip, [], resolves)
  {
  }

  // ---------------------------------------------------------------------
  // The gate, as written

  /** What the loop of handler.py:247-254 does: `socket.gethostbyname(qname)`
      runs first and its result, a string, is handed to `asyncio.to_thread`,
      which calls it and raises `TypeError`. A zone that misses raises
      `socket.gaierror` and the loop goes on; a zone that resolves therefore
      raises `TypeError` out of the method instead of returning `True`. */
  datatype GateOutcome = NotBlocked | RaisesTypeError

  function GateAsWrittenFrom(rip: string, zones: seq<string>, i: nat, resolves: string -> bool): GateOutcome
    requires i <= |zones|
    decreases |zones| - i
  {
    if i == |zones| then NotBlocked
    else if resolves(ZoneName(rip, zones[i])) then RaisesTypeError
    else GateAsWrittenFrom(rip, zones, i + 1, resolves)
  }

  function GateAsWritten(ip: string, zones: seq<string>, resolves: string -> bool): GateOutcome {
    if IsIPv4(ip) then GateAsWrittenFrom(ReverseName(ip), zones, 0, resolves) else NotBlocked
  }

  lemma {:induction false} GateAsWrittenFromRaises(rip: string, zones: seq<string>, i: nat, resolves: string -> bool)
    requires i <= |zones|
    ensures GateAsWrittenFrom(rip, zones, i, resolves) == RaisesTypeError
      <==> ListedFrom(rip, zones, i, resolves)
    decreases |zones| - i
  {
    if i < |zones| {
      GateAsWrittenFromRaises(rip, zones, i + 1, resolves);
      ListedFromStep(rip, zones, i, resolves);
    }
  }

  /** The loop as written never reports a block: exactly where a listed
      address should be refused it raises `TypeError`. */
  lemma GateAsWrittenNeverBlocks(ip: string, zones: seq<string>, resolves: string -> bool)
    ensures GateAsWritten(ip, zones, resolves) == RaisesTypeError <==> Listed(ip, zones, resolves)
    ensures GateAsWritten(ip, zones, resolves) == NotBlocked <==> !Listed(ip, zones, resolves)
  {
    if IsIPv4(ip) {
      GateAsWrittenFromRaises(ReverseName(ip), zones, 0, resolves);
    }
  }

  /** `a.b.c.d` joined from its four parts. */
  lemma JoinQuad(a: string, b: string, c: string, d: string)
    ensures Join([a, b, c, d], '.') == a + "." + b + "." + c + "." + d
  {
    var parts := [a, b, c, d];
    assert Join(parts[3..], '.') == d;
    assert Join(parts[2..], '.') == c + "." + d;
    assert Join(parts[1..], '.') == b + "." + c + "." + d;
  }

  /** The reversed name of `a.b.c.d` is `d.c.b.a`. */
  lemma ReverseNameOfQuad(a: string, b: string, c: string, d: string)
    requires '.' !in a && '.' !in b && '.' !in c && '.' !in d
    ensures ReverseName(a + "." + b + "." + c + "." + d) == d + "." + c + "." + b + "." + a
  {
    JoinQuad(a, b, c, d);
    SplitJoin([a, b, c, d], '.');
    assert Reverse([a, b, c, d]) == [d, c, b, a];
    JoinQuad(d, c, b, a);
  }

  /** Four octets joined by `.` are an IPv4 address. */
  lemma QuadIsIPv4(a: string, b: string, c: string, d: string)
    requires IsOctet(a) && IsOctet(b) && IsOctet(c) && IsOctet(d)
    requires '.' !in a && '.' !in b && '.' !in c && '.' !in d
    ensures IsIPv4(a + "." + b + "." + c + "." + d)
  {
    JoinQuad(a, b, c, d);
    SplitJoin([a, b, c, d], '.');
  }

  lemma ExampleQuad(ip: string)
    requires ip == "10.0.0.1"
    ensures IsIPv4(ip) && ReverseName(ip) == "1.0.0.10"
  {
    assert ip == "10" + "." + "0" + "." + "0" + "." + "1";
    assert IsOctet("10") by { assert DecimalValue("10") == 10; }
    ReverseNameOfQuad("10", "0", "0", "1");
    QuadIsIPv4("10", "0", "0", "1");
  }

  /** `10.0.0.1` listed by the one zone `bl.example.test` raises instead of
      being refused. */
  lemma GateAsWrittenExample(ip: string, zones: seq<string>, resolves: string -> bool)
    requires ip == "10.0.0.1" && zones == ["bl.example.test"]
    requires resolves("1.0.0.10.bl.example.test")
    ensures Listed(ip, zones, resolves)
    ensures GateAsWritten(ip, zones, resolves) == RaisesTypeError
  {
    ExampleQuad(ip);
    assert QueryName(ip, zones[0]) == "1.0.0.10.bl.example.test";
    assert ListedFrom(ReverseName(ip), zones, 0, resolves);
    GateAsWrittenNeverBlocks(ip, zones, resolves);
  }
}
