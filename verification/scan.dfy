/** Model of `randIP` and `PortScan.Hosts` in `v2/simulator/scan.go`. Random bytes and the random
  * permutation are inputs; addresses stay in byte form throughout. */
module Scan {
  import opened Wrappers

  type IP = seq<bv8>

  datatype IPNet = IPNet(ip: IP, mask: seq<bv8>) {
    /** IPv4 or IPv6 form, with a mask no longer than an address. */
    predicate WellFormed() {
      (|ip| == 4 || |ip| == 16) && |mask| <= 16
    }
  }

  const V4_IN_V6_PREFIX: seq<bv8> := [0, 0, 0, 0, 0, 0, 0, 0, 0, 0, 0xFF, 0xFF]

  function To16(ip: IP): (r: IP)
    requires |ip| == 4 || |ip| == 16
    ensures |r| == 16
  {
    if |ip| == 4 then V4_IN_V6_PREFIX + ip else ip
  }

  /** The network address, cut to the length of the mask. */
  function NetIP(network: IPNet): (r: IP)
    requires network.WellFormed()
    ensures |r| == |network.mask|
  {
    To16(network.ip)[16 - |network.mask|..]
  }

  // One byte at a time: the bits a mask selects, the bits it leaves to the host, and a byte
  // with its host bits drawn at random.

  function NetBits(b: bv8, m: bv8): bv8 {
    b & m
  }

  function HostBits(b: bv8, m: bv8): bv8 {
    b & !m
  }

  function Mix(random: bv8, m: bv8, net: bv8): bv8 {
    HostBits(random, m) | net
  }

  /** Host bits from the random bytes, all other bits from the network address. */
  function RandIPSpec(network: IPNet, random: seq<bv8>): (r: IP)
    requires network.WellFormed() && |random| == |network.mask|
    ensures |r| == |network.mask|
  {
    seq(|random|, i requires 0 <= i < |random| => Mix(random[i], network.mask[i], NetIP(network)[i]))
  }

  /** net.IP.Mask, for a mask as long as the address. */
  method Mask(ip: IP, mask: seq<bv8>) returns (out: array<bv8>)
    requires |ip| == |mask|
    ensures fresh(out) && out.Length == |ip|
    ensures forall k :: 0 <= k < |ip| ==> out[k] == ip[k] & mask[k]
  {
    out := new bv8[|ip|];
    for i := 0 to |ip|
      invariant forall k :: 0 <= k < i ==> out[k] == ip[k] & mask[k]
    {
      out[i] := ip[i] & mask[i];
    }
  }

  method RandIP(network: IPNet, random: seq<bv8>) returns (ip: IP)
    requires network.WellFormed() && |random| == |network.mask|
    ensures ip == RandIPSpec(network, random)
  {
    hide NetIP;
    var n := |network.mask|;
    var mask := new bv8[n];
    for i := 0 to n
      invariant forall k :: 0 <= k < i ==> mask[k] == !network.mask[k]
    {
      mask[i] := !network.mask[i];
    }
    var randIP := Mask(random, mask[..]);
    forall k | 0 <= k < n
      ensures randIP[k] == HostBits(random[k], network.mask[k])
    {
      assert mask[..][k] == mask[k];
    }
    hide HostBits;
    var netIP := NetIP(network);
    for i := 0 to n
      invariant forall k :: 0 <= k < i ==> randIP[k] == Mix(random[k], network.mask[k], netIP[k])
      invariant forall k :: i <= k < n ==> randIP[k] == HostBits(random[k], network.mask[k])
    {
      randIP[i] := randIP[i] | netIP[i];
    }
    ip := randIP[..];
  }

  /** IPNet.Contains, for an address as long as the mask. */
  predicate Contains(network: IPNet, ip: IP)
    requires network.WellFormed()
  {
    |ip| == |network.mask| &&
    forall i :: 0 <= i < |ip| ==> NetBits(ip[i], network.mask[i]) == NetBits(NetIP(network)[i], network.mask[i])
  }

  /** The network address has no bit set outside its mask. */
  predicate Canonical(network: IPNet)
    requires network.WellFormed()
  {
    forall i :: 0 <= i < |network.mask| ==> HostBits(NetIP(network)[i], network.mask[i]) == 0
  }

  lemma NetBitsTwice(n: bv8, m: bv8)
    ensures NetBits(NetBits(n, m), m) == NetBits(n, m)
  {
  }

  lemma MixDecides(r: bv8, s: bv8, m: bv8, n: bv8)
    requires HostBits(n, m) == 0
    ensures Mix(r, m, n) == Mix(s, m, n) <==> HostBits(r, m) == HostBits(s, m)
  {
    hide HostBits;
    MixHost(r, m, n);
    MixHost(s, m, n);
  }

  lemma MixHost(r: bv8, m: bv8, n: bv8)
    requires HostBits(n, m) == 0
    ensures HostBits(Mix(r, m, n), m) == HostBits(r, m)
  {
  }

  lemma MixStuck(r: bv8, m: bv8, n: bv8)
    requires HostBits(n, m) != 0
    ensures Mix(r, m, n) != NetBits(n, m)
  {
  }

  /** Canonical or not, an address drawn has the network's bits under the mask, and elsewhere the
    * random bits together with those the network has there. */
  lemma RandIPBits(network: IPNet, random: seq<bv8>, i: nat)
    requires network.WellFormed() && |random| == |network.mask| && i < |random|
    ensures var b, m, n := RandIPSpec(network, random)[i], network.mask[i], NetIP(network)[i];
            b & m == n & m && b & !m == (random[i] | n) & !m
  {
  }

  /** The 16-byte form of an IPv4 address makes the same network as its 4-byte form. */
  lemma FormIrrelevant(ip: IP, mask: seq<bv8>)
    requires |ip| == 4 && |mask| <= 16
    ensures NetIP(IPNet(ip, mask)) == NetIP(IPNet([0, 0, 0, 0, 0, 0, 0, 0, 0, 0, 0xFF, 0xFF] + ip, mask))
  {
  }

  /** Every address drawn lies in the network, canonical or not. */
  lemma RandIPInNetwork(network: IPNet, random: seq<bv8>)
    requires network.WellFormed() && |random| == |network.mask|
    ensures Contains(network, RandIPSpec(network, random))
  {
  }

  /** In a canonical network an address drawn with its own bytes as random input is itself. */
  lemma RandIPFixed(network: IPNet, ip: IP)
    requires network.WellFormed() && Canonical(network) && Contains(network, ip)
    ensures RandIPSpec(network, ip) == ip
  {
  }

  /** Some random input leads to this address. */
  ghost predicate Reachable(network: IPNet, ip: IP)
    requires network.WellFormed()
  {
    exists random: seq<bv8> :: |random| == |network.mask| && RandIPSpec(network, random) == ip
  }

  /** Every member of the network can be drawn exactly when the network is canonical. */
  lemma RandIPOnto(network: IPNet)
    requires network.WellFormed()
    ensures (forall ip: IP :: Contains(network, ip) ==> Reachable(network, ip)) <==> Canonical(network)
  {
    hide NetBits, HostBits, Mix, NetIP;
    if Canonical(network) {
      forall ip: IP | Contains(network, ip)
        ensures Reachable(network, ip)
      {
        RandIPFixed(network, ip);
      }
    } else {
      var k :| 0 <= k < |network.mask| && HostBits(NetIP(network)[k], network.mask[k]) != 0;
      UnreachableBase(network, k);
    }
  }

  /** A network address with its host bits cleared is a member that cannot be drawn. */
  lemma UnreachableBase(network: IPNet, k: nat)
    requires network.WellFormed() && k < |network.mask| && HostBits(NetIP(network)[k], network.mask[k]) != 0
    ensures exists ip: IP :: Contains(network, ip) && !Reachable(network, ip)
  {
    hide NetBits, HostBits, Mix, NetIP;
    var n := |network.mask|;
    var base := seq(n, i requires 0 <= i < n => NetBits(NetIP(network)[i], network.mask[i]));
    forall i | 0 <= i < n
      ensures NetBits(base[i], network.mask[i]) == NetBits(NetIP(network)[i], network.mask[i])
    {
      NetBitsTwice(NetIP(network)[i], network.mask[i]);
    }
    forall random: seq<bv8> | |random| == n
      ensures RandIPSpec(network, random) != base
    {
      MixStuck(random[k], network.mask[k], NetIP(network)[k]);
      assert RandIPSpec(network, random)[k] != base[k];
    }
    assert Contains(network, base) && !Reachable(network, base);
  }

  /** In a canonical network the host bits of the random input determine the address. */
  lemma RandIPByHostBits(network: IPNet, r: seq<bv8>, s: seq<bv8>)
    requires network.WellFormed() && Canonical(network) && |r| == |s| == |network.mask|
    ensures RandIPSpec(network, r) == RandIPSpec(network, s) <==>
              forall i :: 0 <= i < |r| ==> HostBits(r[i], network.mask[i]) == HostBits(s[i], network.mask[i])
  {
    hide NetBits, HostBits, Mix, NetIP;
    forall i | 0 <= i < |r|
      ensures RandIPSpec(network, r)[i] == RandIPSpec(network, s)[i] <==>
                HostBits(r[i], network.mask[i]) == HostBits(s[i], network.mask[i])
    {
      MixDecides(r[i], s[i], network.mask[i], NetIP(network)[i]);
    }
  }

  // ---------------------------------------------------------------------------
  // Host selection.

  const NUM_RANGES: nat := 3

  /** The first three bytes of TEST-NET-1, 2 and 3 (RFC 5737). */
  function Prefix(r: nat): (p: IP)
    requires r < NUM_RANGES
    ensures |p| == 3
  {
    if r == 0 then [192, 0, 2] else if r == 1 then [198, 51, 100] else [203, 0, 113]
  }

  /** net.IPv4 yields the 16-byte form; the mask is /24 in the 4-byte form. */
  function Range(r: nat): (network: IPNet)
    requires r < NUM_RANGES
    ensures network.WellFormed() && |network.mask| == 4
  {
    IPNet(V4_IN_V6_PREFIX + Prefix(r) + [0], [0xFF, 0xFF, 0xFF, 0])
  }

  lemma MaskFacts(b: bv8, c: bv8)
    ensures NetBits(b, 0xFF) == b && HostBits(b, 0xFF) == 0 && NetBits(b, 0) == NetBits(c, 0) && HostBits(0, 0) == 0
  {
  }

  /** A /24 range holds exactly the addresses that start with its three bytes. */
  lemma InRange(r: nat, ip: IP)
    requires r < NUM_RANGES
    ensures Canonical(Range(r))
    ensures Contains(Range(r), ip) <==> |ip| == 4 && ip[..3] == Prefix(r)
  {
    hide NetBits, HostBits, NetIP, Prefix;
    var network := Range(r);
    RangeNetIP(r);
    var net := NetIP(network);
    MaskFacts(net[0], 0);
    MaskFacts(net[1], 0);
    MaskFacts(net[2], 0);
    if |ip| == 4 {
      MaskFacts(ip[0], 0);
      MaskFacts(ip[1], 0);
      MaskFacts(ip[2], 0);
      MaskFacts(ip[3], net[3]);
      assert ip[..3] == Prefix(r) <==> ip[0] == Prefix(r)[0] && ip[1] == Prefix(r)[1] && ip[2] == Prefix(r)[2];
    }
  }

  /** The three networks of RFC 5737: 192.0.2.0/24, 198.51.100.0/24 and 203.0.113.0/24. */
  lemma DocumentationRanges(ip: IP)
    ensures Contains(Range(0), ip) <==> |ip| == 4 && ip[0] == 192 && ip[1] == 0 && ip[2] == 2
    ensures Contains(Range(1), ip) <==> |ip| == 4 && ip[0] == 198 && ip[1] == 51 && ip[2] == 100
    ensures Contains(Range(2), ip) <==> |ip| == 4 && ip[0] == 203 && ip[1] == 0 && ip[2] == 113
    ensures NUM_RANGES == 3
  {
    hide Contains, Range;
    InRange(0, ip);
    InRange(1, ip);
    InRange(2, ip);
    if |ip| == 4 {
      assert ip[..3] == [ip[0], ip[1], ip[2]];
    }
  }

  lemma RangeNetIP(r: nat)
    requires r < NUM_RANGES
    ensures NetIP(Range(r)) == [Prefix(r)[0], Prefix(r)[1], Prefix(r)[2], 0]
  {
  }

  /** bytes.Compare(a, b) < 0. */
  predicate Less(a: IP, b: IP) {
    if a == [] || b == [] then a == [] && b != []
    else a[0] < b[0] || (a[0] == b[0] && Less(a[1..], b[1..]))
  }

  /** The address as a number. */
  function Value(ip: IP): nat {
    if ip == [] then 0 else Value(ip[..|ip| - 1]) * 0x100 + ip[|ip| - 1] as nat
  }

  function Pow256(n: nat): (p: nat)
    ensures p >= 1
  {
    if n == 0 then 1 else 0x100 * Pow256(n - 1)
  }

  lemma {:induction false} ValueCons(x: bv8, ip: IP)
    ensures Value([x] + ip) == x as nat * Pow256(|ip|) + Value(ip) && Value(ip) < Pow256(|ip|)
  {
    if ip == [] {
      assert [x] + ip == [x];
      assert Value([]) == 0 && Value([x]) == x as nat;
    } else {
      var front, last := ip[..|ip| - 1], ip[|ip| - 1];
      ValueCons(x, front);
      assert ([x] + ip)[..|ip|] == [x] + front;
      Shift(x as nat, Pow256(|front|));
    }
  }

  lemma Shift(a: nat, p: nat)
    ensures (a * p) * 0x100 == a * (0x100 * p)
  {
  }

  lemma FirstByte(ip: IP)
    requires ip != []
    ensures Value(ip) == ip[0] as nat * Pow256(|ip| - 1) + Value(ip[1..]) && Value(ip[1..]) < Pow256(|ip| - 1)
  {
    hide Value, Pow256;
    assert ip == [ip[0]] + ip[1..];
    ValueCons(ip[0], ip[1..]);
  }

  /** For addresses of one length the order is that of the numbers. */
  lemma {:induction false} LessIsByValue(a: IP, b: IP)
    requires |a| == |b|
    ensures Less(a, b) <==> Value(a) < Value(b)
  {
    hide Value, Pow256;
    if a == [] {
    } else {
      LessIsByValue(a[1..], b[1..]);
      FirstByte(a);
      FirstByte(b);
      FirstDigitDecides(a[0] as nat, b[0] as nat, Pow256(|a| - 1), Value(a[1..]), Value(b[1..]));
    }
  }

  lemma FirstDigitDecides(x: nat, y: nat, p: nat, s: nat, t: nat)
    requires s < p && t < p
    ensures x * p + s < y * p + t <==> x < y || (x == y && s < t)
  {
    if x < y {
      Multiples(x, y, p);
    } else if y < x {
      Multiples(y, x, p);
    }
  }

  lemma Multiples(x: nat, y: nat, p: nat)
    requires x < y
    ensures x * p + p <= y * p
  {
    assert (y - x - 1) * p >= 0;
    assert y * p == x * p + p + (y - x - 1) * p;
  }

  lemma {:induction false} LessTransitive(a: IP, b: IP, c: IP)
    requires Less(a, b) && Less(b, c)
    ensures Less(a, c)
  {
    if a == [] {
    } else if a[0] == b[0] == c[0] {
      LessTransitive(a[1..], b[1..], c[1..]);
    }
  }

  lemma {:induction false} LessTotal(a: IP, b: IP)
    ensures a == b || Less(a, b) || Less(b, a)
  {
    if a == [] || b == [] {
    } else if a[0] == b[0] {
      LessTotal(a[1..], b[1..]);
      assert a == [a[0]] + a[1..] && b == [b[0]] + b[1..];
    }
  }

  /** sort.Slice, for which the order of equal elements does not matter. */
  function Sort(hosts: seq<IP>): seq<IP> {
    if hosts == [] then [] else Insert(hosts[0], Sort(hosts[1..]))
  }

  function Insert(x: IP, hosts: seq<IP>): seq<IP> {
    if hosts == [] || Less(x, hosts[0]) then [x] + hosts else [hosts[0]] + Insert(x, hosts[1..])
  }

  predicate Ascending(hosts: seq<IP>) {
    forall i, j :: 0 <= i < j < |hosts| ==> Less(hosts[i], hosts[j])
  }

  predicate Distinct<T(==)>(s: seq<T>) {
    forall i, j :: 0 <= i < j < |s| ==> s[i] != s[j]
  }

  lemma {:induction false} InsertMultiset(x: IP, hosts: seq<IP>)
    ensures multiset(Insert(x, hosts)) == multiset(hosts) + multiset{x}
  {
    if hosts == [] || Less(x, hosts[0]) {
    } else {
      InsertMultiset(x, hosts[1..]);
      assert hosts == [hosts[0]] + hosts[1..];
    }
  }

  lemma AscendingCons(x: IP, hosts: seq<IP>)
    requires Ascending(hosts) && forall y :: y in hosts ==> Less(x, y)
    ensures Ascending([x] + hosts)
  {
    hide Less;
  }

  lemma {:induction false} InsertAscending(x: IP, hosts: seq<IP>)
    requires Ascending(hosts) && x !in hosts
    ensures Ascending(Insert(x, hosts))
  {
    hide Less;
    if hosts == [] {
    } else {
      if Less(x, hosts[0]) {
        forall y | y in hosts
          ensures Less(x, y)
        {
          if y != hosts[0] {
            LessTransitive(x, hosts[0], y);
          }
        }
        AscendingCons(x, hosts);
      } else {
        LessTotal(x, hosts[0]);
        var tail := hosts[1..];
        InsertAscending(x, tail);
        InsertMultiset(x, tail);
        forall y | y in Insert(x, tail)
          ensures Less(hosts[0], y)
        {
          assert y in multiset(Insert(x, tail));
        }
        AscendingCons(hosts[0], Insert(x, tail));
      }
    }
  }

  lemma SameMembers(s: seq<IP>, t: seq<IP>, x: IP)
    requires multiset(s) == multiset(t)
    ensures x in s <==> x in t
  {
    assert x in s <==> x in multiset(s);
    assert x in t <==> x in multiset(t);
  }

  /** Sorting distinct addresses puts them in strictly ascending order and loses none. */
  lemma {:induction false} SortKeeps(hosts: seq<IP>)
    requires Distinct(hosts)
    ensures Ascending(Sort(hosts)) && multiset(Sort(hosts)) == multiset(hosts)
  {
    if hosts == [] {
    } else {
      var tail := hosts[1..];
      SortKeeps(tail);
      assert hosts == [hosts[0]] + tail;
      assert hosts[0] !in tail;
      SameMembers(Sort(tail), tail, hosts[0]);
      InsertMultiset(hosts[0], Sort(tail));
      InsertAscending(hosts[0], Sort(tail));
    }
  }

  /** Go's int division truncates toward zero. */
  function Quotient(a: int, b: nat): int
    requires b > 0
  {
    if a >= 0 then a / b else -(-a / b)
  }

  type int64 = x: int | -0x8000_0000_0000_0000 <= x < 0x8000_0000_0000_0000

  /** The value a Go int expression takes when its exact value is `x`. */
  function WrapInt(x: int): int64 {
    (x + 0x8000_0000_0000_0000) % 0x1_0000_0000_0000_0000 - 0x8000_0000_0000_0000
  }

  function NumOfNets(size: int64): int {
    var n := Quotient(size, 20) + 1;
    if n > NUM_RANGES then NUM_RANGES else n
  }

  /** One network, and one more for every 20 hosts, as far as there are networks. */
  lemma NumOfNetsExact(size: int64)
    ensures NumOfNets(size) == 1 <==> -20 < size < 20
    ensures NumOfNets(size) == 2 <==> 20 <= size < 40
    ensures NumOfNets(size) == 3 <==> size >= 40
    ensures NumOfNets(size) == 0 <==> -40 < size <= -20
    ensures NumOfNets(size) < 0 <==> size <= -40
  {
  }

  predicate IsPermutation(perm: seq<nat>) {
    |perm| == NUM_RANGES && (forall i :: 0 <= i < |perm| ==> perm[i] < NUM_RANGES) && Distinct(perm)
  }

  /** rand.Read's result in each round. */
  type Bytes4 = b: seq<bv8> | |b| == 4 witness [0, 0, 0, 0]

  predicate ValidNets(netIdx: seq<nat>) {
    1 <= |netIdx| <= NUM_RANGES && (forall i :: 0 <= i < |netIdx| ==> netIdx[i] < NUM_RANGES) && Distinct(netIdx)
  }

  /** The network the next host is drawn from. */
  function NetFor(netIdx: seq<nat>, k: nat): (r: nat)
    requires ValidNets(netIdx)
    ensures r < NUM_RANGES
  {
    netIdx[k % |netIdx|]
  }

  /** What the selection loop makes of the hosts it has, from round k on. */
  function Draw(netIdx: seq<nat>, random: nat -> Bytes4, size: int64, k: nat, hosts: seq<IP>): seq<IP>
    requires size > 0 ==> ValidNets(netIdx)
    decreases WrapInt(2 * size) - k
  {
    if k < WrapInt(2 * size) && |hosts| < size then
      var ip := RandIPSpec(Range(NetFor(netIdx, |hosts|)), random(k));
      Draw(netIdx, random, size, k + 1, if ip in hosts then hosts else hosts + [ip])
    else hosts
  }

  lemma NetsAreValid(size: int64, perm: seq<nat>)
    requires IsPermutation(perm)
    ensures NumOfNets(size) < 0 <==> size <= -40
    ensures size > 0 ==> NumOfNets(size) >= 1 && ValidNets(perm[..NumOfNets(size)])
  {
  }

  /** The result, or None for the panic of slicing the permutation at a negative index. */
  method Hosts(size: int64, perm: seq<nat>, random: nat -> Bytes4) returns (result: Option<seq<IP>>)
    requires IsPermutation(perm)
    ensures result.None? <==> size <= -40
    ensures result.Some? ==>
              && 0 <= NumOfNets(size) <= NUM_RANGES && (size > 0 ==> ValidNets(perm[..NumOfNets(size)]))
              && result.value == Sort(Draw(perm[..NumOfNets(size)], random, size, 0, []))
  {
    NetsAreValid(size, perm);
    var hosts: seq<IP> := [];
    var dedup: map<IP, bool> := map[];
    var numOfNets := Quotient(size, 20) + 1;
    if numOfNets > NUM_RANGES {
      numOfNets := NUM_RANGES;
    }
    if numOfNets < 0 {
      return None;
    }
    var netIdx := perm[..numOfNets];
    ghost var goal := Draw(netIdx, random, size, 0, []);
    var k := 0;
    while k < WrapInt(2 * size) && |hosts| < size
      invariant goal == Draw(netIdx, random, size, k, hosts)
      invariant forall ip: IP :: ip in dedup <==> ip in hosts
      decreases WrapInt(2 * size) - k
    {
      var ip := RandIP(Range(netIdx[|hosts| % |netIdx|]), random(k));
      if ip !in dedup {
        dedup := dedup[ip := true];
        hosts := hosts + [ip];
      }
      k := k + 1;
    }
    result := Some(Sort(hosts));
  }

  // ---------------------------------------------------------------------------
  // What the loop selects.

  /** The address a round draws when j hosts have been selected. */
  function Candidate(netIdx: seq<nat>, random: nat -> Bytes4, j: nat, round: nat): IP
    requires ValidNets(netIdx)
  {
    RandIPSpec(Range(NetFor(netIdx, j)), random(round))
  }

  /** Exactly c of these rounds come before round r. */
  predicate Before(rounds: seq<nat>, c: nat, r: nat) {
    c <= |rounds| && forall t :: 0 <= t < |rounds| ==> (rounds[t] < r <==> t < c)
  }

  /** Round r adds nothing to the j hosts selected by then: they are all that were asked for, or
    * its address is among them. */
  predicate IdleWith(netIdx: seq<nat>, random: nat -> Bytes4, size: int, rounds: seq<nat>,
                     n: nat, hosts: seq<IP>, r: nat, j: nat)
    requires ValidNets(netIdx)
  {
    && n <= j <= |hosts| && Before(rounds, j - n, r)
    && (j == size || Candidate(netIdx, random, j, r) in hosts[..j])
  }

  ghost predicate Idle(netIdx: seq<nat>, random: nat -> Bytes4, size: int, rounds: seq<nat>,
                       n: nat, hosts: seq<IP>, r: nat)
    requires ValidNets(netIdx)
  {
    exists j: nat :: IdleWith(netIdx, random, size, rounds, n, hosts, r, j)
  }

  predicate InOrder(rounds: seq<nat>, k: nat, bound: int) {
    && (forall t :: 0 <= t < |rounds| ==> k <= rounds[t] < bound)
    && (forall s, t :: 0 <= s < t < |rounds| ==> rounds[s] < rounds[t])
  }

  /** Host n + t is what round rounds[t] has drawn. */
  predicate DrawnIn(netIdx: seq<nat>, random: nat -> Bytes4, n: nat, hosts: seq<IP>, rounds: seq<nat>)
    requires ValidNets(netIdx)
  {
    && |hosts| == n + |rounds|
    && forall t :: 0 <= t < |rounds| ==> hosts[n + t] == Candidate(netIdx, random, n + t, rounds[t])
  }

  /** A chronicle of the selection from round k up to `bound`: the rounds in which the hosts from
    * the n-th on were drawn; every other round was idle. */
  ghost predicate Chronicle(netIdx: seq<nat>, random: nat -> Bytes4, size: int, k: nat, bound: int,
                            n: nat, hosts: seq<IP>, rounds: seq<nat>)
    requires ValidNets(netIdx)
  {
    && |hosts| <= size && InOrder(rounds, k, bound) && DrawnIn(netIdx, random, n, hosts, rounds)
    && forall r: nat :: k <= r < bound && r !in rounds ==> Idle(netIdx, random, size, rounds, n, hosts, r)
  }

  lemma {:induction false} DrawChronicle(netIdx: seq<nat>, random: nat -> Bytes4, size: int64, k: nat, hosts: seq<IP>)
    returns (rounds: seq<nat>)
    requires size > 0 && ValidNets(netIdx) && |hosts| <= size
    ensures hosts <= Draw(netIdx, random, size, k, hosts)
    ensures Chronicle(netIdx, random, size, k, WrapInt(2 * size), |hosts|, Draw(netIdx, random, size, k, hosts), rounds)
    decreases WrapInt(2 * size) - k
  {
    hide ValidNets, RandIPSpec, Range, NetFor, WrapInt, Chronicle;
    if k >= WrapInt(2 * size) || |hosts| >= size {
      rounds := [];
      NothingMore(netIdx, random, size, k, WrapInt(2 * size), hosts);
    } else {
      var ip := Candidate(netIdx, random, |hosts|, k);
      if ip in hosts {
        rounds := DrawChronicle(netIdx, random, size, k + 1, hosts);
        OneRepeated(netIdx, random, size, k, WrapInt(2 * size), |hosts|, Draw(netIdx, random, size, k, hosts), rounds);
      } else {
        var later := DrawChronicle(netIdx, random, size, k + 1, hosts + [ip]);
        rounds := [k] + later;
        OneSelected(netIdx, random, size, k, WrapInt(2 * size), |hosts|, Draw(netIdx, random, size, k, hosts), later);
      }
    }
  }

  lemma NothingMore(netIdx: seq<nat>, random: nat -> Bytes4, size: int, k: nat, bound: int, hosts: seq<IP>)
    requires ValidNets(netIdx) && (k >= bound || |hosts| >= size) && |hosts| <= size
    ensures Chronicle(netIdx, random, size, k, bound, |hosts|, hosts, [])
  {
    hide ValidNets, Candidate;
    forall r: nat | k <= r < bound
      ensures Idle(netIdx, random, size, [], |hosts|, hosts, r)
    {
      assert IdleWith(netIdx, random, size, [], |hosts|, hosts, r, |hosts|);
    }
  }

  /** A round that draws one of the first n hosts again comes before a chronicle as an idle one. */
  lemma OneRepeated(netIdx: seq<nat>, random: nat -> Bytes4, size: int, k: nat, bound: int,
                    n: nat, hosts: seq<IP>, rounds: seq<nat>)
    requires ValidNets(netIdx) && Chronicle(netIdx, random, size, k + 1, bound, n, hosts, rounds)
    requires Candidate(netIdx, random, n, k) in hosts[..n]
    ensures Chronicle(netIdx, random, size, k, bound, n, hosts, rounds)
  {
    hide ValidNets, Candidate, DrawnIn;
    assert |hosts| >= n by {
      ChronicleLength(netIdx, random, size, k + 1, bound, n, hosts, rounds);
    }
    assert IdleWith(netIdx, random, size, rounds, n, hosts, k, n);
  }

  lemma ChronicleLength(netIdx: seq<nat>, random: nat -> Bytes4, size: int, k: nat, bound: int,
                        n: nat, hosts: seq<IP>, rounds: seq<nat>)
    requires ValidNets(netIdx) && Chronicle(netIdx, random, size, k, bound, n, hosts, rounds)
    ensures |hosts| == n + |rounds|
  {
    hide ValidNets, Candidate, Idle;
  }

  lemma OneSelected(netIdx: seq<nat>, random: nat -> Bytes4, size: int, k: nat, bound: int,
                    n: nat, hosts: seq<IP>, later: seq<nat>)
    requires ValidNets(netIdx) && k < bound && n < |hosts|
    requires Chronicle(netIdx, random, size, k + 1, bound, n + 1, hosts, later)
    requires hosts[n] == Candidate(netIdx, random, n, k)
    ensures Chronicle(netIdx, random, size, k, bound, n, hosts, [k] + later)
  {
    hide ValidNets, Candidate, Idle, InOrder, DrawnIn;
    InOrderCons(k, later, bound);
    DrawnInCons(netIdx, random, n, hosts, k, later);
    forall r: nat | k <= r < bound && r !in [k] + later
      ensures Idle(netIdx, random, size, [k] + later, n, hosts, r)
    {
      assert r != ([k] + later)[0] && forall t :: 0 <= t < |later| ==> ([k] + later)[t + 1] == later[t];
      StillIdle(netIdx, random, size, k, n, hosts, later, r);
    }
  }

  lemma InOrderCons(k: nat, later: seq<nat>, bound: int)
    requires InOrder(later, k + 1, bound) && k < bound
    ensures InOrder([k] + later, k, bound)
  {
  }

  lemma DrawnInCons(netIdx: seq<nat>, random: nat -> Bytes4, n: nat, hosts: seq<IP>, k: nat, later: seq<nat>)
    requires ValidNets(netIdx) && DrawnIn(netIdx, random, n + 1, hosts, later)
    requires hosts[n] == Candidate(netIdx, random, n, k)
    ensures DrawnIn(netIdx, random, n, hosts, [k] + later)
  {
    hide ValidNets, Candidate;
    var rounds := [k] + later;
    forall t | 0 <= t < |rounds|
      ensures hosts[n + t] == Candidate(netIdx, random, n + t, rounds[t])
    {
      if t > 0 {
        var u := t - 1;
        assert rounds[t] == later[u] && hosts[n + 1 + u] == Candidate(netIdx, random, n + 1 + u, later[u]);
      }
    }
  }

  /** A round after k that was idle stays so when round k is put before the others. */
  lemma StillIdle(netIdx: seq<nat>, random: nat -> Bytes4, size: int, k: nat, n: nat, hosts: seq<IP>,
                  later: seq<nat>, r: nat)
    requires ValidNets(netIdx) && k < r && Idle(netIdx, random, size, later, n + 1, hosts, r)
    ensures Idle(netIdx, random, size, [k] + later, n, hosts, r)
  {
    hide ValidNets, Candidate, Before;
    var j: nat :| IdleWith(netIdx, random, size, later, n + 1, hosts, r, j);
    OneBefore(k, later, j - (n + 1), r);
    assert IdleWith(netIdx, random, size, [k] + later, n, hosts, r, j);
  }

  lemma OneBefore(k: nat, later: seq<nat>, c: nat, r: nat)
    requires k < r && Before(later, c, r)
    ensures Before([k] + later, c + 1, r)
  {
    var rounds := [k] + later;
    forall t | 0 <= t < |rounds|
      ensures rounds[t] < r <==> t < c + 1
    {
      assert t > 0 ==> rounds[t] == later[t - 1];
    }
  }

  /** The selection stops only when all hosts asked for are found, or 2*size rounds are over. */
  lemma HostsGoOn(netIdx: seq<nat>, random: nat -> Bytes4, size: int64, round: nat)
    requires size > 0 && ValidNets(netIdx) && round < 2 * size < 0x8000_0000_0000_0000
    ensures var drawn := Draw(netIdx, random, size, 0, []);
            || |drawn| == size
            || exists j: nat :: j <= |drawn| && Candidate(netIdx, random, j, round) in drawn
  {
    hide ValidNets, Candidate;
    var drawn := Draw(netIdx, random, size, 0, []);
    var rounds := DrawChronicle(netIdx, random, size, 0, []);
    hide Draw;
    assert WrapInt(2 * size) == 2 * size;
    if round in rounds {
      var t :| 0 <= t < |rounds| && rounds[t] == round;
      assert drawn[0 + t] == Candidate(netIdx, random, 0 + t, round);
    } else {
      assert Idle(netIdx, random, size, rounds, 0, drawn, round);
    }
  }

  lemma NothingAskedFor(netIdx: seq<nat>, random: nat -> Bytes4, size: int64)
    requires size <= 0
    ensures Sort(Draw(netIdx, random, size, 0, [])) == []
  {
  }

  /** Distinct addresses, handed out to the chosen networks in turn. */
  predicate DrawnInTurn(netIdx: seq<nat>, hosts: seq<IP>)
    requires ValidNets(netIdx)
  {
    Distinct(hosts) && forall j :: 0 <= j < |hosts| ==> Contains(Range(NetFor(netIdx, j)), hosts[j])
  }

  lemma {:induction false} DrawKeeps(netIdx: seq<nat>, random: nat -> Bytes4, size: int64, k: nat, hosts: seq<IP>)
    requires ValidNets(netIdx) && DrawnInTurn(netIdx, hosts) && |hosts| <= size
    ensures DrawnInTurn(netIdx, Draw(netIdx, random, size, k, hosts))
    ensures |Draw(netIdx, random, size, k, hosts)| <= size
    decreases WrapInt(2 * size) - k
  {
    hide ValidNets, DrawnInTurn, RandIPSpec, Range, WrapInt, NetFor;
    if k >= WrapInt(2 * size) || |hosts| >= size {
    } else {
      var r := NetFor(netIdx, |hosts|);
      var ip := RandIPSpec(Range(r), random(k));
      RandIPInNetwork(Range(r), random(k));
      if ip !in hosts {
        OneMore(netIdx, hosts, ip);
      }
      DrawKeeps(netIdx, random, size, k + 1, if ip in hosts then hosts else hosts + [ip]);
    }
  }

  lemma OneMore(netIdx: seq<nat>, hosts: seq<IP>, ip: IP)
    requires ValidNets(netIdx) && DrawnInTurn(netIdx, hosts) && ip !in hosts
    requires Contains(Range(NetFor(netIdx, |hosts|)), ip)
    ensures DrawnInTurn(netIdx, hosts + [ip])
  {
  }

  // ---------------------------------------------------------------------------
  // How the hosts are spread over the networks.

  function CountIn(r: nat, hosts: seq<IP>): nat
    requires r < NUM_RANGES
  {
    if hosts == [] then 0
    else CountIn(r, hosts[..|hosts| - 1]) + (if Contains(Range(r), hosts[|hosts| - 1]) then 1 else 0)
  }

  /** How many of the first `length` turns fall to the i-th of n networks. */
  function Share(length: nat, n: nat, i: nat): nat
    requires i < n
  {
    (length + (n - 1 - i)) / n
  }

  lemma ShareStep(length: nat, n: nat, i: nat)
    requires i < n <= NUM_RANGES
    ensures Share(length + 1, n, i) == Share(length, n, i) + (if length % n == i then 1 else 0)
    ensures Share(0, n, i) == 0
  {
    if n == 1 {
    } else if n == 2 {
      HalfStep(length, i);
    } else {
      ThirdStep(length, i);
    }
  }

  lemma HalfStep(length: nat, i: nat)
    requires i < 2
    ensures (length + 1 + (1 - i)) / 2 == (length + (1 - i)) / 2 + (if length % 2 == i then 1 else 0)
  {
  }

  lemma ThirdStep(length: nat, i: nat)
    requires i < 3
    ensures (length + 1 + (2 - i)) / 3 == (length + (2 - i)) / 3 + (if length % 3 == i then 1 else 0)
  {
  }

  lemma ShareBalanced(length: nat, n: nat, i: nat, j: nat)
    requires i < n <= NUM_RANGES && j < n
    ensures Share(length, n, i) <= Share(length, n, j) + 1
  {
  }

  lemma RangesDisjoint(r: nat, s: nat, ip: IP)
    requires r < NUM_RANGES && s < NUM_RANGES && Contains(Range(r), ip) && Contains(Range(s), ip)
    ensures r == s
  {
    hide Contains, Range;
    InRange(r, ip);
    InRange(s, ip);
    PrefixInjective(r, s);
  }

  lemma PrefixInjective(r: nat, s: nat)
    requires r < NUM_RANGES && s < NUM_RANGES && Prefix(r) == Prefix(s)
    ensures r == s
  {
  }

  /** Each chosen network gets its share of the turns, whatever the random bytes were. */
  lemma {:induction false} DrawnShares(netIdx: seq<nat>, hosts: seq<IP>, i: nat)
    requires ValidNets(netIdx) && DrawnInTurn(netIdx, hosts) && i < |netIdx|
    ensures CountIn(netIdx[i], hosts) == Share(|hosts|, |netIdx|, i)
    decreases |hosts|
  {
    hide Contains, Range, DrawnInTurn, Share, NetFor;
    var n := |netIdx|;
    if hosts == [] {
      ShareStep(0, n, i);
    } else {
      var front, last := hosts[..|hosts| - 1], hosts[|hosts| - 1];
      FrontDrawn(netIdx, hosts);
      DrawnShares(netIdx, front, i);
      ShareStep(|front|, n, i);
      LastBelongs(netIdx, hosts, i);
    }
  }

  lemma FrontDrawn(netIdx: seq<nat>, hosts: seq<IP>)
    requires ValidNets(netIdx) && DrawnInTurn(netIdx, hosts) && hosts != []
    ensures DrawnInTurn(netIdx, hosts[..|hosts| - 1])
  {
  }

  lemma LastBelongs(netIdx: seq<nat>, hosts: seq<IP>, i: nat)
    requires ValidNets(netIdx) && DrawnInTurn(netIdx, hosts) && hosts != [] && i < |netIdx|
    ensures Contains(Range(netIdx[i]), hosts[|hosts| - 1]) <==> (|hosts| - 1) % |netIdx| == i
  {
    hide Contains, Range;
    var j := |hosts| - 1;
    var k := j % |netIdx|;
    assert Contains(Range(NetFor(netIdx, j)), hosts[j]);
    if Contains(Range(netIdx[i]), hosts[j]) {
      RangesDisjoint(netIdx[i], netIdx[k], hosts[j]);
    }
  }

  lemma {:induction false} CountPermuted(r: nat, s: seq<IP>, t: seq<IP>)
    requires r < NUM_RANGES && multiset(s) == multiset(t)
    ensures CountIn(r, s) == CountIn(r, t)
    decreases |s|
  {
    hide Contains, Range;
    if s == [] {
      assert |t| == |multiset(t)| == 0;
    } else {
      var x := s[|s| - 1];
      assert x in multiset(t);
      var k :| 0 <= k < |t| && t[k] == x;
      var front, rest := s[..|s| - 1], t[..k] + t[k + 1..];
      RemoveOne(r, s, |s| - 1);
      RemoveOne(r, t, k);
      assert front + s[|s|..] == front;
      MultisetCancel(multiset(front), multiset(rest), multiset{x});
      CountPermuted(r, front, rest);
    }
  }

  lemma RemoveOne(r: nat, t: seq<IP>, k: nat)
    requires r < NUM_RANGES && k < |t|
    ensures var rest := t[..k] + t[k + 1..];
            && multiset(t) == multiset(rest) + multiset{t[k]}
            && CountIn(r, t) == CountIn(r, rest) + (if Contains(Range(r), t[k]) then 1 else 0)
  {
    hide Contains, Range;
    assert t == t[..k] + ([t[k]] + t[k + 1..]);
    CountAppend(r, t[..k], [t[k]] + t[k + 1..]);
    CountAppend(r, [t[k]], t[k + 1..]);
    CountAppend(r, t[..k], t[k + 1..]);
    assert CountIn(r, [t[k]]) == if Contains(Range(r), t[k]) then 1 else 0;
  }

  lemma {:induction false} CountAppend(r: nat, a: seq<IP>, b: seq<IP>)
    requires r < NUM_RANGES
    ensures CountIn(r, a + b) == CountIn(r, a) + CountIn(r, b)
    decreases |b|
  {
    hide Contains, Range;
    if b == [] {
      assert a + b == a;
    } else {
      CountAppend(r, a, b[..|b| - 1]);
      assert (a + b)[..|a + b| - 1] == a + b[..|b| - 1];
    }
  }

  // ---------------------------------------------------------------------------
  // A bound on the number of hosts.

  lemma {:induction false} Pigeonhole(codes: seq<nat>, bound: nat)
    requires Distinct(codes) && forall i :: 0 <= i < |codes| ==> codes[i] < bound
    ensures |codes| <= bound
    decreases bound
  {
    if codes == [] {
    } else {
      assert codes[0] < bound;
      if k :| 0 <= k < |codes| && codes[k] == bound - 1 {
        var rest := codes[..k] + codes[k + 1..];
        Pigeonhole(rest, bound - 1);
      } else {
        Pigeonhole(codes, bound - 1);
      }
    }
  }

  /** A turn's network and the last byte of its address, as one number. */
  function Code(netIdx: seq<nat>, j: nat, host: IP): nat
    requires ValidNets(netIdx) && |host| == 4
  {
    j % |netIdx| * 0x100 + host[3] as nat
  }

  lemma CodeDecides(netIdx: seq<nat>, i: nat, a: IP, j: nat, b: IP)
    requires ValidNets(netIdx) && |a| == |b| == 4
    requires a[..3] == Prefix(NetFor(netIdx, i)) && b[..3] == Prefix(NetFor(netIdx, j))
    ensures Code(netIdx, i, a) == Code(netIdx, j, b) ==> a == b
    ensures Code(netIdx, i, a) < 0x100 * |netIdx|
  {
    hide Prefix;
    assert a == a[..3] + [a[3]] && b == b[..3] + [b[3]];
    if Code(netIdx, i, a) == Code(netIdx, j, b) {
      assert i % |netIdx| == j % |netIdx|;
    }
  }

  lemma AtMost256Each(netIdx: seq<nat>, hosts: seq<IP>)
    requires ValidNets(netIdx) && DrawnInTurn(netIdx, hosts)
    ensures |hosts| <= 0x100 * |netIdx|
  {
    hide Contains, Range, Prefix, Code, NetFor;
    forall j | 0 <= j < |hosts|
      ensures |hosts[j]| == 4 && hosts[j][..3] == Prefix(NetFor(netIdx, j))
    {
      InRange(NetFor(netIdx, j), hosts[j]);
    }
    var codes := seq(|hosts|, j requires 0 <= j < |hosts| => Code(netIdx, j, hosts[j]));
    forall i, j | 0 <= i < |hosts| && 0 <= j < |hosts|
      ensures codes[i] == codes[j] ==> hosts[i] == hosts[j]
      ensures codes[i] < 0x100 * |netIdx|
    {
      CodeDecides(netIdx, i, hosts[i], j, hosts[j]);
    }
    Pigeonhole(codes, 0x100 * |netIdx|);
  }

  // ---------------------------------------------------------------------------
  // The selection as a whole.

  /** For every random input: strictly ascending addresses, each in one of the chosen ranges,
    * no more than asked for and no more than the ranges hold, and spread over the chosen
    * networks so evenly that their counts differ by at most one. */
  lemma HostsWellChosen(netIdx: seq<nat>, random: nat -> Bytes4, size: int64)
    requires size > 0 && ValidNets(netIdx)
    ensures var hosts := Sort(Draw(netIdx, random, size, 0, []));
            && Ascending(hosts)
            && (forall j :: 0 <= j < |hosts| ==> exists i :: 0 <= i < |netIdx| && Contains(Range(netIdx[i]), hosts[j]))
            && |hosts| <= size && |hosts| <= 0x100 * |netIdx|
            && (forall i, j :: 0 <= i < |netIdx| && 0 <= j < |netIdx| ==>
                  CountIn(netIdx[i], hosts) <= CountIn(netIdx[j], hosts) + 1)
  {
    hide Contains, Range, Draw, Sort, Share, CountIn, Ascending, Distinct;
    NoneYet(netIdx);
    DrawKeeps(netIdx, random, size, 0, []);
    var drawn := Draw(netIdx, random, size, 0, []);
    SortKeeps(drawn);
    var hosts := Sort(drawn);
    assert |hosts| == |multiset(hosts)| == |multiset(drawn)| == |drawn|;
    AtMost256Each(netIdx, drawn);
    forall j | 0 <= j < |hosts|
      ensures exists i :: 0 <= i < |netIdx| && Contains(Range(netIdx[i]), hosts[j])
    {
      SameMembers(hosts, drawn, hosts[j]);
      var k :| 0 <= k < |drawn| && drawn[k] == hosts[j];
      assert Contains(Range(netIdx[k % |netIdx|]), hosts[j]);
    }
    forall i, j | 0 <= i < |netIdx| && 0 <= j < |netIdx|
      ensures CountIn(netIdx[i], hosts) <= CountIn(netIdx[j], hosts) + 1
    {
      DrawnShares(netIdx, drawn, i);
      DrawnShares(netIdx, drawn, j);
      ShareBalanced(|drawn|, |netIdx|, i, j);
      CountPermuted(netIdx[i], hosts, drawn);
      CountPermuted(netIdx[j], hosts, drawn);
    }
  }

  /** The hosts come in the order of their numbers. */
  lemma HostsInNumericOrder(netIdx: seq<nat>, random: nat -> Bytes4, size: int64, i: nat, j: nat)
    requires size > 0 && ValidNets(netIdx)
    requires i < j < |Sort(Draw(netIdx, random, size, 0, []))|
    ensures var hosts := Sort(Draw(netIdx, random, size, 0, []));
            Value(hosts[i]) < Value(hosts[j])
  {
    hide Draw, Sort, Range, Less, Value, CountIn;
    HostsWellChosen(netIdx, random, size);
    var hosts := Sort(Draw(netIdx, random, size, 0, []));
    assert |hosts[i]| == |hosts[j]| == 4 by {
      RangesAreV4();
    }
    LessIsByValue(hosts[i], hosts[j]);
  }

  lemma RangesAreV4()
    ensures forall r: nat :: r < NUM_RANGES ==> |Range(r).mask| == 4
  {
  }

  lemma NoneYet(netIdx: seq<nat>)
    requires ValidNets(netIdx)
    ensures DrawnInTurn(netIdx, [])
  {
  }

  /** When 2*size does not fit in an int the loop bound turns negative and no host at all is
    * selected; for every smaller positive size at least one is. */
  lemma OverflowSelectsNothing(netIdx: seq<nat>, random: nat -> Bytes4, size: int64)
    requires size > 0 && ValidNets(netIdx)
    ensures Draw(netIdx, random, size, 0, []) == [] <==> size >= 0x4000_0000_0000_0000
  {
    if size < 0x4000_0000_0000_0000 {
      assert WrapInt(2 * size) == 2 * size;
      var ip := RandIPSpec(Range(NetFor(netIdx, 0)), random(0));
      assert [] + [ip] == [ip];
      DrawGrows(netIdx, random, size, 1, [ip]);
    } else {
      assert WrapInt(2 * size) == 2 * size - 0x1_0000_0000_0000_0000;
    }
  }

  lemma {:induction false} DrawGrows(netIdx: seq<nat>, random: nat -> Bytes4, size: int64, k: nat, hosts: seq<IP>)
    requires size > 0 && ValidNets(netIdx)
    ensures hosts <= Draw(netIdx, random, size, k, hosts)
    decreases WrapInt(2 * size) - k
  {
    hide ValidNets, RandIPSpec, Range, NetFor, WrapInt;
    if k >= WrapInt(2 * size) || |hosts| >= size {
    } else {
      var ip := RandIPSpec(Range(NetFor(netIdx, |hosts|)), random(k));
      DrawGrows(netIdx, random, size, k + 1, if ip in hosts then hosts else hosts + [ip]);
    }
  }
}
