/** MeshPassthrough filter-chain collisions (v3_scan.go): a one-pass owners map stands in for comparing
    every pair of matches. */
module Passthrough {
  import opened Text

  // ---- networks --------------------------------------------------------------

  /** A network: family as printed, address bits as a number, prefix length. */
  datatype Net = Net(v6: bool, addr: nat, len: nat)

  function Pow2(n: nat): (r: nat)
    ensures r > 0
  {
    if n == 0 then 1 else 2 * Pow2(n - 1)
  }

  function HostBits(n: Net): nat {
    var width := if n.v6 then 128 else 32;
    if n.len > width then 0 else width - n.len
  }

  function BlockSize(n: Net): (p: nat)
    ensures p > 0
  {
    Pow2(HostBits(n))
  }

  /** canonicalCIDR: the host bits are cleared. */
  function Canonical(n: Net): Net {
    RemainderFits(n.addr, BlockSize(n));
    n.(addr := n.addr - n.addr % BlockSize(n))
  }

  lemma RemainderFits(a: nat, p: nat)
    requires p > 0
    ensures a % p <= a
  {
    if a < p { assert a % p == a; }
  }

  /** What is left after clearing starts a block: two addresses give the same start exactly when they lie in the
      same block. */
  lemma ClearedTwice(a: nat, b: nat, p: nat)
    requires p > 0
    ensures (a - a % p) % p == 0
    ensures a - a % p == b - b % p <==> a / p == b / p
  {
    BlockStart(a, p);
    BlockStart(b, p);
  }

  lemma BlockStart(a: nat, p: nat)
    requires p > 0
    ensures a - a % p == a / p * p && a / p * p / p == a / p && a / p * p % p == 0
  {
    var q := a / p;
    assert a == p * q + a % p;
    assert p * q == q * p;
    MultipleDivides(q, p);
    assert q * p == p * (q * p / p) + q * p % p;
  }

  /** An address without its last n bits. */
  function Leading(addr: nat, n: nat): nat {
    if n == 0 then addr else Leading(addr / 2, n - 1)
  }

  /** The same family and prefix length, and the same bits of the prefix: 128 bits an IPv6 address, 32 an IPv4 one. */
  predicate SameNetwork(a: Net, b: Net) {
    var width := if a.v6 then 128 else 32;
    && a.v6 == b.v6 && a.len == b.len
    && (if a.len >= width then a.addr == b.addr
        else Leading(a.addr, width - a.len) == Leading(b.addr, width - a.len))
  }

  lemma {:induction false} LeadingIsDivided(addr: nat, n: nat)
    ensures Leading(addr, n) == addr / Pow2(n)
    decreases n
  {
    if n > 0 {
      LeadingIsDivided(addr / 2, n - 1);
      DividedTwice(addr, Pow2(n - 1));
    }
  }

  lemma DividedTwice(a: nat, p: nat)
    requires p > 0
    ensures a / 2 / p == a / (2 * p)
  {
    var q, r, s := a / 2 / p, (a / 2) % p, a % 2;
    assert a == 2 * (a / 2) + s && a / 2 == p * q + r;
    assert 2 * (p * q + r) + s == (2 * p) * q + (2 * r + s);
    assert 0 <= 2 * r + s < 2 * p;
    Quotient(2 * p, q, 2 * r + s);
  }

  lemma Quotient(p: nat, q: nat, r: nat)
    requires r < p
    ensures (p * q + r) / p == q
  {
    var a := p * q + r;
    assert a == p * (a / p) + a % p;
    SameQuotient(p, q, a / p, r, a % p);
  }

  lemma SameQuotient(p: nat, x: int, y: int, r: nat, s: nat)
    requires r < p && s < p && p * x + r == p * y + s
    ensures x == y
  {
    assert p * (x - y) == p * x - p * y;
    if x > y { AtLeast(p, x - y); }
    if x < y { AtLeast(p, y - x); }
  }

  lemma AtLeast(p: nat, d: int)
    requires d > 0
    ensures p * d >= p
  {
    assert p * d == p + p * (d - 1);
  }

  lemma {:induction false} MultipleDivides(q: nat, p: nat)
    requires p > 0
    ensures q * p / p == q
  {
    if q > 0 {
      MultipleDivides(q - 1, p);
      assert q * p == (q - 1) * p + p;
      assert ((q - 1) * p + p) / p == (q - 1) * p / p + 1;
    }
  }

  /** Masking is idempotent, and two CIDRs get the same canonical form exactly when they are the same network. */
  lemma CanonicalIsNetwork(a: Net, b: Net)
    ensures Canonical(Canonical(a)) == Canonical(a)
    ensures Canonical(a) == Canonical(b) <==> SameNetwork(a, b)
  {
    hide BlockSize, Leading, Pow2;
    NetworkIsBlock(a, b);
    ClearedTwice(a.addr, b.addr, BlockSize(a));
    SameBlocks(a, b);
  }

  lemma NetworkIsBlock(a: Net, b: Net)
    ensures SameNetwork(a, b) <==>
              a.v6 == b.v6 && a.len == b.len && a.addr / BlockSize(a) == b.addr / BlockSize(b)
  {
    LeadingIsDivided(a.addr, HostBits(a));
    LeadingIsDivided(b.addr, HostBits(a));
    assert Leading(a.addr, 0) == a.addr && Leading(b.addr, 0) == b.addr;
  }

  /** Blocks depend on the family and the prefix length only. */
  lemma SameBlocks(a: Net, b: Net)
    ensures a.v6 == b.v6 && a.len == b.len ==> BlockSize(a) == BlockSize(b)
    ensures BlockSize(Canonical(a)) == BlockSize(a)
  {
  }

  // ---- matches ---------------------------------------------------------------

  /** An appendMatch entry. net is the parsed value of an IP (a full-length prefix) or CIDR, None when it
      does not parse; colon says whether an IP is written with a colon. */
  datatype Match = Match(kind: string, value: string, protocol: string, port: int, net: Option<Net>, colon: bool)

  /** Not passthroughMatchInvalid: a filter chain can be built. */
  predicate Valid(m: Match) {
    match m.kind
    case "IP" => m.net.Some?
    case "CIDR" => m.net.Some?
    case "Domain" => m.port != 0 || (m.value != "" && m.value[0] == '*')
    case _ => false
  }

  datatype Key = Key(class_: string, port: int, net: Option<Net>, six: bool, sni: string)

  function Class(protocol: string): string {
    if protocol == "tls" then "tls" else if protocol == "tcp" || protocol == "mysql" then "tcp" else "http"
  }

  /** passthroughChainKey. */
  function ChainKey(m: Match): Key
    requires Valid(m)
  {
    var class_ := Class(m.protocol);
    match m.kind
    case "IP" => Key(class_, m.port, Some(Canonical(m.net.value)), m.colon, "")
    case "CIDR" => Key(class_, m.port, Some(Canonical(m.net.value)), m.net.value.v6, "")
    case _ => Key(class_, m.port, None, false, if class_ == "tls" then m.value else "")
  }

  /** What may share a chain: the same protocol and, except for L7 domains, the same value. */
  datatype Owner = Owner(protocol: string, chainValue: string)

  function OwnerOf(m: Match): Owner {
    var l7 := m.protocol in {"grpc", "http", "http2"};
    Owner(m.protocol, if m.kind == "Domain" && l7 then "" else m.value)
  }

  // ---- the key as the code writes it -------------------------------------------

  function Number(n: int): string {
    if n < 0 then "-" + Decimal(-n) else Decimal(n)
  }

  function Flag(b: bool): string {
    if b then "true" else "false"
  }

  /** How a network prints: the printed form tells networks apart and has no '|'. */
  ghost predicate PrintsNetworks(text: Net -> string) {
    && (forall n :: text(n) != "" && '|' !in text(n))
    && forall a, b :: text(a) == text(b) ==> a == b
  }

  function Address(k: Key, text: Net -> string): string {
    if k.net.None? then "" else text(k.net.value)
  }

  function KeyText(k: Key, text: Net -> string): string {
    k.class_ + "|" + (Number(k.port) + "|" + (Address(k, text) + "|" + (Flag(k.six) + "|" + k.sni)))
  }

  lemma {:induction false} FieldSplits(a: string, b: string, x: string, y: string)
    requires '|' !in a && '|' !in b
    ensures a + "|" + x == b + "|" + y <==> a == b && x == y
    decreases |a|
  {
    var s, t := a + "|" + x, b + "|" + y;
    if a == "" || b == "" {
      assert a == "" ==> s[0] == '|' && s[1..] == x;
      assert b == "" ==> t[0] == '|' && t[1..] == y;
      assert a != "" ==> s[0] == a[0] && a[0] in a;
      assert b != "" ==> t[0] == b[0] && b[0] in b;
    } else {
      FieldSplits(a[1..], b[1..], x, y);
      assert s == [a[0]] + (a[1..] + "|" + x) && t == [b[0]] + (b[1..] + "|" + y);
      assert s[1..] == a[1..] + "|" + x && t[1..] == b[1..] + "|" + y;
      assert a == [a[0]] + a[1..] && b == [b[0]] + b[1..];
    }
  }

  lemma NumberSign(n: int)
    ensures '|' !in Number(n) && (Number(n)[0] == '-' <==> n < 0)
  {
    assert n >= 0 ==> Decimal(n)[0] in Decimal(n);
  }

  lemma NumberInjective(m: int, n: int)
    ensures Number(m) == Number(n) <==> m == n
  {
    NumberSign(m);
    NumberSign(n);
    if Number(m) == Number(n) {
      if m < 0 {
        assert Number(m)[1..] == Decimal(-m) && Number(n)[1..] == Decimal(-n);
        DecimalInjective(-m, -n);
      } else {
        DecimalInjective(m, n);
      }
    }
  }

  /** Two keys are the same string exactly when class, port, network, family and SNI are the same. */
  lemma KeyTextExact(a: Key, b: Key, text: Net -> string)
    requires PrintsNetworks(text) && '|' !in a.class_ && '|' !in b.class_
    ensures KeyText(a, text) == KeyText(b, text) <==> a == b
  {
    NumberInjective(a.port, b.port);
    NumberSign(a.port);
    NumberSign(b.port);
    FieldSplits(Flag(a.six), Flag(b.six), a.sni, b.sni);
    var a1, b1 := Flag(a.six) + "|" + a.sni, Flag(b.six) + "|" + b.sni;
    FieldSplits(Address(a, text), Address(b, text), a1, b1);
    var a2, b2 := Address(a, text) + "|" + a1, Address(b, text) + "|" + b1;
    FieldSplits(Number(a.port), Number(b.port), a2, b2);
    FieldSplits(a.class_, b.class_, Number(a.port) + "|" + a2, Number(b.port) + "|" + b2);
    assert Flag(a.six) == Flag(b.six) <==> a.six == b.six by { assert "true"[0] != "false"[0]; }
  }

  // ---- what shares a chain -------------------------------------------------------

  /** Envoy tells tls, plain tcp (mysql included) and everything else apart. */
  predicate SharesProtocol(a: string, b: string) {
    || a == b || (a in {"tcp", "mysql"} && b in {"tcp", "mysql"})
    || (a !in {"tls", "tcp", "mysql"} && b !in {"tls", "tcp", "mysql"})
  }

  /** An IP counts as IPv6 by its spelling, a CIDR by its network. */
  predicate IsSix(m: Match)
    requires Valid(m) && m.kind != "Domain"
  {
    if m.kind == "IP" then m.colon else m.net.value.v6
  }

  /** Two matches that get the same filter chain: on one port, of one class of protocols, and either the same network
      or two domains; with TLS the same domain. */
  predicate SharesChain(a: Match, b: Match) {
    && Valid(a) && Valid(b) && a.port == b.port && SharesProtocol(a.protocol, b.protocol)
    && if a.kind == "Domain" || b.kind == "Domain" then
         a.kind == b.kind && (a.protocol == "tls" ==> a.value == b.value)
       else SameNetwork(a.net.value, b.net.value) && IsSix(a) == IsSix(b)
  }

  /** They can live in it: the same protocol and the same spelling; HTTP domains of any name. */
  predicate Compatible(a: Match, b: Match) {
    && a.protocol == b.protocol
    && (a.value == b.value || (a.kind == "Domain" && b.kind == "Domain" && a.protocol in {"grpc", "http", "http2"}))
  }

  /** The key is the chain, and on one chain the owner is what may share it. */
  lemma ChainMeans(a: Match, b: Match)
    ensures SameChain(a, b) <==> SharesChain(a, b)
    ensures SharesChain(a, b) ==> (OwnerOf(a) == OwnerOf(b) <==> Compatible(a, b))
  {
    hide Canonical, BlockSize;
    ClassMeans(a.protocol, b.protocol);
    if Valid(a) && Valid(b) && a.kind != "Domain" && b.kind != "Domain" {
      CanonicalIsNetwork(a.net.value, b.net.value);
    }
  }

  lemma ClassMeans(a: string, b: string)
    ensures Class(a) == Class(b) <==> SharesProtocol(a, b)
    ensures Class(a) == "tls" <==> a == "tls"
  {
    assert "tls"[1] == 'l' && "tcp"[1] == 'c' && |"http"| == 4 && "mysql"[0] == 'm';
  }

  // ---- one pass against all pairs ----------------------------------------------

  ghost predicate SameChain(a: Match, b: Match) {
    Valid(a) && Valid(b) && ChainKey(a) == ChainKey(b)
  }

  /** j is the first valid match with i's chain key. */
  ghost predicate FirstOfChain(ms: seq<Match>, j: int, i: int) {
    && 0 <= j <= i < |ms| && SameChain(ms[j], ms[i])
    && forall h :: 0 <= h < j ==> !SameChain(ms[h], ms[i])
  }

  /** Match i is warned about: it differs from the first owner of its chain. */
  ghost predicate Collides(ms: seq<Match>, i: int) {
    0 <= i < |ms| && exists j :: FirstOfChain(ms, j, i) && OwnerOf(ms[j]) != OwnerOf(ms[i])
  }

  ghost predicate Owns(ms: seq<Match>, n: int, owners: map<Key, Owner>, key: Key)
    requires n <= |ms|
  {
    if key in owners then
      exists j :: 0 <= j < n && FirstOfChain(ms, j, j) && ChainKey(ms[j]) == key && OwnerOf(ms[j]) == owners[key]
    else forall h :: 0 <= h < n && Valid(ms[h]) ==> ChainKey(ms[h]) != key
  }

  /** The collision loop of warnMeshPassthroughV3: the indexes of the matches it warns about, in order. */
  method FindCollisions(ms: seq<Match>) returns (warned: seq<nat>)
    ensures forall i :: i in warned <==> Collides(ms, i)
    ensures forall a, b :: 0 <= a < b < |warned| ==> warned[a] < warned[b]
  {
    hide ChainKey, Valid, OwnerOf;
    warned := [];
    var owners: map<Key, Owner> := map[];
    for i := 0 to |ms|
      invariant forall k :: k in warned <==> k < i && Collides(ms, k)
      invariant forall a, b :: 0 <= a < b < |warned| ==> warned[a] < warned[b]
      invariant forall key :: Owns(ms, i, owners, key)
    {
      ghost var was := owners;
      if Valid(ms[i]) {
        var key := ChainKey(ms[i]);
        assert Owns(ms, i, owners, key);
        if key !in owners {
          owners := owners[key := OwnerOf(ms[i])];
          assert FirstOfChain(ms, i, i);
        } else {
          FirstIsUnique(ms, i);
          if owners[key] != OwnerOf(ms[i]) {
            assert forall a :: 0 <= a < |warned| ==> warned[a] in warned;
            warned := warned + [i];
          }
        }
      }
      ghost var n := i + 1;
      forall key ensures Owns(ms, n, owners, key) { assert Owns(ms, i, was, key); }
    }
  }

  lemma FirstIsUnique(ms: seq<Match>, i: int)
    ensures forall j, k :: FirstOfChain(ms, j, i) && FirstOfChain(ms, k, i) ==> j == k
    ensures forall j :: FirstOfChain(ms, j, j) && 0 <= j <= i < |ms| && SameChain(ms[j], ms[i]) ==>
              FirstOfChain(ms, j, i)
  {
    hide ChainKey, Valid;
  }

  lemma {:induction false} FirstExists(ms: seq<Match>, i: nat, j: nat) returns (first: nat)
    requires j <= i < |ms| && SameChain(ms[j], ms[i])
    ensures FirstOfChain(ms, first, i) && first <= j
    decreases j
  {
    hide ChainKey, Valid;
    if h :| 0 <= h < j && SameChain(ms[h], ms[i]) {
      first := FirstExists(ms, i, h);
    } else {
      first := j;
    }
  }

  /** No warning exactly when all matches that share a chain are compatible, pair by pair. */
  lemma OnePassIsPairwise(ms: seq<Match>)
    ensures (forall i :: 0 <= i < |ms| ==> !Collides(ms, i))
       <==> forall i, j :: 0 <= i < |ms| && 0 <= j < |ms| && SharesChain(ms[i], ms[j]) ==> Compatible(ms[i], ms[j])
  {
    hide ChainKey, Valid, OwnerOf, SharesChain, Compatible, SameChain;
    forall i, j | 0 <= i < |ms| && 0 <= j < |ms|
      ensures SameChain(ms[i], ms[j]) <==> SharesChain(ms[i], ms[j])
      ensures SharesChain(ms[i], ms[j]) ==> (OwnerOf(ms[i]) == OwnerOf(ms[j]) <==> Compatible(ms[i], ms[j]))
    {
      ChainMeans(ms[i], ms[j]);
    }
    OwnersPairwise(ms);
  }

  lemma OwnersPairwise(ms: seq<Match>)
    ensures (forall i :: 0 <= i < |ms| ==> !Collides(ms, i))
       <==> forall i, j :: 0 <= i < |ms| && 0 <= j < |ms| && SameChain(ms[i], ms[j]) ==>
           OwnerOf(ms[i]) == OwnerOf(ms[j])
  {
    hide ChainKey, Valid, OwnerOf;
    if forall i :: 0 <= i < |ms| ==> !Collides(ms, i) {
      forall i, j | 0 <= i < |ms| && 0 <= j < |ms| && SameChain(ms[i], ms[j])
        ensures OwnerOf(ms[i]) == OwnerOf(ms[j])
      {
        var f := FirstExists(ms, i, i);
        var g := FirstExists(ms, j, j);
        assert f == g by {
          if f <= j { var x := FirstExists(ms, j, f); }
          if g <= i { var y := FirstExists(ms, i, g); }
        }
        assert !Collides(ms, i) && !Collides(ms, j);
      }
    }
  }
}
