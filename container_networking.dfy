/**
 * The pure helpers of the container networking script: looking up a netlink
 * attribute, the network of an interface address, choosing the host address
 * whose network holds a container address, and turning a digest into a
 * locally administered unicast MAC address.
 *
 * IPv4 addresses are 32-bit values, held as their bits from the most
 * significant down; parsing their text is not modelled, and
 * the digest is an input (the SHA-1 step is not modelled).
 */
module ContainerNetworking {
  import opened Results

  /** The two Python exceptions the helpers raise. */
  datatype PyError = RuntimeError | ValueError

  /** The 32 bits of an IPv4 address, most significant first. */
  type Address = bits: seq<bool> | |bits| == 32 witness seq(32, _ => false)

  /** An attribute value: an IPv4 address, or any other string or number. */
  datatype Value = IPv4(addr: Address) | Text(text: string) | Number(n: int)

  datatype Attr = Attr(name: string, value: Value)

  /**
   * An interface address as netlink reports it: its attribute list (which may
   * be missing) and its prefix length.
   */
  datatype IfAddr = IfAddr(attrs: Option<seq<Attr>>, prefixlen: int)

  // ---------------------------------------------------------------------------
  // get_attribute

  /** The values of the attributes with this name, in list order. */
  function ValuesNamed(attrs: seq<Attr>, name: string): (vs: seq<Value>)
    ensures forall v :: v in vs ==> Attr(name, v) in attrs
  {
    if attrs == [] then []
    else (if attrs[0].name == name then [attrs[0].value] else []) + ValuesNamed(attrs[1..], name)
  }

  /** Exactly one attribute of the list has this name. */
  predicate UniquelyNamed(attrs: seq<Attr>, name: string) {
    exists i :: 0 <= i < |attrs| && attrs[i].name == name &&
                forall j :: 0 <= j < |attrs| && attrs[j].name == name ==> j == i
  }

  lemma {:induction false} NoValuesNamed(attrs: seq<Attr>, name: string)
    ensures ValuesNamed(attrs, name) == [] <==> forall i :: 0 <= i < |attrs| ==> attrs[i].name != name
    decreases |attrs|
  {
    if attrs != [] {
      NoValuesNamed(attrs[1..], name);
      assert forall i :: 1 <= i < |attrs| ==> attrs[i] == attrs[1..][i - 1];
    }
  }

  /** When the first attribute has the name, it is the only one if no later one has it. */
  lemma UniqueAtHead(attrs: seq<Attr>, name: string)
    requires attrs != [] && attrs[0].name == name
    ensures UniquelyNamed(attrs, name) <==> forall j :: 0 <= j < |attrs[1..]| ==> attrs[1..][j].name != name
  {
    var tail := attrs[1..];
    assert forall j :: 0 <= j < |tail| ==> attrs[j + 1] == tail[j];
    if UniquelyNamed(attrs, name) {
      var i :| 0 <= i < |attrs| && attrs[i].name == name &&
               forall j :: 0 <= j < |attrs| && attrs[j].name == name ==> j == i;
      assert i == 0;
    }
  }

  /** A name unique in the rest stays unique when an attribute of another name is put in front. */
  lemma UniqueInTailLifts(attrs: seq<Attr>, name: string)
    requires attrs != [] && attrs[0].name != name && UniquelyNamed(attrs[1..], name)
    ensures UniquelyNamed(attrs, name)
  {
    var tail := attrs[1..];
    var i :| 0 <= i < |tail| && tail[i].name == name &&
             forall j :: 0 <= j < |tail| && tail[j].name == name ==> j == i;
    assert attrs[i + 1] == tail[i];
    forall j | 0 <= j < |attrs| && attrs[j].name == name
      ensures j == i + 1
    {
      assert tail[j - 1] == attrs[j];
    }
  }

  /** A name unique in a list whose first attribute has another name is unique in the rest. */
  lemma UniqueInTailLowers(attrs: seq<Attr>, name: string)
    requires attrs != [] && attrs[0].name != name && UniquelyNamed(attrs, name)
    ensures UniquelyNamed(attrs[1..], name)
  {
    var tail := attrs[1..];
    var i :| 0 <= i < |attrs| && attrs[i].name == name &&
             forall j :: 0 <= j < |attrs| && attrs[j].name == name ==> j == i;
    assert tail[i - 1] == attrs[i];
    forall j | 0 <= j < |tail| && tail[j].name == name
      ensures j == i - 1
    {
      assert attrs[j + 1] == tail[j];
    }
  }

  /** When the first attribute has another name, uniqueness is decided by the rest. */
  lemma UniqueInTail(attrs: seq<Attr>, name: string)
    requires attrs != [] && attrs[0].name != name
    ensures UniquelyNamed(attrs, name) <==> UniquelyNamed(attrs[1..], name)
  {
    if UniquelyNamed(attrs[1..], name) {
      UniqueInTailLifts(attrs, name);
    }
    if UniquelyNamed(attrs, name) {
      UniqueInTailLowers(attrs, name);
    }
  }

  /** One value is found exactly when one attribute has the name. */
  lemma {:induction false} OneValueNamed(attrs: seq<Attr>, name: string)
    ensures |ValuesNamed(attrs, name)| == 1 <==> UniquelyNamed(attrs, name)
    decreases |attrs|
  {
    if attrs != [] {
      if attrs[0].name == name {
        NoValuesNamed(attrs[1..], name);
        UniqueAtHead(attrs, name);
      } else {
        OneValueNamed(attrs[1..], name);
        UniqueInTail(attrs, name);
      }
    }
  }

  /**
   * The value of the one attribute with this name. A missing attribute list,
   * no such attribute, or more than one are all reported as a RuntimeError.
   */
  function GetAttribute(a: IfAddr, name: string): (r: Result<Value, PyError>)
    ensures r.Ok? <==> a.attrs.Some? && UniquelyNamed(a.attrs.value, name)
    ensures r.Ok? ==> Attr(name, r.value) in a.attrs.value
    ensures r.Fail? ==> r.error == RuntimeError
  {
    if a.attrs.None? then Fail(RuntimeError)
    else
      var matchingValues := ValuesNamed(a.attrs.value, name);
      OneValueNamed(a.attrs.value, name);
      if |matchingValues| == 0 then Fail(RuntimeError)
      else if |matchingValues| != 1 then Fail(RuntimeError)
      else Ok(matchingValues[0])
  }

  /** The value returned is the value of the named attribute, whichever position it has. */
  lemma GetAttributeFinds(a: IfAddr, name: string, i: nat)
    requires a.attrs.Some? && i < |a.attrs.value| && a.attrs.value[i].name == name
    requires forall j :: 0 <= j < |a.attrs.value| && a.attrs.value[j].name == name ==> j == i
    ensures GetAttribute(a, name) == Ok(a.attrs.value[i].value)
  {
    var r := GetAttribute(a, name);
    var attrs := a.attrs.value;
    assert UniquelyNamed(attrs, name);
    var k :| 0 <= k < |attrs| && attrs[k] == Attr(name, r.value);
    assert k == i;
  }

  // ---------------------------------------------------------------------------
  // network

  /** An IPv4 network: its address with the host bits cleared, and its prefix length. */
  datatype Network = Network(address: Address, prefixlen: nat)

  /** Bitwise and of two addresses. */
  function And(x: Address, y: Address): (r: Address)
    ensures forall i :: 0 <= i < 32 ==> r[i] == (x[i] && y[i])
  {
    seq(32, i requires 0 <= i < 32 => x[i] && y[i])
  }

  /** The netmask of a prefix length: the top `p` bits set. */
  function Netmask(p: nat): (m: Address)
    requires p <= 32
    ensures forall i :: 0 <= i < 32 ==> (m[i] <==> i < p)
  {
    seq(32, i => i < p)
  }

  /** Python's containment test: the address under the netmask is the network address. */
  predicate Contains(n: Network, a: Address)
    requires n.prefixlen <= 32
  {
    And(a, Netmask(n.prefixlen)) == n.address
  }

  /** Two addresses agree under a netmask exactly when their top bits agree. */
  lemma MaskAgrees(x: Address, y: Address, p: nat)
    requires p <= 32
    ensures And(x, Netmask(p)) == And(y, Netmask(p)) <==> x[..p] == y[..p]
  {
    var mx, my := And(x, Netmask(p)), And(y, Netmask(p));
    if mx == my {
      forall i | 0 <= i < p ensures x[i] == y[i] {
        assert mx[i] == my[i];
      }
    }
    if x[..p] == y[..p] {
      forall i | 0 <= i < 32 ensures mx[i] == my[i] {
        if i < p {
          assert x[..p][i] == y[..p][i];
        }
      }
    }
  }

  /**
   * The network of an interface address: its IFA_ADDRESS widened to the
   * interface's prefix length. A value that is not an address, or a prefix
   * length outside 0..32, is a ValueError; a missing attribute a RuntimeError.
   */
  function NetworkOf(a: IfAddr): (r: Result<Network, PyError>)
    ensures r.Ok? <==> GetAttribute(a, "IFA_ADDRESS").Ok? && GetAttribute(a, "IFA_ADDRESS").value.IPv4? &&
                       0 <= a.prefixlen <= 32
    ensures r.Ok? ==> r.value.prefixlen == a.prefixlen && r.value.prefixlen <= 32
    ensures r.Ok? ==> GetAttribute(a, "IFA_ADDRESS").Ok? && GetAttribute(a, "IFA_ADDRESS").value.IPv4?
    ensures r.Fail? ==> r.error == if GetAttribute(a, "IFA_ADDRESS").Fail? then RuntimeError else ValueError
  {
    var v :- GetAttribute(a, "IFA_ADDRESS");
    if !v.IPv4? then Fail(ValueError)
    else if a.prefixlen < 0 || a.prefixlen > 32 then Fail(ValueError)
    else Ok(Network(And(v.addr, Netmask(a.prefixlen)), a.prefixlen))
  }

  /**
   * The network of an interface address holds an address exactly when the
   * top prefixlen bits of the address equal those of IFA_ADDRESS.
   */
  lemma NetworkContains(a: IfAddr, x: Address)
    requires NetworkOf(a).Ok?
    ensures Contains(NetworkOf(a).value, x) <==>
            x[..a.prefixlen] == GetAttribute(a, "IFA_ADDRESS").value.addr[..a.prefixlen]
  {
    var ip := GetAttribute(a, "IFA_ADDRESS").value.addr;
    MaskAgrees(x, ip, a.prefixlen);
  }

  // ---------------------------------------------------------------------------
  // ip_with_most_specific_network_for_address

  /** The network of this interface address can be computed and holds the address. */
  predicate InNetwork(address: Address, a: IfAddr) {
    NetworkOf(a).Ok? && Contains(NetworkOf(a).value, address)
  }

  /**
   * The host addresses whose network holds the address, in list order. The
   * network of every candidate is computed, and the first one that cannot be
   * is the error.
   */
  function MatchingHostIps(address: Address, ips: seq<IfAddr>): (r: Result<seq<IfAddr>, PyError>)
    ensures r.Ok? ==> forall i :: 0 <= i < |ips| ==> NetworkOf(ips[i]).Ok?
    ensures r.Ok? ==> forall x :: x in r.value <==> x in ips && InNetwork(address, x)
    ensures r.Fail? ==> exists i :: 0 <= i < |ips| && NetworkOf(ips[i]) == Fail(r.error) &&
                                    forall j :: 0 <= j < i ==> NetworkOf(ips[j]).Ok?
  {
    if ips == [] then Ok([])
    else
      var n :- NetworkOf(ips[0]);
      var others := MatchingHostIps(address, ips[1..]);
      if others.Fail? then
        var i :| 0 <= i < |ips[1..]| && NetworkOf(ips[1..][i]) == Fail(others.error) &&
                 forall j :: 0 <= j < i ==> NetworkOf(ips[1..][j]).Ok?;
        assert NetworkOf(ips[i + 1]) == Fail(others.error);
        assert forall j :: 1 <= j < i + 1 ==> ips[j] == ips[1..][j - 1];
        Fail(others.error)
      else
        assert forall j :: 1 <= j < |ips| ==> ips[j] == ips[1..][j - 1];
        assert forall x :: x in ips <==> x == ips[0] || x in ips[1..];
        Ok(if Contains(n, address) then [ips[0]] + others.value else others.value)
  }

  /** The positions, from `from` on, of the candidates whose network holds the address. */
  function MatchingIndices(address: Address, ips: seq<IfAddr>, from: nat): seq<nat>
    requires from <= |ips|
    decreases |ips| - from
  {
    if from == |ips| then []
    else (if InNetwork(address, ips[from]) then [from] else []) + MatchingIndices(address, ips, from + 1)
  }

  /** One step of the filter: the first candidate is kept exactly when its network holds the address. */
  lemma MatchingStep(address: Address, ips: seq<IfAddr>, from: nat)
    requires from < |ips| && MatchingHostIps(address, ips[from..]).Ok?
    ensures MatchingHostIps(address, ips[from + 1..]).Ok?
    ensures MatchingHostIps(address, ips[from..]).value ==
            (if InNetwork(address, ips[from]) then [ips[from]] else []) + MatchingHostIps(address, ips[from + 1..]).value
  {
    var s := ips[from..];
    assert s[0] == ips[from];
    assert s[1..] == ips[from + 1..];
    assert NetworkOf(s[0]).Ok?;
  }

  /** One step of the positions: the first position is listed exactly when its candidate matches. */
  lemma MatchingIndicesStep(address: Address, ips: seq<IfAddr>, from: nat)
    requires from < |ips|
    ensures MatchingIndices(address, ips, from) ==
            (if InNetwork(address, ips[from]) then [from] else []) + MatchingIndices(address, ips, from + 1)
  {
  }

  /** The entries of `ms` are those of `ips` at the strictly increasing positions `idx`, all from `from` on. */
  predicate PickedInOrder(ips: seq<IfAddr>, ms: seq<IfAddr>, idx: seq<nat>, from: nat) {
    |idx| == |ms| &&
    (forall k :: 0 <= k < |idx| ==> from <= idx[k] < |ips| && ips[idx[k]] == ms[k]) &&
    (forall k, l :: 0 <= k < l < |idx| ==> idx[k] < idx[l])
  }

  /** Picking position `from` in front of picks made after it keeps them in order. */
  lemma PickFront(ips: seq<IfAddr>, ms: seq<IfAddr>, idx: seq<nat>, from: nat)
    requires from < |ips| && PickedInOrder(ips, ms, idx, from + 1)
    ensures PickedInOrder(ips, [ips[from]] + ms, [from] + idx, from)
  {
    var ms', idx' := [ips[from]] + ms, [from] + idx;
    assert forall k :: 1 <= k < |idx'| ==> idx'[k] == idx[k - 1] && ms'[k] == ms[k - 1];
    assert forall k :: 0 <= k < |idx'| ==> from <= idx'[k] < |ips| && ips[idx'[k]] == ms'[k];
  }

  /**
   * The filter keeps list order: the matches are the candidates at strictly
   * increasing positions.
   */
  lemma {:induction false} MatchingInOrder(address: Address, ips: seq<IfAddr>, from: nat)
    requires from <= |ips| && MatchingHostIps(address, ips[from..]).Ok?
    ensures PickedInOrder(ips, MatchingHostIps(address, ips[from..]).value, MatchingIndices(address, ips, from), from)
    decreases |ips| - from
  {
    if from == |ips| {
      assert ips[from..] == [];
    } else {
      MatchingStep(address, ips, from);
      MatchingIndicesStep(address, ips, from);
      MatchingInOrder(address, ips, from + 1);
      if InNetwork(address, ips[from]) {
        PickFront(ips, MatchingHostIps(address, ips[from + 1..]).value, MatchingIndices(address, ips, from + 1), from);
      }
    }
  }

  /** Every candidate whose network holds the address has its position listed. */
  lemma {:induction false} MatchingIndicesComplete(address: Address, ips: seq<IfAddr>, from: nat, i: int)
    requires from <= i < |ips| && InNetwork(address, ips[i])
    ensures i in MatchingIndices(address, ips, from)
    decreases |ips| - from
  {
    if from < i {
      MatchingIndicesComplete(address, ips, from + 1, i);
    }
  }

  /**
   * Of entries picked at increasing positions, one whose prefix is longer
   * than that of every entry picked before it is also longer than that of
   * every entry picked at an earlier position.
   */
  lemma EarlierPositions(ips: seq<IfAddr>, ms: seq<IfAddr>, idx: seq<int>, k: int, j: int)
    requires |idx| == |ms| && 0 <= k < |ms|
    requires forall l :: 0 <= l < |idx| ==> 0 <= idx[l] < |ips| && ips[idx[l]] == ms[l]
    requires forall l, m :: 0 <= l < m < |idx| ==> idx[l] < idx[m]
    requires forall l :: 0 <= l < k ==> ms[l].prefixlen > ms[k].prefixlen
    requires j in idx && j < idx[k]
    ensures ips[j].prefixlen > ms[k].prefixlen
  {
    var l :| 0 <= l < |idx| && idx[l] == j;
    assert l < k;
  }

  /**
   * The first match with the smallest prefix length is also the first such
   * candidate in the whole list: every matching candidate before it has a
   * longer prefix.
   */
  lemma EarliestCandidate(address: Address, ips: seq<IfAddr>, k: int)
    requires MatchingHostIps(address, ips).Ok?
    requires FirstWithSmallestPrefix(MatchingHostIps(address, ips).value, k)
    ensures var ms := MatchingHostIps(address, ips).value;
            exists i :: 0 <= i < |ips| && ips[i] == ms[k] &&
                        forall j :: 0 <= j < i && InNetwork(address, ips[j]) ==> ips[j].prefixlen > ms[k].prefixlen
  {
    var ms := MatchingHostIps(address, ips).value;
    assert ips[0..] == ips;
    MatchingInOrder(address, ips, 0);
    var idx := MatchingIndices(address, ips, 0);
    forall j | 0 <= j < idx[k] && InNetwork(address, ips[j])
      ensures ips[j].prefixlen > ms[k].prefixlen
    {
      MatchingIndicesComplete(address, ips, 0, j);
      EarlierPositions(ips, ms, idx, k, j);
    }
  }

  /** `k` is the first entry with the smallest prefix length. */
  predicate FirstWithSmallestPrefix(ms: seq<IfAddr>, k: int) {
    0 <= k < |ms| &&
    (forall j :: 0 <= j < |ms| ==> ms[k].prefixlen <= ms[j].prefixlen) &&
    (forall j :: 0 <= j < k ==> ms[j].prefixlen > ms[k].prefixlen)
  }

  /**
   * Picks, among the host addresses whose network holds the address, the one
   * with the smallest prefix length (the broadest network, despite the name),
   * the earliest of them on a tie. No match is a RuntimeError; a network that
   * cannot be computed is its error.
   */
  method IpWithMostSpecificNetworkForAddress(address: Address, ipv4Ips: seq<IfAddr>) returns (r: Result<IfAddr, PyError>)
    ensures MatchingHostIps(address, ipv4Ips).Fail? ==> r == Fail(MatchingHostIps(address, ipv4Ips).error)
    ensures MatchingHostIps(address, ipv4Ips).Ok? ==>
              var ms := MatchingHostIps(address, ipv4Ips).value;
              (ms == [] ==> r == Fail(RuntimeError)) &&
              (ms != [] ==> r.Ok? && exists k :: FirstWithSmallestPrefix(ms, k) && r.value == ms[k])
    ensures r.Ok? ==> r.value in ipv4Ips && InNetwork(address, r.value)
    ensures r.Ok? ==> forall x :: x in ipv4Ips && InNetwork(address, x) ==> r.value.prefixlen <= x.prefixlen
    ensures r.Ok? ==> exists i :: 0 <= i < |ipv4Ips| && ipv4Ips[i] == r.value &&
                                 forall j :: 0 <= j < i && InNetwork(address, ipv4Ips[j]) ==>
                                               ipv4Ips[j].prefixlen > r.value.prefixlen
    ensures r.Fail? && r.error == RuntimeError && MatchingHostIps(address, ipv4Ips).Ok? ==>
              forall x :: x in ipv4Ips ==> !InNetwork(address, x)
  {
    var matching := MatchingHostIps(address, ipv4Ips);
    if matching.Fail? {
      return Fail(matching.error);
    }
    var hostIps := matching.value;
    var best: Option<IfAddr> := None;
    ghost var k := 0;
    for i := 0 to |hostIps|
      invariant best.None? <==> i == 0
      invariant best.Some? ==> 0 <= k < i && best.value == hostIps[k]
      invariant best.Some? ==> forall j :: 0 <= j < i ==> hostIps[k].prefixlen <= hostIps[j].prefixlen
      invariant best.Some? ==> forall j :: 0 <= j < k ==> hostIps[j].prefixlen > hostIps[k].prefixlen
    {
      var hostIp := hostIps[i];
      if best.None? {
        best := Some(hostIp);
        k := i;
      } else if hostIp.prefixlen < best.value.prefixlen {
        best := Some(hostIp);
        k := i;
      }
    }
    if best.None? {
      return Fail(RuntimeError);
    }
    assert FirstWithSmallestPrefix(hostIps, k);
    EarliestCandidate(address, ipv4Ips, k);
    r := Ok(best.value);
    forall x | x in ipv4Ips && InNetwork(address, x)
      ensures r.value.prefixlen <= x.prefixlen
    {
      var j :| 0 <= j < |hostIps| && hostIps[j] == x;
    }
  }

  // ---------------------------------------------------------------------------
  // generate_mac_address, after the digest is computed

  /** SHA-1 digests are 20 bytes long. */
  const SHA1_DIGEST_SIZE: nat := 20

  const HEX_DIGITS: string := "0123456789abcdef"

  function HexDigit(n: bv8): (c: char)
    requires n < 16
  {
    HEX_DIGITS[n as int]
  }

  /** An octet as two lower-case hex digits, as `'%02x' % n` writes it. */
  function Hex2(b: bv8): (s: string)
    ensures |s| == 2
  {
    [HexDigit(b >> 4), HexDigit(b & 0xF)]
  }

  /** The octets as hex pairs joined by ':'. */
  function FormatMac(octets: seq<bv8>): (s: string)
    requires octets != []
    ensures |s| == 3 * |octets| - 1
  {
    if |octets| == 1 then Hex2(octets[0]) else Hex2(octets[0]) + ":" + FormatMac(octets[1..])
  }

  /** The value of a lower-case hex digit. */
  function HexValue(c: char): Option<bv8> {
    if '0' <= c <= '9' then Some((c as int - '0' as int) as bv8)
    else if 'a' <= c <= 'f' then Some((c as int - 'a' as int + 10) as bv8)
    else None
  }

  function ParseHex2(s: string): (r: Option<bv8>)
    requires |s| == 2
  {
    match (HexValue(s[0]), HexValue(s[1]))
    case (Some(hi), Some(lo)) => Some(hi * 16 + lo)
    case _ => None
  }

  /** Reads back colon-separated pairs of lower-case hex digits. */
  function ParseMac(s: string): (r: Option<seq<bv8>>)
    decreases |s|
  {
    if |s| == 2 then
      match ParseHex2(s)
      case Some(b) => Some([b])
      case None => None
    else if |s| > 3 && s[2] == ':' then
      match (ParseHex2(s[..2]), ParseMac(s[3..]))
      case (Some(b), Some(bs)) => Some([b] + bs)
      case _ => None
    else None
  }

  lemma HexDigitValue(n: bv8)
    requires n < 16
    ensures HexValue(HexDigit(n)) == Some(n)
  {
  }

  lemma ParseHex2Of(b: bv8)
    ensures ParseHex2(Hex2(b)) == Some(b)
  {
    HexDigitValue(b >> 4);
    HexDigitValue(b & 0xF);
    assert (b >> 4) * 16 + (b & 0xF) == b;
  }

  /** Formatting then parsing gives the octets back. */
  lemma {:induction false} ParseFormatMac(octets: seq<bv8>)
    requires octets != []
    ensures ParseMac(FormatMac(octets)) == Some(octets)
    decreases |octets|
  {
    var s := FormatMac(octets);
    ParseHex2Of(octets[0]);
    if |octets| > 1 {
      assert s[2] == ':' && |s| > 3;
      assert s[..2] == Hex2(octets[0]);
      assert s[3..] == FormatMac(octets[1..]);
      ParseFormatMac(octets[1..]);
      assert ParseHex2(s[..2]) == Some(octets[0]);
      assert ParseMac(s) == Some([octets[0]] + octets[1..]);
      assert [octets[0]] + octets[1..] == octets;
    } else {
      assert octets == [octets[0]];
    }
  }

  /**
   * The MAC address for a digest: its first six bytes, with the multicast bit
   * of the first byte cleared and the locally administered bit set, written
   * as six colon-separated pairs of lower-case hex digits.
   */
  method GenerateMacAddress(digest: seq<bv8>) returns (mac: string)
    requires |digest| == SHA1_DIGEST_SIZE
    ensures |mac| == 17
    ensures forall i :: 0 <= i < 17 ==> (mac[i] == ':' <==> i % 3 == 2)
    ensures ParseMac(mac).Some? && |ParseMac(mac).value| == 6
    ensures var octets := ParseMac(mac).value;
            octets[0] & 0x01 == 0 && octets[0] & 0x02 == 0x02 &&
            octets[0] & 0xFC == digest[0] & 0xFC && octets[1..] == digest[1..6]
  {
    var macAddressBytes := new bv8[6](i requires 0 <= i < 6 => digest[i]);
    macAddressBytes[0] := macAddressBytes[0] & 0xFE;
    macAddressBytes[0] := macAddressBytes[0] | 0x02;
    mac := FormatMac(macAddressBytes[..]);
    ParseFormatMac(macAddressBytes[..]);
    MacColons(macAddressBytes[..]);
  }

  /** A formatted address has its separators exactly at every third position. */
  lemma {:induction false} MacColons(octets: seq<bv8>)
    requires octets != []
    ensures forall i :: 0 <= i < |FormatMac(octets)| ==> (FormatMac(octets)[i] == ':' <==> i % 3 == 2)
    decreases |octets|
  {
    var s := FormatMac(octets);
    assert HexDigit((octets[0] >> 4)) != ':' && HexDigit(octets[0] & 0xF) != ':';
    if |octets| > 1 {
      MacColons(octets[1..]);
      var t := FormatMac(octets[1..]);
      assert forall i :: 3 <= i < |s| ==> s[i] == t[i - 3];
    }
  }
}
