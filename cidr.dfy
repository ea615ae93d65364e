/**
 * parseCidr and expandCidr of the discovery helper: prefix notation a.b.c.d/p
 * (section 3.1 of RFC 4632) and the list of host addresses strictly between the
 * network and broadcast addresses of the block, computed with the JavaScript
 * 32-bit operators the helper uses.
 */
module Cidr {
  import opened Wrappers
  import opened JsText
  import opened JsNumber
  import opened Ipv4

  /** The { ip, prefix } record parseCidr returns. */
  datatype Block = Block(ip: string, prefix: nat)

  /** Between one and `most` decimal digits (the regex piece \d{1,most}). */
  predicate DigitRun(s: string, most: nat) {
    1 <= |s| <= most && AllDigits(s)
  }

  /** The regex piece \d{1,3}(?:\.\d{1,3}){3}: four dot-separated runs of one to three digits. */
  predicate IsQuadText(ip: string) {
    var octets := Split(ip, '.');
    |octets| == 4 && forall i :: 0 <= i < 4 ==> DigitRun(octets[i], 3)
  }

  /**
   * parseCidr: null for a missing or empty argument, for text that is not
   * `quad/digits` with one or two prefix digits, and for a prefix above 32.
   * What it accepts is exactly the ip text, a '/', and the prefix digits.
   */
  function ParseCidr(cidr: Option<string>): (r: Option<Block>)
    ensures r.Some? ==> cidr.Some? && IsQuadText(r.value.ip) && r.value.prefix <= 32
    ensures r.Some? ==>
      var n := |r.value.ip|;
      n + 1 < |cidr.value| && cidr.value[..n + 1] == r.value.ip + "/"
      && DigitRun(cidr.value[n + 1..], 2) && DigitsValue(cidr.value[n + 1..]) == r.value.prefix
  {
    if cidr.None? || cidr.value == "" then None
    else
      var halves := Split(cidr.value, '/');
      if |halves| != 2 || !IsQuadText(halves[0]) || !DigitRun(halves[1], 2) then None
      else
        var prefix := ParseInt(halves[1]);
        assert prefix == Int(DigitsValue(halves[1])) by { ParseIntOfDigits(halves[1]); }
        if prefix.value < 0 || prefix.value > 32 then None
        else
          assert cidr.value == halves[0] + "/" + halves[1] by { JoinSplit(cidr.value, '/'); }
          Some(Block(halves[0], prefix.value))
  }

  lemma ParseIntOfDigits(s: string)
    requires s != [] && AllDigits(s)
    ensures ParseInt(s) == Int(DigitsValue(s))
  {
    TrimStartOfDigits(s);
    assert s[0] != '-' && s[0] != '+';
    LeadingDigitsOfDigits(s);
  }

  /** The text of a quad has no '/' in it. */
  lemma NoSlashInQuad(ip: string)
    requires IsQuadText(ip)
    ensures '/' !in ip
  {
    var o := Split(ip, '.');
    JoinSplit(ip, '.');
    assert o[1..][1..] == o[2..] && o[2..][1..] == o[3..] && o[3..] == [o[3]];
    assert Join(o[3..], '.') == o[3];
    assert Join(o[2..], '.') == o[2] + ['.'] + o[3];
    assert Join(o[1..], '.') == o[1] + ['.'] + (o[2] + ['.'] + o[3]);
    assert ip == o[0] + ['.'] + (o[1] + ['.'] + (o[2] + ['.'] + o[3]));
    forall i | 0 <= i < 4 ensures '/' !in o[i] {
      NoSlashInDigits(o[i]);
    }
  }

  lemma NoSlashInDigits(s: string)
    requires AllDigits(s)
    ensures '/' !in s
  {
    forall j | 0 <= j < |s| ensures s[j] != '/' {
      assert IsDigit(s[j]);
    }
  }

  /** parseCidr accepts every `quad/digits` text and reads the prefix from the digits. */
  lemma ParseCidrAccepts(ip: string, raw: string)
    requires IsQuadText(ip) && DigitRun(raw, 2)
    ensures ParseCidr(Some(ip + "/" + raw))
         == if DigitsValue(raw) <= 32 then Some(Block(ip, DigitsValue(raw))) else None
  {
    NoSlashInQuad(ip);
    NoSlashInDigits(raw);
    SplitAround(ip, '/', raw);
    SplitWithout(ip, '/');
    SplitWithout(raw, '/');
    assert ip + "/" + raw == ip + ['/'] + raw;
    ParseIntOfDigits(raw);
  }

  /** The decimal text of a byte is one to three digits. */
  lemma ByteText(n: nat)
    requires n < 256
    ensures DigitRun(NatToString(n), 3)
  {
    if n >= 10 {
      assert NatToString(n) == NatToString(n / 10) + [DigitChar(n % 10)];
    }
  }

  lemma PrefixText(p: nat)
    requires p < 100
    ensures DigitRun(NatToString(p), 2)
  {
    if p >= 10 {
      assert NatToString(p) == NatToString(p / 10) + [DigitChar(p % 10)];
    }
  }

  /** The canonical text a.b.c.d/p parses back to its address and prefix when p <= 32. */
  lemma ParseCidrOfCanonical(a: nat, b: nat, c: nat, d: nat, p: nat)
    requires a < 256 && b < 256 && c < 256 && d < 256 && p < 100
    ensures ParseCidr(Some(DottedQuad(a, b, c, d) + "/" + NatToString(p)))
         == if p <= 32 then Some(Block(DottedQuad(a, b, c, d), p)) else None
  {
    var ip := DottedQuad(a, b, c, d);
    SplitDottedQuad(a, b, c, d);
    ByteText(a);
    ByteText(b);
    ByteText(c);
    ByteText(d);
    assert IsQuadText(ip);
    PrefixText(p);
    DigitsValueOfNatToString(p);
    ParseCidrAccepts(ip, NatToString(p));
  }

  // ---------------------------------------------------------------------------
  // expandCidr

  /** The mask of the prefix: 0 for /0, otherwise (0xffffffff << (32 - p)) >>> 0. */
  function MaskOf(prefix: nat): nat
    requires prefix <= 32
  {
    if prefix == 0 then 0 else ToUint32(JsShl(0xffff_ffff, 32 - prefix))
  }

  /** The network (base & mask) and broadcast (network | (~mask >>> 0)) as the helper computes them. */
  datatype Range = Range(network: int, broadcast: int)

  function RangeOf(block: Block): Range
    requires block.prefix <= 32
  {
    RangeOfBase(IpToInt(block.ip), block.prefix)
  }

  function RangeOfBase(base: int, prefix: nat): Range
    requires prefix <= 32
  {
    var network := JsAnd(base, MaskOf(prefix));
    Range(network, JsOr(network, ToUint32(JsNot(MaskOf(prefix)))))
  }

  /** The unsigned network address of base under prefix p: base with its low 32 - p bits cleared. */
  function NetworkBase(base: nat, prefix: nat): nat
    requires prefix <= 32
  {
    base - base % Pow2(32 - prefix)
  }

  /** The number of integers strictly between network and broadcast. */
  function HostCount(r: Range): nat {
    if r.broadcast - r.network - 1 > 0 then r.broadcast - r.network - 1 else 0
  }

  /** The count integers from start on, in increasing order. */
  function Span(start: int, count: nat): seq<int> {
    seq(count, i => start + i)
  }

  /** intToIp of each value, in order. */
  function Texts(values: seq<int>): seq<string> {
    seq(|values|, i requires 0 <= i < |values| => IntToIp(values[i]))
  }

  /** Each value read as an unsigned 32-bit integer (x >>> 0). */
  function Unsigned(values: seq<int>): seq<int> {
    seq(|values|, i requires 0 <= i < |values| => ToUint32(values[i]))
  }

  /** hosts lists intToIp of every integer strictly between network and broadcast, in order. */
  predicate ListsRange(hosts: seq<string>, r: Range) {
    hosts == Texts(Span(r.network + 1, HostCount(r)))
  }

  /** The unsigned network and broadcast address of the /p block of base. */
  function BlockRange(base: nat, p: nat): Range
    requires p <= 32
  {
    Range(NetworkBase(base, p), NetworkBase(base, p) + Pow2(32 - p) - 1)
  }

  /**
   * hosts are the addresses of the block of base other than its network and
   * broadcast address, in ascending order (BlockHostCount, BlockHostValues
   * and BlockHostReadBack state what that amounts to).
   */
  predicate BlockHosts(hosts: seq<string>, base: nat, p: nat)
    requires 1 <= p <= 31
  {
    ListsRange(hosts, BlockRange(base, p))
  }

  /** The counting loop of expandCidr: intToIp of every integer strictly between network and broadcast. */
  method HostsBetween(network: int, broadcast: int) returns (hosts: seq<string>)
    ensures ListsRange(hosts, Range(network, broadcast))
  {
    hosts := [];
    var current := network + 1;
    while current < broadcast
      invariant current == network + 1 + |hosts|
      invariant |hosts| > 0 ==> current <= broadcast
      invariant hosts == Texts(Span(network + 1, |hosts|))
      decreases broadcast - current
    {
      NextText(network + 1, |hosts|);
      hosts := hosts + [IntToIp(current)];
      current := current + 1;
    }
  }

  /**
   * expandCidr: no hosts for text parseCidr rejects; otherwise intToIp of every
   * integer strictly between the network and broadcast values computed with
   * the 32-bit operators. For /0 (whose broadcast is the signed -1), /31 and
   * /32 that is nothing; for /1../31 it is the block's host addresses.
   */
  method ExpandCidr(cidr: Option<string>) returns (hosts: seq<string>)
    ensures ParseCidr(cidr).None? ==> hosts == []
    ensures ParseCidr(cidr).Some? ==> ListsRange(hosts, RangeOf(ParseCidr(cidr).value))
    ensures ParseCidr(cidr).Some? && ParseCidr(cidr).value.prefix in {0, 31, 32} ==> hosts == []
    ensures ParseCidr(cidr).Some? && 1 <= ParseCidr(cidr).value.prefix <= 31 ==>
      BlockHosts(hosts, IpToInt(ParseCidr(cidr).value.ip), ParseCidr(cidr).value.prefix)
  {
    var parsed := ParseCidr(cidr);
    if parsed.None? {
      return [];
    }
    var baseInt := IpToInt(parsed.value.ip);
    var mask := if parsed.value.prefix == 0 then 0 else ToUint32(JsShl(0xffff_ffff, 32 - parsed.value.prefix));
    var network := JsAnd(baseInt, mask);
    var broadcast := JsOr(network, ToUint32(JsNot(mask)));
    hosts := HostsBetween(network, broadcast);
    assert RangeOf(parsed.value) == Range(network, broadcast);
    ExpandedBlock(parsed.value, hosts);
  }

  /** What the listed range of a parsed block is, prefix by prefix. */
  lemma ExpandedBlock(block: Block, hosts: seq<string>)
    requires block.prefix <= 32 && ListsRange(hosts, RangeOf(block))
    ensures block.prefix == 0 || block.prefix == 31 || block.prefix == 32 ==> hosts == []
    ensures 1 <= block.prefix <= 31 ==> BlockHosts(hosts, IpToInt(block.ip), block.prefix)
  {
    ExpandedValues(IpToInt(block.ip), block.prefix, hosts);
  }

  /** The same, for the integer value of the block's address. */
  lemma ExpandedValues(base: nat, p: nat, hosts: seq<string>)
    requires base < TWO32 && p <= 32
    requires ListsRange(hosts, RangeOfBase(base, p))
    ensures p == 0 || p == 31 || p == 32 ==> hosts == []
    ensures 1 <= p <= 31 ==> BlockHosts(hosts, base, p)
  {
    var r := RangeOfBase(base, p);
    if p == 0 || p == 32 {
      NoHostsOfRange(base, p, hosts);
    } else {
      RangeOfPrefix(base, p);
      HostsOfRange(base, p, hosts, r.network, r.broadcast);
      BlockHostCount(hosts, base, p);
      assert p == 31 ==> Pow2(32 - p) == 2;
    }
  }

  /** Reading back a printed address below 2^32 gives the address. */
  lemma ReadBack(text: string, n: nat)
    requires text == IntToIp(n) && n < TWO32
    ensures IpToInt(text) == n
  {
    IpToIntOfIntToIp(n);
  }

  /** /0 and /32 list no hosts: the broadcast is not above the network address. */
  lemma NoHostsOfRange(base: nat, p: nat, hosts: seq<string>)
    requires base < TWO32 && (p == 0 || p == 32)
    requires |hosts| == HostCount(RangeOfBase(base, p))
    ensures hosts == []
  {
    if p == 0 {
      RangeOfPrefixZero(base);
    } else {
      RangeOfPrefix(base, p);
      assert Pow2(0) == 1;
    }
  }

  /** For /1 to /31 the listed range is the hosts of the block. */
  lemma HostsOfRange(base: nat, p: nat, hosts: seq<string>, network: int, broadcast: int)
    requires base < TWO32 && 1 <= p <= 31
    requires ToUint32(network) == NetworkBase(base, p) && network <= NetworkBase(base, p)
    requires broadcast - network == Pow2(32 - p) - 1
    requires NetworkBase(base, p) + Pow2(32 - p) <= TWO32
    requires ListsRange(hosts, Range(network, broadcast))
    ensures BlockHosts(hosts, base, p)
  {
    assert Pow2(32 - p) >= 2 by { Pow2Monotone(1, 32 - p); }
    ListsBlock(hosts, network, broadcast, NetworkBase(base, p), Pow2(32 - p));
  }

  /** One more value adds its text at the end. */
  lemma NextText(start: int, count: nat)
    ensures Texts(Span(start, count + 1)) == Texts(Span(start, count)) + [IntToIp(start + count)]
  {
    assert Span(start, count + 1) == Span(start, count) + [start + count];
  }

  /** A listing counted from the signed network value is the listing counted from its unsigned value. */
  lemma ListsBlock(hosts: seq<string>, network: int, broadcast: int, net: nat, size: nat)
    requires ToUint32(network) == net && broadcast - network == size - 1 && size >= 2 && net + size <= TWO32
    requires ListsRange(hosts, Range(network, broadcast))
    ensures ListsRange(hosts, Range(net, net + size - 1))
  {
    TextsUnsigned(Span(network + 1, size - 2));
    UnsignedSpan(network, net, size - 2);
  }

  /** intToIp reads its argument as an unsigned 32-bit integer. */
  lemma TextsUnsigned(values: seq<int>)
    ensures Texts(values) == Texts(Unsigned(values))
  {
    forall i | 0 <= i < |values| ensures Texts(values)[i] == Texts(Unsigned(values))[i] {
      IntToIpUnsigned(values[i]);
    }
  }

  /** Counting up from the signed network value visits the unsigned addresses after it. */
  lemma UnsignedSpan(network: int, net: nat, count: nat)
    requires ToUint32(network) == net && net + count < TWO32
    ensures Unsigned(Span(network + 1, count)) == Span(net + 1, count)
  {
    var values := Unsigned(Span(network + 1, count));
    forall i | 0 <= i < count ensures values[i] == net + 1 + i {
      HostOffset(network, net, i);
    }
  }

  /** /0: the mask is 0, the network 0 and the broadcast the signed -1. */
  lemma RangeOfPrefixZero(base: int)
    ensures RangeOfBase(base, 0) == Range(0, -1)
  {
    assert ToUint32(0) == 0;
    assert JsNot(0) == -1;
    assert ToUint32(-1) == TWO32 - 1 by { DivModUnique(-1, TWO32, -1, TWO32 - 1); }
    assert BitOr(0, TWO32 - 1) == TWO32 - 1;
  }

  /** For a prefix of 1 to 32 the range spans exactly the 2^(32-p) addresses of the block. */
  lemma RangeOfPrefix(base: nat, p: nat)
    requires base < TWO32 && 1 <= p <= 32
    ensures var r := RangeOfBase(base, p);
      var net := NetworkBase(base, p);
      ToUint32(r.network) == net && net % Pow2(32 - p) == 0
      && r.broadcast - r.network == Pow2(32 - p) - 1
      && r.network <= net && net + Pow2(32 - p) <= TWO32
  {
    var k := 32 - p;
    var net := NetworkBase(base, p);
    assert net % Pow2(k) == 0 by {
      DivModUnique(net, Pow2(k), base / Pow2(k), 0);
    }
    MaskValue(p);
    NetworkValue(base, p);
    HostMaskValue(p);
    BroadcastValue(net, k);
    SameHalf(net, k);
    var r := RangeOfBase(base, p);
    assert r.network == ToInt32(net);
    assert r.broadcast == ToInt32(net + Pow2(k) - 1);
    assert ToUint32(r.network) == net by { ModOfSmall(net, TWO32); }
  }

  /** The mask of a prefix p >= 1 is 2^32 - 2^(32-p). */
  lemma MaskValue(p: nat)
    requires 1 <= p <= 32
    ensures MaskOf(p) == TWO32 - Pow2(32 - p) && Pow2(32 - p) <= TWO31
  {
    var k := 32 - p;
    Pow2Monotone(k, 31);
    Pow2Values();
    assert ToInt32(0xffff_ffff) == -1 by { ModOfSmall(0xffff_ffff, TWO32); }
    assert k % 32 == k by { ModOfSmall(k, 32); }
    assert JsShl(0xffff_ffff, k) == ToInt32(-(Pow2(k) as int));
    DivModUnique(-(Pow2(k) as int), TWO32, -1, TWO32 - Pow2(k));
  }

  /** base & mask is the network address, read as a signed int32. */
  lemma NetworkValue(base: nat, p: nat)
    requires base < TWO32 && 1 <= p <= 32
    requires MaskOf(p) == TWO32 - Pow2(32 - p)
    ensures JsAnd(base, MaskOf(p)) == ToInt32(NetworkBase(base, p))
  {
    MaskedBase(base, 32 - p, MaskOf(p));
  }

  /** base & (2^32 - 2^k) clears the low k bits of base. */
  lemma MaskedBase(base: nat, k: nat, mask: nat)
    requires base < TWO32 && k < 32 && mask == TWO32 - Pow2(k)
    ensures JsAnd(base, mask) == ToInt32(base - base % Pow2(k))
  {
    UnsignedAnd(base, mask);
    HighMaskOf(base, k, mask);
    ClearLowValue(base, k);
  }

  lemma UnsignedAnd(a: nat, b: nat)
    requires a < TWO32 && b < TWO32
    ensures JsAnd(a, b) == ToInt32(BitAnd(a, b))
  {
    ModOfSmall(a, TWO32);
    ModOfSmall(b, TWO32);
  }

  lemma HighMaskOf(base: nat, k: nat, mask: nat)
    requires base < TWO32 && k < 32 && mask == TWO32 - Pow2(k)
    ensures BitAnd(base, mask) == ClearLow(base, k)
  {
    Pow2Values();
    BitAndHighMask(base, 32, k, mask);
  }


  /** ~mask >>> 0 is the host mask 2^(32-p) - 1. */
  lemma HostMaskValue(p: nat)
    requires 1 <= p <= 32
    requires MaskOf(p) == TWO32 - Pow2(32 - p) && Pow2(32 - p) <= TWO31
    ensures ToUint32(JsNot(MaskOf(p))) == Pow2(32 - p) - 1
  {
    var m := MaskOf(p);
    var h := Pow2(32 - p);
    assert ToInt32(m) == -(h as int) by { ModOfSmall(m, TWO32); }
    assert ToInt32(h - 1) == h - 1 by { ModOfSmall(h - 1, TWO32); }
    ModOfSmall(h - 1, TWO32);
  }

  /** network | hostmask fills the host bits of the network address. */
  lemma BroadcastValue(net: nat, k: nat)
    requires net < TWO32 && net % Pow2(k) == 0 && Pow2(k) <= TWO31
    ensures JsOr(ToInt32(net), Pow2(k) - 1) == ToInt32(net + Pow2(k) - 1)
  {
    ModOfSmall(net, TWO32);
    ModOfSmall(Pow2(k) - 1, TWO32);
    BitOrLowMask(net, k);
  }

  /**
   * The network address of a block of 2^k addresses (k <= 31) and its last
   * address lie on the same side of 2^31, so their signed values differ by 2^k - 1.
   */
  lemma SameHalf(net: nat, k: nat)
    requires net < TWO32 && net % Pow2(k) == 0 && Pow2(k) <= TWO31
    ensures net + Pow2(k) <= TWO32
    ensures ToInt32(net + Pow2(k) - 1) - ToInt32(net) == Pow2(k) - 1
    ensures ToInt32(net) <= net
  {
    var d := Pow2(k);
    Pow2Values();
    assert k <= 31 by {
      if k > 31 { Pow2Monotone(32, k); }
    }
    assert TWO31 % d == 0 by {
      Pow2Add(k, 31 - k);
      DivModUnique(TWO31, d, Pow2(31 - k), 0);
    }
    assert TWO32 % d == 0 by {
      Pow2Add(k, 32 - k);
      DivModUnique(TWO32, d, Pow2(32 - k), 0);
    }
    NextMultiple(net, TWO32, d);
    var last := net + d - 1;
    ModOfSmall(net, TWO32);
    ModOfSmall(last, TWO32);
    if net < TWO31 {
      NextMultiple(net, TWO31, d);
      assert ToInt32(net) == net;
      assert ToInt32(last) == last;
    } else {
      assert ToInt32(net) == net - TWO32;
      assert ToInt32(last) == last - TWO32;
    }
  }

  /** Between two multiples of d there are at least d integers. */
  lemma NextMultiple(x: int, m: int, d: int)
    requires d > 0 && x % d == 0 && m % d == 0 && x < m
    ensures x + d <= m
  {
    var q := m / d - x / d;
    assert m - x == d * q;
    MulAtLeast(d, q);
  }

  /**
   * The i-th host of a /1../31 block lies strictly between the network and
   * broadcast addresses and keeps the network bits of base.
   */
  lemma BlockHostValues(base: nat, p: nat, i: nat)
    requires base < TWO32 && 1 <= p <= 31 && i < Pow2(32 - p) - 2
    ensures var net := NetworkBase(base, p);
      var size := Pow2(32 - p);
      net < net + 1 + i < net + size - 1 < TWO32 && (net + 1 + i) / size == base / size
  {
    NetworkBounds(base, p);
    HostPrefix(base, Pow2(32 - p), NetworkBase(base, p), i);
  }

  /** The block of base is aligned to its size and lies below 2^32. */
  lemma NetworkBounds(base: nat, p: nat)
    requires base < TWO32 && 1 <= p <= 32
    ensures var net := NetworkBase(base, p);
      var size := Pow2(32 - p);
      net % size == 0 && net <= base < net + size && net + size <= TWO32
  {
    var k := 32 - p;
    var d := Pow2(k);
    var net := NetworkBase(base, p);
    DivModUnique(net, d, base / d, 0);
    assert TWO32 % d == 0 by {
      Pow2Values();
      Pow2Add(k, p);
      DivModUnique(TWO32, d, Pow2(p), 0);
    }
    NextMultiple(net, TWO32, d);
  }

  /** Each listed host reads back as its unsigned address: the list is strictly ascending. */
  lemma BlockHostReadBack(hosts: seq<string>, base: nat, p: nat, i: nat)
    requires base < TWO32 && 1 <= p <= 31 && BlockHosts(hosts, base, p) && i < |hosts|
    ensures IpToInt(hosts[i]) == NetworkBase(base, p) + 1 + i
  {
    BlockHostValues(base, p, i);
    HostsReadBack(hosts, BlockRange(base, p), i);
  }

  lemma HostsReadBack(hosts: seq<string>, r: Range, i: nat)
    requires ListsRange(hosts, r) && i < |hosts|
    requires 0 <= r.network && r.network + 1 + i < TWO32
    ensures IpToInt(hosts[i]) == r.network + 1 + i
  {
    ReadBack(hosts[i], r.network + 1 + i);
  }


  /** A /1../31 block lists 2^(32-p) - 2 hosts. */
  lemma BlockHostCount(hosts: seq<string>, base: nat, p: nat)
    requires 1 <= p <= 31 && BlockHosts(hosts, base, p)
    ensures |hosts| == Pow2(32 - p) - 2
  {
    Pow2Monotone(1, 32 - p);
  }



  /** Counting up from the signed network value visits the unsigned addresses after it. */
  lemma HostOffset(network: int, net: nat, i: nat)
    requires ToUint32(network) == net && net + 1 + i < TWO32
    ensures ToUint32(network + 1 + i) == net + 1 + i
  {
    var q := network / TWO32;
    assert network == TWO32 * q + net;
    DivModUnique(network + 1 + i, TWO32, q, net + 1 + i);
  }

  /** An offset below the block size keeps the network bits of the base. */
  lemma HostPrefix(base: nat, d: nat, net: int, i: nat)
    requires d >= 1 && 1 + i < d && net == base - base % d
    ensures (net + 1 + i) / d == base / d
  {
    assert net == d * (base / d);
    DivModUnique(net + 1 + i, d, base / d, 1 + i);
  }
}
