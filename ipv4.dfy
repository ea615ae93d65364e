/**
 * Dotted-quad IPv4 helpers of the discovery helper: countBits, ipToInt, intToIp,
 * netmaskToPrefix and isPrivate, with the JavaScript 32-bit operator semantics
 * they are written in.
 */
module Ipv4 {
  import opened Wrappers
  import opened JsText
  import opened JsNumber

  /** countBits: the number of pieces of n.toString(2) split at '1', minus one. */
  function CountBits(n: nat): nat {
    |Split(BinaryString(n), '1')| - 1
  }

  /** countBits counts the one bits. */
  lemma CountBitsIsPopcount(n: nat)
    ensures CountBits(n) == Popcount(n)
  {
    OnesInBinaryString(n);
  }

  /** One step of the reduce in ipToInt: (acc << 8) + Number.parseInt(octet, 10). */
  function OctetStep(acc: Num, octet: string): Num {
    AddNum(JsShlNum(acc, 8), ParseInt(octet))
  }

  function FoldOctets(parts: seq<string>, acc: Num): Num {
    if parts == [] then acc else FoldOctets(parts[1..], OctetStep(acc, parts[0]))
  }

  /** ipToInt: fold the dot-separated parts from 0, then `>>> 0`. */
  function IpToInt(ip: string): (r: nat)
    ensures r < TWO32
  {
    ToUint32Num(FoldOctets(Split(ip, '.'), Int(0)))
  }

  /**
   * The byte (int >>> shift) & 0xff of intToIp, with the mask written as the
   * remainder modulo 256; OctetIsShiftAndMask proves the two equal.
   */
  function Octet(n: int, shift: nat): (o: nat)
    ensures o < 256
  {
    JsUShr(n, shift) % 256
  }

  /** Octet agrees with (n >>> shift) & 0xff on the JavaScript operators. */
  lemma OctetIsShiftAndMask(n: int, shift: nat)
    ensures Octet(n, shift) == JsAnd(JsUShr(n, shift), 0xff)
  {
    OctetMask(JsUShr(n, shift));
  }

  lemma OctetMask(u: nat)
    ensures JsAnd(u, 0xff) == u % 256
  {
    Pow2Values();
    BitAndLowMask(ToUint32(u), 8);
    ModOfSmall(0xff, TWO32);
    ModOfSmall(ToUint32(u) % 256, TWO32);
    if u < TWO32 {
      ModOfSmall(u, TWO32);
    } else {
      DivModUnique(u % 256, 256, 0, u % 256);
      ModOfMod(u);
    }
  }

  lemma ModOfMod(u: nat)
    ensures u % TWO32 % 256 == u % 256
  {
    var q := u / TWO32;
    assert u == TWO32 * q + u % TWO32;
    DivModUnique(u, 256, 0x100_0000 * q + (u % TWO32) / 256, u % TWO32 % 256);
  }

  /** intToIp: the four bytes of n, most significant first, joined with '.'. */
  function IntToIp(n: int): string {
    Join([NatToString(Octet(n, 24)), NatToString(Octet(n, 16)),
          NatToString(Octet(n, 8)), NatToString(Octet(n, 0))], '.')
  }

  /** netmaskToPrefix: the number of one bits of the mask. */
  function NetmaskToPrefix(netmask: string): nat {
    CountBits(IpToInt(netmask))
  }

  /** isPrivate: "10.", "192.168." or "172." followed by a second part 16..31; null or "" is not. */
  function IsPrivate(ip: Option<string>): bool {
    if ip.None? || ip.value == "" then false
    else if StartsWith(ip.value, "10.") then true
    else if StartsWith(ip.value, "192.168.") then true
    else if StartsWith(ip.value, "172.") then
      var parts := Split(ip.value, '.');
      assert |parts| >= 2 by { DotCounted(ip.value, 3); }
      var second := ParseInt(parts[1]);
      second.Int? && 16 <= second.value <= 31
    else false
  }

  lemma DotCounted(s: string, i: nat)
    requires i < |s| && s[i] == '.'
    ensures Count(s, '.') >= 1
  {
    if i > 0 {
      DotCounted(s[1..], i - 1);
    }
  }

  // ---------------------------------------------------------------------------
  // The canonical dotted quad and the arithmetic value of an address

  const Dot: char := '.'

  /** The canonical text of the address a.b.c.d (decimal octets, no leading zeros). */
  function DottedQuad(a: nat, b: nat, c: nat, d: nat): string {
    Join([NatToString(a), NatToString(b), NatToString(c), NatToString(d)], '.')
  }

  function QuadValue(a: nat, b: nat, c: nat, d: nat): nat {
    a * 0x100_0000 + b * 0x1_0000 + c * 0x100 + d
  }

  lemma NoDotInDigits(s: string)
    requires AllDigits(s)
    ensures '.' !in s
  {
    forall i | 0 <= i < |s| ensures s[i] != '.' {
      assert IsDigit(s[i]);
    }
  }

  lemma SplitDottedQuad(a: nat, b: nat, c: nat, d: nat)
    ensures Split(DottedQuad(a, b, c, d), '.')
         == [NatToString(a), NatToString(b), NatToString(c), NatToString(d)]
  {
    var parts := [NatToString(a), NatToString(b), NatToString(c), NatToString(d)];
    forall i | 0 <= i < 4 ensures '.' !in parts[i] {
      NoDotInDigits(parts[i]);
    }
    SplitJoin(parts, '.');
  }

  /** One reduce step on an accumulator below 2^24 and a part that parses to o. */
  lemma OctetStepOfParsed(acc: nat, text: string, o: nat)
    requires acc < 0x100_0000 && ParseInt(text) == Int(o)
    ensures OctetStep(Int(acc), text) == Int(ToInt32(acc * 256) + o)
  {
    Pow2Values();
    assert ToInt32(acc) == acc by { ModOfSmall(acc, TWO32); }
    assert JsShl(acc, 8) == ToInt32(acc * 256);
  }

  lemma ToInt32Small(x: int)
    requires 0 <= x < TWO31
    ensures ToInt32(x) == x
  {
    ModOfSmall(x, TWO32);
  }

  /** ipToInt reads the canonical text of a.b.c.d as its 32-bit value. */
  lemma {:induction false} IpToIntOfDottedQuad(a: nat, b: nat, c: nat, d: nat)
    requires a < 256 && b < 256 && c < 256 && d < 256
    ensures IpToInt(DottedQuad(a, b, c, d)) == QuadValue(a, b, c, d)
  {
    var p := DottedQuadParts(a, b, c, d);
    IpToIntOfParsed(DottedQuad(a, b, c, d), a, b, c, d);
  }

  /** ipToInt of any text whose four dot-separated parts parse to the bytes a, b, c, d. */
  lemma IpToIntOfParsed(ip: string, a: nat, b: nat, c: nat, d: nat)
    requires a < 256 && b < 256 && c < 256 && d < 256
    requires |Split(ip, '.')| == 4
    requires ParseInt(Split(ip, '.')[0]) == Int(a) && ParseInt(Split(ip, '.')[1]) == Int(b)
    requires ParseInt(Split(ip, '.')[2]) == Int(c) && ParseInt(Split(ip, '.')[3]) == Int(d)
    ensures IpToInt(ip) == QuadValue(a, b, c, d)
  {
    FoldOfParsed(Split(ip, '.'), a, b, c, d);
    QuadArithmetic(a, b, c, d);
  }

  /** The int32 accumulator after the fourth reduce step over the bytes a, b, c, d. */
  function FoldedQuad(a: nat, b: nat, c: nat, d: nat): int {
    ToInt32(((a * 256 + b) * 256 + c) * 256) + d
  }

  /** The last `<< 8` may wrap to a negative int32; the final `>>> 0` undoes it. */
  lemma QuadArithmetic(a: nat, b: nat, c: nat, d: nat)
    requires a < 256 && b < 256 && c < 256 && d < 256
    ensures ToUint32(FoldedQuad(a, b, c, d)) == QuadValue(a, b, c, d)
  {
    var high := ((a * 256 + b) * 256 + c) * 256;
    ToUint32Shift(ToInt32(high), high, d);
    assert high + d == QuadValue(a, b, c, d);
    ModOfSmall(high + d, TWO32);
  }

  /** The parts of a.b.c.d and what each of them parses to. */
  lemma DottedQuadParts(a: nat, b: nat, c: nat, d: nat) returns (p: seq<string>)
    ensures Split(DottedQuad(a, b, c, d), '.') == p && |p| == 4
    ensures ParseInt(p[0]) == Int(a) && ParseInt(p[1]) == Int(b)
    ensures ParseInt(p[2]) == Int(c) && ParseInt(p[3]) == Int(d)
  {
    SplitDottedQuad(a, b, c, d);
    p := [NatToString(a), NatToString(b), NatToString(c), NatToString(d)];
    assert ParseInt(p[0]) == Int(a) by { ParseIntOfNatToString(a); }
    assert ParseInt(p[1]) == Int(b) by { ParseIntOfNatToString(b); }
    assert ParseInt(p[2]) == Int(c) by { ParseIntOfNatToString(c); }
    assert ParseInt(p[3]) == Int(d) by { ParseIntOfNatToString(d); }
  }

  lemma FoldOfParsed(p: seq<string>, a: nat, b: nat, c: nat, d: nat)
    requires a < 256 && b < 256 && c < 256 && d < 256 && |p| == 4
    requires ParseInt(p[0]) == Int(a) && ParseInt(p[1]) == Int(b)
    requires ParseInt(p[2]) == Int(c) && ParseInt(p[3]) == Int(d)
    ensures FoldOctets(p, Int(0)) == Int(FoldedQuad(a, b, c, d))
  {
    FoldOfFour(p, Int(0));
    var x2, x3 := a * 256 + b, (a * 256 + b) * 256 + c;
    OctetStepOfParsed(0, p[0], a);
    ToInt32Small(0);
    OctetStepOfParsed(a, p[1], b);
    ToInt32Small(a * 256);
    OctetStepOfParsed(x2, p[2], c);
    ToInt32Small(x2 * 256);
    OctetStepOfParsed(x3, p[3], d);
    var s1 := OctetStep(Int(0), p[0]);
    assert s1 == Int(a);
    var s2 := OctetStep(s1, p[1]);
    assert s2 == Int(x2);
    var s3 := OctetStep(s2, p[2]);
    assert s3 == Int(x3);
    var s4 := OctetStep(s3, p[3]);
    assert s4 == Int(ToInt32(x3 * 256) + d);
    FoldedQuadOf(a, b, c, d, x3);
  }

  lemma FoldedQuadOf(a: nat, b: nat, c: nat, d: nat, x3: int)
    requires x3 == (a * 256 + b) * 256 + c
    ensures FoldedQuad(a, b, c, d) == ToInt32(x3 * 256) + d
  {
  }

  lemma FoldOfFour(p: seq<string>, acc: Num)
    requires |p| == 4
    ensures FoldOctets(p, acc)
         == OctetStep(OctetStep(OctetStep(OctetStep(acc, p[0]), p[1]), p[2]), p[3])
  {
    var a1 := OctetStep(acc, p[0]);
    var a2 := OctetStep(a1, p[1]);
    var a3 := OctetStep(a2, p[2]);
    var a4 := OctetStep(a3, p[3]);
    assert FoldOctets(p, acc) == FoldOctets(p[1..], a1);
    assert p[1..][1..] == p[2..] && p[1..][0] == p[1];
    assert FoldOctets(p[1..], a1) == FoldOctets(p[2..], a2);
    assert p[2..][1..] == p[3..] && p[2..][0] == p[2];
    assert FoldOctets(p[2..], a2) == FoldOctets(p[3..], a3);
    assert p[3..][1..] == [] && p[3..][0] == p[3];
    assert FoldOctets(p[3..], a3) == FoldOctets([], a4);
  }

  lemma ToUint32Shift(x: int, y: int, d: int)
    requires ToUint32(x) == ToUint32(y)
    ensures ToUint32(x + d) == ToUint32(y + d)
  {
    var k := (x - y) / TWO32;
    assert x - y == TWO32 * k by {
      DivModUnique(x, TWO32, x / TWO32, ToUint32(x));
      DivModUnique(y, TWO32, y / TWO32, ToUint32(y));
    }
    DivModUnique(x + d, TWO32, (y + d) / TWO32 + k, ToUint32(y + d));
  }

  lemma OctetShifts(n: int)
    ensures Octet(n, 24) == ToUint32(n) / 0x100_0000 % 256
    ensures Octet(n, 16) == ToUint32(n) / 0x1_0000 % 256
    ensures Octet(n, 8) == ToUint32(n) / 0x100 % 256
    ensures Octet(n, 0) == ToUint32(n) % 256
  {
    Pow2Values();
    ShiftRightIsDiv(ToUint32(n), 24);
    ShiftRightIsDiv(ToUint32(n), 16);
    ShiftRightIsDiv(ToUint32(n), 8);
    ShiftRightIsDiv(ToUint32(n), 0);
  }

  /** The bytes of the value of a.b.c.d are a, b, c and d. */
  lemma OctetsOfQuadValue(a: nat, b: nat, c: nat, d: nat)
    requires a < 256 && b < 256 && c < 256 && d < 256
    ensures QuadValue(a, b, c, d) < TWO32
    ensures Octet(QuadValue(a, b, c, d), 24) == a && Octet(QuadValue(a, b, c, d), 16) == b
    ensures Octet(QuadValue(a, b, c, d), 8) == c && Octet(QuadValue(a, b, c, d), 0) == d
  {
    var v := QuadValue(a, b, c, d);
    assert ToUint32(v) == v by { ModOfSmall(v, TWO32); }
    OctetShifts(v);
    assert v / 0x100_0000 % 256 == a by {
      DivModUnique(v, 0x100_0000, a, b * 0x1_0000 + c * 0x100 + d);
      ModOfSmall(a, 256);
    }
    assert v / 0x1_0000 % 256 == b by {
      DivModUnique(v, 0x1_0000, a * 256 + b, c * 0x100 + d);
      DivModUnique(a * 256 + b, 256, a, b);
    }
    assert v / 0x100 % 256 == c by {
      DivModUnique(v, 0x100, a * 0x1_0000 + b * 256 + c, d);
      DivModUnique(a * 0x1_0000 + b * 256 + c, 256, a * 256 + b, c);
    }
    assert v % 256 == d by {
      DivModUnique(v, 256, a * 0x1_0000 + b * 256 + c, d);
    }
  }

  /** intToIp of the value of a.b.c.d prints a.b.c.d. */
  lemma IntToIpOfQuadValue(a: nat, b: nat, c: nat, d: nat)
    requires a < 256 && b < 256 && c < 256 && d < 256
    ensures IntToIp(QuadValue(a, b, c, d)) == DottedQuad(a, b, c, d)
  {
    OctetsOfQuadValue(a, b, c, d);
  }

  /** Every 32-bit value is the value of its four bytes. */
  lemma QuadOfValue(n: nat) returns (a: nat, b: nat, c: nat, d: nat)
    requires n < TWO32
    ensures a < 256 && b < 256 && c < 256 && d < 256
    ensures n == QuadValue(a, b, c, d)
    ensures IntToIp(n) == DottedQuad(a, b, c, d)
  {
    var r1 := n % 0x100_0000;
    var r2 := r1 % 0x1_0000;
    a, b, c, d := n / 0x100_0000, r1 / 0x1_0000, r2 / 0x100, r2 % 0x100;
    assert n == QuadValue(a, b, c, d);
    IntToIpOfQuadValue(a, b, c, d);
  }

  /** ipToInt(intToIp(n)) == n for every 32-bit n. */
  lemma IpToIntOfIntToIp(n: nat)
    requires n < TWO32
    ensures IpToInt(IntToIp(n)) == n
  {
    var a, b, c, d := QuadOfValue(n);
    assert IntToIp(n) == DottedQuad(a, b, c, d);
    IpToIntOfDottedQuad(a, b, c, d);
  }

  /** intToIp reads its argument as unsigned: n and n + 2^32 print the same address. */
  lemma IntToIpUnsigned(n: int)
    ensures IntToIp(n) == IntToIp(ToUint32(n))
  {
    ModOfSmall(ToUint32(n), TWO32);
    OctetShifts(n);
    OctetShifts(ToUint32(n));
  }

  /** For any integer, ipToInt(intToIp(n)) is n reduced modulo 2^32. */
  lemma IpToIntOfIntToIpMod(n: int)
    ensures IpToInt(IntToIp(n)) == ToUint32(n)
  {
    IntToIpUnsigned(n);
    IpToIntOfIntToIp(ToUint32(n));
  }

  /** intToIp(ipToInt(s)) == s for every canonical dotted quad s. */
  lemma IntToIpOfIpToInt(a: nat, b: nat, c: nat, d: nat)
    requires a < 256 && b < 256 && c < 256 && d < 256
    ensures IntToIp(IpToInt(DottedQuad(a, b, c, d))) == DottedQuad(a, b, c, d)
  {
    IpToIntOfDottedQuad(a, b, c, d);
    IntToIpOfQuadValue(a, b, c, d);
  }

  // ---------------------------------------------------------------------------
  // netmaskToPrefix and isPrivate on canonical addresses

  /** The mask of a contiguous prefix of p one bits reads back as prefix length p. */
  lemma NetmaskToPrefixOfMask(p: nat)
    requires p <= 32
    ensures NetmaskToPrefix(IntToIp(TWO32 - Pow2(32 - p))) == p
  {
    Pow2Values();
    PopcountOfRun(32, 32 - p);
    IpToIntOfIntToIp(TWO32 - Pow2(32 - p));
    CountBitsIsPopcount(TWO32 - Pow2(32 - p));
  }

  /** The usual /24 netmask. */
  lemma NetmaskToPrefixOf24()
    ensures NetmaskToPrefix("255.255.255.0") == 24
  {
    assert NatToString(255) == "255";
    assert NatToString(0) == "0";
    assert DottedQuad(255, 255, 255, 0) == "255.255.255.0";
    IpToIntOfDottedQuad(255, 255, 255, 0);
    Pow2Values();
    PopcountOfRun(32, 8);
    CountBitsIsPopcount(TWO32 - Pow2(8));
  }

  /**
   * isPrivate of a canonical address a.b.c.d holds exactly for the private
   * blocks 10/8, 172.16/12 and 192.168/16 of section 3 of RFC 1918; a missing
   * or empty address is not private.
   */
  lemma IsPrivateOfDottedQuad(a: nat, b: nat, c: nat, d: nat)
    requires a < 256 && b < 256 && c < 256 && d < 256
    ensures IsPrivate(Some(DottedQuad(a, b, c, d)))
        <==> a == 10 || (a == 192 && b == 168) || (a == 172 && 16 <= b <= 31)
    ensures !IsPrivate(None) && !IsPrivate(Some(""))
  {
    var sa, sb, sc, sd := NatToString(a), NatToString(b), NatToString(c), NatToString(d);
    var tail := sc + [Dot] + sd;
    QuadText(sa, sb, sc, sd);
    SplitDottedQuad(a, b, c, d);
    NoDotInDigits(sa);
    NoDotInDigits(sb);
    IsPrivateOfParts(DottedQuad(a, b, c, d), sa, sb, tail);
    ParseIntOfNatToString(b);
    PrivateTexts(a, b);
  }

  lemma PrivateTexts(a: nat, b: nat)
    ensures NatToString(a) == "10" <==> a == 10
    ensures NatToString(a) == "172" <==> a == 172
    ensures NatToString(a) == "192" <==> a == 192
    ensures NatToString(b) == "168" <==> b == 168
  {
    assert NatToString(10) == "10" && NatToString(172) == "172";
    assert NatToString(192) == "192" && NatToString(168) == "168";
    InjectiveAt(a, 10);
    InjectiveAt(a, 172);
    InjectiveAt(a, 192);
    InjectiveAt(b, 168);
  }

  lemma QuadText(sa: string, sb: string, sc: string, sd: string)
    ensures Join([sa, sb, sc, sd], Dot) == sa + [Dot] + (sb + [Dot] + (sc + [Dot] + sd))
  {
    assert [sc, sd][1..] == [sd];
    assert Join([sc, sd], Dot) == sc + [Dot] + sd;
    assert [sb, sc, sd][1..] == [sc, sd];
    assert Join([sb, sc, sd], Dot) == sb + [Dot] + (sc + [Dot] + sd);
    assert [sa, sb, sc, sd][1..] == [sb, sc, sd];
  }

  /** isPrivate of text made of a first part, a dot, a second part, a dot and more. */
  lemma IsPrivateOfParts(s: string, sa: string, sb: string, tail: string)
    requires s == sa + [Dot] + (sb + [Dot] + tail) && Dot !in sa && Dot !in sb
    requires |Split(s, Dot)| >= 2 && Split(s, Dot)[1] == sb
    ensures IsPrivate(Some(s))
        <==> sa == "10" || (sa == "192" && sb == "168")
             || (sa == "172" && ParseInt(sb).Int? && 16 <= ParseInt(sb).value <= 31)
  {
    DotPrefix(sa, sb + [Dot] + tail, "10", "");
    DotPrefix(sa, sb + [Dot] + tail, "172", "");
    DotPrefix(sa, sb + [Dot] + tail, "192", "168.");
    DotPrefix(sb, tail, "168", "");
  }

  /**
   * isPrivate of text with exactly one dot: "10." and "172." followed by
   * 16..31 are private, and "192.x" never is, since "192.168." needs a second dot.
   */
  lemma IsPrivateOfTwoParts(sa: string, sb: string)
    requires Dot !in sa && Dot !in sb
    ensures IsPrivate(Some(sa + [Dot] + sb))
        <==> sa == "10" || (sa == "172" && ParseInt(sb).Int? && 16 <= ParseInt(sb).value <= 31)
  {
    var s := sa + [Dot] + sb;
    assert StartsWith(s, "10.") <==> sa == "10" by {
      DotPrefix(sa, sb, "10", "");
    }
    assert !StartsWith(s, "192.168.") by {
      DotPrefix(sa, sb, "192", "168.");
      DotFree(sb, "168.");
    }
    assert StartsWith(s, "172.") <==> sa == "172" by {
      DotPrefix(sa, sb, "172", "");
    }
    assert Split(s, Dot)[1] == sb by {
      SplitAround(sa, Dot, sb);
      SplitWithout(sa, Dot);
      SplitWithout(sb, Dot);
    }
  }

  /** Dot-free text does not start with text that holds a dot. */
  lemma DotFree(x: string, w: string)
    requires Dot !in x && Dot in w
    ensures !StartsWith(x, w)
  {
    if |w| <= |x| {
      var k :| 0 <= k < |w| && w[k] == Dot;
      assert x[k] in x;
    }
  }

  lemma InjectiveAt(a: nat, b: nat)
    ensures NatToString(a) == NatToString(b) <==> a == b
  {
    if NatToString(a) == NatToString(b) {
      NatToStringInjective(a, b);
    }
  }

  /**
   * Text that begins with a dot-free piece x and a dot starts with w + "." + v
   * (w dot-free) exactly when x is w and the rest starts with v.
   */
  lemma DotPrefix(x: string, rest: string, w: string, v: string)
    requires Dot !in x && Dot !in w
    ensures StartsWith(x + [Dot] + rest, w + [Dot] + v) <==> x == w && StartsWith(rest, v)
  {
    var s := x + [Dot] + rest;
    if StartsWith(s, w + [Dot] + v) {
      var after := s[|w| + 1..];
      assert s == w + [Dot] + after;
      SplitAround(w, Dot, after);
      SplitAround(x, Dot, rest);
      SplitWithout(w, Dot);
      SplitWithout(x, Dot);
      assert x == Split(s, Dot)[0] == w;
      assert rest == after;
    }
    if x == w && StartsWith(rest, v) {
      assert s[..|w| + 1 + |v|] == w + [Dot] + rest[..|v|];
    }
  }
}
