/** IPv4 addresses and interfaces as Python's `ipaddress` module reads and
    writes them for bin/mk-node-defs.py: `ip_interface` on the CIDR part of
    the IP pattern, `int(iface.ip)`, `iface.network.prefixlen`, and
    `str(ip_address(n))` for each node. Only the IPv4 forms are modelled. */
module Ipv4 {
  import opened Text
  import opened Results

  /** The number of IPv4 addresses, 2^32. */
  const AddressCount: nat := 0x1_0000_0000

  /** An address as a number below `AddressCount` and its prefix length. */
  datatype Interface = Interface(address: nat, prefix: nat)

  predicate ValidInterface(i: Interface) {
    i.address < AddressCount && i.prefix <= 32
  }

  // ------------------------------------------------------------ addresses

  /** One dotted-quad component as `ipaddress` accepts it: one to three
      ASCII digits, no leading zero unless the octet is `0`, at most 255. */
  function ParseOctet(t: string): (r: Option<nat>)
    ensures r.Some? ==> r.value < 256
  {
    if IsCanonical(t) && |t| <= 3 && DigitsValue(t) <= 255 then Some(DigitsValue(t)) else None
  }

  /** The big-endian number of four octets. */
  function Combine(a: nat, b: nat, c: nat, d: nat): nat {
    a * 0x100_0000 + b * 0x1_0000 + c * 0x100 + d
  }

  /** The four octets of an address, most significant first. */
  function Octets(n: nat): seq<nat> {
    [n / 256 / 256 / 256, n / 256 / 256 % 256, n / 256 % 256, n % 256]
  }

  /** `int(IPv4Address(t))`: four dot-separated octets; anything else, the
      empty string included, is not an address. */
  function ParseAddress(t: string): (r: Option<nat>)
    ensures r.Some? ==> r.value < AddressCount
  {
    if |t| == 0 then None
    else
      var parts := Split(t, '.');
      if |parts| != 4 then None
      else
        match (ParseOctet(parts[0]), ParseOctet(parts[1]), ParseOctet(parts[2]), ParseOctet(parts[3]))
        case (Some(a), Some(b), Some(c), Some(d)) => Some(Combine(a, b, c, d))
        case _ => None
  }

  /** `str(IPv4Address(n))`: the four octets in decimal, joined by dots. */
  function FormatAddress(n: nat): string
    requires n < AddressCount
  {
    var o := Octets(n);
    Join([NatText(o[0]), NatText(o[1]), NatText(o[2]), NatText(o[3])], ".")
  }

  lemma OctetsInRange(n: nat)
    requires n < AddressCount
    ensures forall k :: 0 <= k < 4 ==> Octets(n)[k] < 256
  {
  }

  /** Euclidean division by 256 is determined by quotient and remainder. */
  lemma DivMod256(n: nat, q: nat, r: nat)
    requires r < 256 && n == q * 256 + r
    ensures n / 256 == q && n % 256 == r
  {
  }

  /** Splitting a number into octets and combining them gives it back. */
  lemma CombineOctets(n: nat)
    requires n < AddressCount
    ensures var o := Octets(n); Combine(o[0], o[1], o[2], o[3]) == n
  {
    var n1 := n / 256;
    var n2 := n1 / 256;
    var n3 := n2 / 256;
    assert n == n1 * 256 + n % 256;
    assert n1 == n2 * 256 + n1 % 256;
    assert n2 == n3 * 256 + n2 % 256;
  }

  /** Combining four octets and splitting the result gives them back. */
  lemma OctetsCombine(a: nat, b: nat, c: nat, d: nat)
    requires a < 256 && b < 256 && c < 256 && d < 256
    ensures Combine(a, b, c, d) < AddressCount
    ensures Octets(Combine(a, b, c, d)) == [a, b, c, d]
  {
    var n := Combine(a, b, c, d);
    DivMod256(n, (a * 256 + b) * 256 + c, d);
    DivMod256(n / 256, a * 256 + b, c);
    DivMod256(n / 256 / 256, a, b);
    DivMod256(n / 256 / 256 / 256, 0, a);
  }

  /** A number below 256 prints as an octet that reads back as itself. */
  lemma ParseOctetNatText(k: nat)
    requires k < 256
    ensures ParseOctet(NatText(k)) == Some(k)
  {
    NatTextShort(k);
  }

  /** An accepted octet is the canonical decimal text of its value. */
  lemma OctetIsNatText(t: string)
    requires ParseOctet(t).Some?
    ensures NatText(ParseOctet(t).value) == t
  {
    NatTextOfDigits(t);
  }

  /** The text of an address reads back as the address. */
  lemma ParseFormatAddress(n: nat)
    requires n < AddressCount
    ensures ParseAddress(FormatAddress(n)) == Some(n)
  {
    var o := Octets(n);
    OctetsInRange(n);
    var es := [NatText(o[0]), NatText(o[1]), NatText(o[2]), NatText(o[3])];
    forall k | 0 <= k < 4
      ensures '.' !in es[k]
    {
      NatTextNoChar(o[k], '.');
    }
    SplitJoin(es, '.');
    var t := FormatAddress(n);
    assert Split(t, '.') == es;
    ParseOctetNatText(o[0]);
    ParseOctetNatText(o[1]);
    ParseOctetNatText(o[2]);
    ParseOctetNatText(o[3]);
    CombineOctets(n);
  }

  /** An accepted address text is exactly the text of its value: no other
      spelling of an address (leading zeros, extra or missing octets) is
      accepted. */
  lemma FormatParseAddress(t: string)
    requires ParseAddress(t).Some?
    ensures FormatAddress(ParseAddress(t).value) == t
  {
    var parts := Split(t, '.');
    OctetIsNatText(parts[0]);
    OctetIsNatText(parts[1]);
    OctetIsNatText(parts[2]);
    OctetIsNatText(parts[3]);
    var a, b, c, d := ParseOctet(parts[0]).value, ParseOctet(parts[1]).value,
                      ParseOctet(parts[2]).value, ParseOctet(parts[3]).value;
    OctetsCombine(a, b, c, d);
    assert parts == [parts[0], parts[1], parts[2], parts[3]];
    JoinSplit(t, '.');
  }

  /** `ParseAddress` accepts exactly the texts `FormatAddress` writes. */
  lemma ParseAddressIff(t: string, n: nat)
    ensures ParseAddress(t) == Some(n) <==> n < AddressCount && t == FormatAddress(n)
  {
    if ParseAddress(t) == Some(n) {
      FormatParseAddress(t);
    }
    if n < AddressCount && t == FormatAddress(n) {
      ParseFormatAddress(n);
    }
  }

  /** The text of an address given by its octets. */
  lemma FormatCombine(a: nat, b: nat, c: nat, d: nat)
    requires a < 256 && b < 256 && c < 256 && d < 256
    ensures Combine(a, b, c, d) < AddressCount
    ensures FormatAddress(Combine(a, b, c, d))
      == NatText(a) + "." + NatText(b) + "." + NatText(c) + "." + NatText(d)
  {
    OctetsCombine(a, b, c, d);
    var o := Octets(Combine(a, b, c, d));
    assert [NatText(o[0]), NatText(o[1]), NatText(o[2]), NatText(o[3])] == [NatText(a), NatText(b), NatText(c), NatText(d)];
    JoinFour(NatText(a), NatText(b), NatText(c), NatText(d), ".");
  }

  /** Joining four pieces puts the separator between each neighbouring
      pair. */
  lemma JoinFour(w: string, x: string, y: string, z: string, sep: string)
    ensures Join([w, x, y, z], sep) == w + sep + x + sep + y + sep + z
  {
    assert [w, x, y, z][1..] == [x, y, z];
    assert [x, y, z][1..] == [y, z];
    assert [y, z][1..] == [z];
    assert Join([y, z], sep) == y + sep + z;
    assert Join([x, y, z], sep) == x + sep + (y + sep + z);
    assert Join([w, x, y, z], sep) == w + sep + (x + sep + (y + sep + z));
  }

  /** Address texts are digits and dots only. */
  lemma FormatAddressNoChar(n: nat, c: char)
    requires n < AddressCount
    requires c != '.' && !IsDigit(c)
    ensures c !in FormatAddress(n)
  {
    var o := Octets(n);
    var es := [NatText(o[0]), NatText(o[1]), NatText(o[2]), NatText(o[3])];
    forall k | 0 <= k < 4
      ensures c !in es[k]
    {
      NatTextNoChar(o[k], c);
    }
    JoinNoChar(es, ".", c);
  }

  // ------------------------------------------------------------ interfaces

  /** A prefix length after the slash: ASCII digits (leading zeros allowed)
      with value at most 32. */
  function ParsePrefix(t: string): (r: Option<nat>)
    ensures r.Some? ==> r.value <= 32
  {
    if IsDigits(t) && DigitsValue(t) <= 32 then Some(DigitsValue(t)) else None
  }

  /** `ipaddress.ip_interface(t)` for IPv4: an address, optionally followed
      by `/` and a prefix length; without one the prefix is 32. More than
      one `/` is an error. */
  function ParseInterface(t: string): (r: Option<Interface>)
    ensures r.Some? ==> ValidInterface(r.value)
  {
    var parts := Split(t, '/');
    if |parts| > 2 then None
    else
      match ParseAddress(parts[0])
      case None => None
      case Some(a) =>
        if |parts| == 1 then Some(Interface(a, 32))
        else
          match ParsePrefix(parts[1])
          case None => None
          case Some(p) => Some(Interface(a, p))
  }

  /** The CIDR text of an interface, `address/prefix`. */
  function FormatInterface(i: Interface): string
    requires ValidInterface(i)
  {
    FormatAddress(i.address) + "/" + NatText(i.prefix)
  }

  /** The texts an interface can be written as: its address alone (prefix
      32), or its address, a slash and digits spelling its prefix. */
  ghost predicate SpellsInterface(t: string, i: Interface) {
    && ValidInterface(i)
    && (|| (t == FormatAddress(i.address) && i.prefix == 32)
        || exists p :: IsDigits(p) && DigitsValue(p) == i.prefix && t == FormatAddress(i.address) + "/" + p)
  }

  lemma SplitAtSlash(a: string, p: string)
    requires '/' !in a && '/' !in p
    ensures Split(a + "/" + p, '/') == [a, p]
  {
    SplitJoin([a, p], '/');
    assert Join([a, p], "/") == a + "/" + p;
  }

  /** `ParseInterface` accepts exactly the spellings of valid interfaces. */
  lemma ParseInterfaceIff(t: string, i: Interface)
    ensures ParseInterface(t) == Some(i) <==> SpellsInterface(t, i)
  {
    var parts := Split(t, '/');
    if ParseInterface(t) == Some(i) {
      JoinSplit(t, '/');
      FormatParseAddress(parts[0]);
      if |parts| == 2 {
        assert Join(parts, "/") == parts[0] + "/" + parts[1];
        assert IsDigits(parts[1]) && DigitsValue(parts[1]) == i.prefix;
      }
    }
    if SpellsInterface(t, i) {
      var a := FormatAddress(i.address);
      FormatAddressNoChar(i.address, '/');
      ParseFormatAddress(i.address);
      if t != a || i.prefix != 32 {
        var p :| IsDigits(p) && DigitsValue(p) == i.prefix && t == a + "/" + p;
        assert '/' !in p;
        SplitAtSlash(a, p);
      }
    }
  }

  /** An interface's CIDR text reads back as the interface. */
  lemma ParseFormatInterface(i: Interface)
    requires ValidInterface(i)
    ensures ParseInterface(FormatInterface(i)) == Some(i)
  {
    ParseInterfaceIff(FormatInterface(i), i);
  }
}
