/** The IP pattern of bin/mk-node-defs.py (`192.168.1.100/24+`) and the
    addresses it hands out: the first node gets the base address, and each
    further node the next address up (`+`) or down (`-`). */
module Allocation {
  import opened Text
  import opened Results
  import opened Ipv4

  /** Which way the node addresses run from the base address. */
  datatype Direction = Up | Down

  function DirectionChar(d: Direction): char {
    match d
    case Up => '+'
    case Down => '-'
  }

  /** Why an IP pattern is refused: it is empty (the source fails on
      indexing its last character), it does not end in `+` or `-`, or the
      part before that is not an IPv4 interface. */
  datatype PatternError = EmptyPattern | NoDirection | InvalidCidr(cidr: string)

  /** The pattern's last character is the direction, the rest the CIDR. */
  function SplitPattern(p: string): Result<(string, Direction), PatternError> {
    if |p| == 0 then Err(EmptyPattern)
    else if p[|p| - 1] == '+' then Ok((p[..|p| - 1], Up))
    else if p[|p| - 1] == '-' then Ok((p[..|p| - 1], Down))
    else Err(NoDirection)
  }

  /** The whole pattern: direction first, then the CIDR text. */
  function ParsePattern(p: string): (r: Result<(Interface, Direction), PatternError>)
    ensures r.Ok? ==> ValidInterface(r.value.0)
  {
    var (cidr, d) :- SplitPattern(p);
    match ParseInterface(cidr)
    case None => Err(InvalidCidr(cidr))
    case Some(iface) => Ok((iface, d))
  }

  /** `SplitPattern` undoes appending a direction character, and accepts
      nothing else. */
  lemma SplitPatternIff(p: string, cidr: string, d: Direction)
    ensures SplitPattern(p) == Ok((cidr, d)) <==> p == cidr + [DirectionChar(d)]
  {
    if p == cidr + [DirectionChar(d)] {
      assert p[..|p| - 1] == cidr;
    }
    if SplitPattern(p) == Ok((cidr, d)) {
      assert p == p[..|p| - 1] + [p[|p| - 1]];
    }
  }

  /** A pattern is refused for its direction exactly when it is empty or
      its last character is neither `+` nor `-`. */
  lemma SplitPatternFails(p: string)
    ensures SplitPattern(p).Err? <==> forall cidr, d :: p != cidr + [DirectionChar(d)]
  {
    if SplitPattern(p).Ok? {
      var (cidr, d) := SplitPattern(p).value;
      SplitPatternIff(p, cidr, d);
    }
    forall cidr, d | p == cidr + [DirectionChar(d)]
      ensures SplitPattern(p).Ok?
    {
      SplitPatternIff(p, cidr, d);
    }
  }

  /** `ParsePattern` reads back a written interface and direction. */
  lemma ParsePatternOfParts(i: Interface, d: Direction)
    requires ValidInterface(i)
    ensures ParsePattern(FormatInterface(i) + [DirectionChar(d)]) == Ok((i, d))
  {
    SplitPatternIff(FormatInterface(i) + [DirectionChar(d)], FormatInterface(i), d);
    ParseFormatInterface(i);
  }

  /** A pattern is accepted exactly when it ends in the direction character
      and the text before it spells the interface. */
  lemma ParsePatternIff(p: string, i: Interface, d: Direction)
    ensures ParsePattern(p) == Ok((i, d))
      <==> |p| > 0 && p[|p| - 1] == DirectionChar(d) && SpellsInterface(p[..|p| - 1], i)
  {
    if |p| > 0 {
      var cidr := p[..|p| - 1];
      SplitPatternIff(p, cidr, d);
      ParseInterfaceIff(cidr, i);
      if p[|p| - 1] == DirectionChar(d) {
        assert p == cidr + [DirectionChar(d)];
      }
    }
  }

  /** `p` is an interface's text followed by a direction character. */
  ghost predicate PatternSpells(p: string) {
    exists i: Interface, d: Direction :: PatternSpellsAs(p, i, d)
  }

  ghost predicate PatternSpellsAs(p: string, i: Interface, d: Direction) {
    |p| > 0 && p[|p| - 1] == DirectionChar(d) && SpellsInterface(p[..|p| - 1], i)
  }

  /** A pattern is accepted exactly when it spells some interface and
      direction, and then it is read as them. */
  lemma ParsePatternOkIff(p: string)
    ensures ParsePattern(p).Ok? <==> PatternSpells(p)
    ensures ParsePattern(p).Ok? ==> PatternSpellsAs(p, ParsePattern(p).value.0, ParsePattern(p).value.1)
  {
    var r := ParsePattern(p);
    if r.Ok? {
      var (i, d) := r.value;
      ParsePatternIff(p, i, d);
      assert PatternSpellsAs(p, i, d);
    } else if PatternSpells(p) {
      var i, d :| PatternSpellsAs(p, i, d);
      ParsePatternIff(p, i, d);
      assert false;
    }
  }

  // ------------------------------------------------------------ addresses

  /** The address of the node `offset` places after the first. */
  function NodeAddress(base: nat, d: Direction, offset: nat): int {
    match d
    case Up => base + offset
    case Down => base - offset
  }

  /** One step from an address in direction `d`. */
  function Step(a: int, d: Direction): int {
    match d
    case Up => a + 1
    case Down => a - 1
  }

  /** The address reached from `base` after `k` steps. */
  function Walk(base: nat, d: Direction, k: nat): int {
    if k == 0 then base else Step(Walk(base, d, k - 1), d)
  }

  /** The node addresses are the successive steps from the base address:
      the first node gets the base and each next node one more step. */
  lemma {:induction false} NodeAddressIsWalk(base: nat, d: Direction, k: nat)
    ensures NodeAddress(base, d, k) == Walk(base, d, k)
    decreases k
  {
    if k > 0 {
      NodeAddressIsWalk(base, d, k - 1);
    }
  }

  /** Different nodes get different addresses. */
  lemma NodeAddressInjective(base: nat, d: Direction, j: nat, k: nat)
    requires NodeAddress(base, d, j) == NodeAddress(base, d, k)
    ensures j == k
  {
  }

  /** `str(ip_address(n))` for the addresses IPv4 can hold. */
  function AddressText(n: int): (r: Option<string>)
    ensures r.Some? <==> 0 <= n < AddressCount
  {
    if 0 <= n < AddressCount then Some(FormatAddress(n)) else None
  }

  /** The text of a node's address reads back as that address. */
  lemma AddressTextRoundTrip(n: int, t: string)
    requires AddressText(n) == Some(t)
    ensures ParseAddress(t) == Some(n)
  {
    ParseFormatAddress(n);
  }

  /** All `count` nodes get an IPv4 address exactly when the last one does:
      the addresses run monotonically away from the base. */
  lemma AllInRangeIff(base: nat, d: Direction, count: nat)
    requires base < AddressCount && count > 0
    ensures (forall k :: 0 <= k < count ==> AddressText(NodeAddress(base, d, k)).Some?)
      <==> AddressText(NodeAddress(base, d, count - 1)).Some?
  {
  }

  /** Moving within the last octet changes only the last octet. */
  lemma NodeAddressLastOctet(a: nat, b: nat, c: nat, e: nat, d: Direction, k: nat)
    requires a < 256 && b < 256 && c < 256 && e < 256
    requires d == Up ==> e + k < 256
    requires d == Down ==> k <= e
    ensures NodeAddress(Combine(a, b, c, e), d, k) == Combine(a, b, c, if d == Up then e + k else e - k)
  {
  }

  /** From `192.168.1.100` the third node gets `.102` going up and `.98`
      going down. */
  lemma AllocationExample()
    ensures AddressText(NodeAddress(Combine(192, 168, 1, 100), Up, 2)) == Some("192.168.1.102")
    ensures AddressText(NodeAddress(Combine(192, 168, 1, 100), Down, 2)) == Some("192.168.1.98")
  {
    NatTextOctetExamples();
    assert NatText(192) + "." + NatText(168) + "." + NatText(1) + "." + NatText(102) == "192.168.1.102";
    assert NatText(192) + "." + NatText(168) + "." + NatText(1) + "." + NatText(98) == "192.168.1.98";
    NodeAddressLastOctet(192, 168, 1, 100, Up, 2);
    FormatCombine(192, 168, 1, 102);
    NodeAddressLastOctet(192, 168, 1, 100, Down, 2);
    FormatCombine(192, 168, 1, 98);
  }
}
