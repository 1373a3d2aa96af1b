/** Worked CIDR examples from the test suite, stated over dotted-quad
    addresses built bit by bit. */
module HtaccessVectors {
  import opened Base
  import opened Htaccess

  lemma ZeroOctet()
    ensures BitsOf(0, 8) == Repeat(false, 8)
  {}

  /** The first `k <= 8` bits of `a.b.c.d` are the first `k` bits of `a`. */
  lemma OctetPrefix(a: nat, b: nat, c: nat, d: nat, k: nat)
    requires a < 256 && b < 256 && c < 256 && d < 256 && k <= 8
    ensures IPv4(a, b, c, d)[..k] == BitsOf(a, 8)[..k]
  {
  }

  /** A block `a.0.0.0/k` with `k <= 8` is accepted when `a` has no bit set
      past the first `k`, and it matches exactly the addresses whose first
      octet agrees with `a` on those `k` bits. */
  lemma FirstOctetBlock(a: nat, k: nat, x: nat, b: nat, c: nat, d: nat)
    requires a < 256 && x < 256 && b < 256 && c < 256 && d < 256 && k <= 8
    requires forall i :: k <= i < 8 ==> !BitsOf(a, 8)[i]
    ensures NewCidrBlock(IPv4(a, 0, 0, 0), k) == Ok(CidrBlock(IPv4(a, 0, 0, 0), k))
    ensures Matches(CidrBlock(IPv4(a, 0, 0, 0), k), IPv4(x, b, c, d)) <==> BitsOf(x, 8)[..k] == BitsOf(a, 8)[..k]
  {
    var p := IPv4(a, 0, 0, 0);
    ZeroOctet();
    assert forall i :: k <= i < 32 ==> !p[i] by {
      forall i | k <= i < 32 ensures !p[i] {
        if i < 8 { assert p[i] == BitsOf(a, 8)[i]; }
      }
    }
    MatchesLeadingBits(CidrBlock(p, k), IPv4(x, b, c, d));
    OctetPrefix(a, 0, 0, 0, k);
    OctetPrefix(x, b, c, d, k);
  }

  lemma Bits128()
    ensures BitsOf(128, 8) == [true, false, false, false, false, false, false, false]
  {}
  lemma Bits192()
    ensures BitsOf(192, 8) == [true, true, false, false, false, false, false, false]
  {}
  lemma Bits64()
    ensures BitsOf(64, 8) == [false, true, false, false, false, false, false, false]
  {}

  lemma NonAClassMatches()
    ensures var block := NewCidrBlock(IPv4(128, 0, 0, 0), 1);
            block.Ok? && Matches(block.value, IPv4(192, 0, 0, 0))
  {
    Bits128(); Bits192();
    FirstOctetBlock(128, 1, 192, 0, 0, 0);
  }
  lemma NonAClassRejects()
    ensures var block := NewCidrBlock(IPv4(128, 0, 0, 0), 1);
            block.Ok? && !Matches(block.value, IPv4(64, 0, 0, 0))
  {
    Bits128(); Bits64();
    FirstOctetBlock(128, 1, 64, 0, 0, 0);
    assert BitsOf(64, 8)[..1][0] != BitsOf(128, 8)[..1][0];
  }

  lemma Bits193()
    ensures BitsOf(193, 8) == [true, true, false, false, false, false, false, true]
  {}

  lemma ClassCMatches()
    ensures var block := NewCidrBlock(IPv4(192, 0, 0, 0), 3);
            block.Ok? && Matches(block.value, IPv4(193, 0, 0, 1))
  {
    Bits192(); Bits193();
    FirstOctetBlock(192, 3, 193, 0, 0, 1);
  }

  lemma LocalBlockMatches()
    ensures var block := NewCidrBlock(IPv4(192, 0, 0, 0), 8);
            block.Ok? && Matches(block.value, IPv4(192, 1, 2, 3))
  {
    FirstOctetBlock(192, 8, 192, 1, 2, 3);
  }

  lemma LocalBlockRejects()
    ensures var block := NewCidrBlock(IPv4(192, 0, 0, 0), 8);
            block.Ok? && !Matches(block.value, IPv4(0, 0, 0, 192))
  {
    Bits192(); ZeroOctet();
    FirstOctetBlock(192, 8, 0, 0, 0, 192);
    assert BitsOf(0, 8)[..8][0] != BitsOf(192, 8)[..8][0];
  }

  /** `192.0.0.0/0` is refused: its prefix has a bit outside the empty mask. */
  lemma PrefixLongerThanLength()
    ensures NewCidrBlock(IPv4(192, 0, 0, 0), 0) == Err(RuntimeError)
  {
    Bits192();
    OctetPrefix(192, 0, 0, 0, 1);
    assert IPv4(192, 0, 0, 0)[..1][0];
  }

  /** `0.0.0.0/0` is accepted and matches every address. */
  lemma RootBlockMatchesAll(address: Addr)
    ensures var block := NewCidrBlock(ZERO_ADDR, 0);
            block.Ok? && Matches(block.value, address)
  {
    MatchesEverything(CidrBlock(ZERO_ADDR, 0), address);
  }
}
