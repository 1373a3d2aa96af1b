/** CIDR blocks and `.htaccess` allow/deny lists: prefix masks, block
    validity, matching, first-match-wins evaluation and the line-oriented
    rule file format (CIDR notation as in section 3.1 of RFC 4632). */
module Htaccess {
  import opened Base
  import opened Util

  const BITS_IN_ADDRESS := 32

  // ---------------------------------------------------------------------
  // 32-bit words, masks and blocks
  // ---------------------------------------------------------------------

  /** `0xFFFFFFFF`. */
  const ALL_ONES: Addr := Repeat(true, 32)

  /** `w << k` on a 32-bit word: the top `k` bits fall off and zeros enter
      at the bottom. */
  function ShiftLeft(w: Addr, k: nat): (r: Addr)
    requires k <= BITS_IN_ADDRESS
    ensures forall i :: 0 <= i < 32 ==> (r[i] <==> i + k < 32 && w[i + k])
  {
    w[k..] + Repeat(false, k)
  }

  /** Bitwise `&` of two words. */
  function BitAnd(x: Addr, y: Addr): (r: Addr)
    ensures forall i :: 0 <= i < 32 ==> (r[i] <==> x[i] && y[i])
  {
    seq(32, i requires 0 <= i < 32 => x[i] && y[i])
  }

  /** `make_mask`: the word whose top `length` bits are set and whose other
      bits are clear. */
  function MakeMask(length: nat): (mask: Addr)
    requires length <= BITS_IN_ADDRESS
    ensures forall i :: 0 <= i < 32 ==> (mask[i] <==> i < length)
  {
    if length == 0 then ZERO_ADDR else ShiftLeft(ALL_ONES, BITS_IN_ADDRESS - length)
  }

  /** A CIDR block: a network prefix and the number of leading bits that
      must agree with it. */
  datatype CidrBlock = CidrBlock(prefix: Addr, length: nat)

  /** The invariant the `CidrBlock` constructor establishes: the prefix has
      no bits outside the mask. */
  predicate ValidBlock(b: CidrBlock) {
    b.length <= BITS_IN_ADDRESS && BitAnd(b.prefix, MakeMask(b.length)) == b.prefix
  }

  /** A block is valid exactly when none of the prefix's host bits, the low
      `32 - length` ones, is set. */
  lemma ValidBlockHostBits(b: CidrBlock)
    requires b.length <= BITS_IN_ADDRESS
    ensures ValidBlock(b) <==> forall i :: b.length <= i < 32 ==> !b.prefix[i]
  {
    var masked := BitAnd(b.prefix, MakeMask(b.length));
    if forall i :: b.length <= i < 32 ==> !b.prefix[i] {
      assert forall i :: 0 <= i < 32 ==> masked[i] == b.prefix[i];
    }
  }

  /** The `CidrBlock` constructor: throws when the prefix has a bit outside
      the mask. A length outside 0..32 makes the C++ shift undefined; the
      model rejects it the same way. */
  function NewCidrBlock(prefix: Addr, length: int): (r: Result<CidrBlock>)
    ensures r.Ok? <==> 0 <= length <= BITS_IN_ADDRESS && forall i :: length <= i < 32 ==> !prefix[i]
    ensures r.Ok? ==> r.value == CidrBlock(prefix, length) && ValidBlock(r.value)
    ensures r.Err? ==> r.error == RuntimeError
  {
    if 0 <= length <= BITS_IN_ADDRESS then
      var block := CidrBlock(prefix, length);
      ValidBlockHostBits(block);
      if ValidBlock(block) then Ok(block) else Err(RuntimeError)
    else
      Err(RuntimeError)
  }

  /** `CidrBlock::matches`. */
  function Matches(block: CidrBlock, address: Addr): bool
    requires ValidBlock(block)
  {
    BitAnd(address, MakeMask(block.length)) == block.prefix
  }

  /** An address matches a block exactly when it agrees with the prefix on
      the block's leading `length` bits. */
  lemma MatchesLeadingBits(block: CidrBlock, address: Addr)
    requires ValidBlock(block)
    ensures Matches(block, address) <==> address[..block.length] == block.prefix[..block.length]
  {
    if Matches(block, address) {
      MatchAgrees(block, address);
    }
    if address[..block.length] == block.prefix[..block.length] {
      AgreementMatches(block, address);
    }
  }

  lemma MatchAgrees(block: CidrBlock, address: Addr)
    requires ValidBlock(block) && BitAnd(address, MakeMask(block.length)) == block.prefix
    ensures address[..block.length] == block.prefix[..block.length]
  {
    var masked := BitAnd(address, MakeMask(block.length));
    assert forall i :: 0 <= i < block.length ==> address[i] == masked[i];
  }

  lemma AgreementMatches(block: CidrBlock, address: Addr)
    requires ValidBlock(block) && address[..block.length] == block.prefix[..block.length]
    ensures BitAnd(address, MakeMask(block.length)) == block.prefix
  {
    var masked := BitAnd(address, MakeMask(block.length));
    ValidBlockHostBits(block);
    forall i | 0 <= i < 32
      ensures masked[i] == block.prefix[i]
    {
      if i < block.length {
        assert address[..block.length][i] == block.prefix[..block.length][i];
      }
    }
  }

  /** A `/0` block matches every address. */
  lemma MatchesEverything(block: CidrBlock, address: Addr)
    requires ValidBlock(block) && block.length == 0
    ensures Matches(block, address)
  {
    MatchesLeadingBits(block, address);
  }

  /** A `/32` block matches its prefix and nothing else. */
  lemma MatchesExactly(block: CidrBlock, address: Addr)
    requires ValidBlock(block) && block.length == BITS_IN_ADDRESS
    ensures Matches(block, address) <==> address == block.prefix
  {
    MatchesLeadingBits(block, address);
  }

  // ---------------------------------------------------------------------
  // Rule lists
  // ---------------------------------------------------------------------

  /** `HtAccessRule`: a block and whether addresses in it are let in. */
  datatype Rule = Rule(pattern: CidrBlock, allow: bool)

  predicate ValidRules(rules: seq<Rule>) {
    forall i :: 0 <= i < |rules| ==> ValidBlock(rules[i].pattern)
  }

  /** Whether some rule's block matches the address. */
  function AnyMatch(rules: seq<Rule>, address: Addr): (r: bool)
    requires ValidRules(rules)
    ensures r <==> exists i :: 0 <= i < |rules| && Matches(rules[i].pattern, address)
  {
    if rules == [] then false
    else
      var rest := AnyMatch(rules[1..], address);
      assert rest <==> exists i :: 1 <= i < |rules| && Matches(rules[i].pattern, address) by {
        if rest {
          var k :| 0 <= k < |rules[1..]| && Matches(rules[1..][k].pattern, address);
          assert Matches(rules[k + 1].pattern, address);
        }
        if exists i :: 1 <= i < |rules| && Matches(rules[i].pattern, address) {
          var k :| 1 <= k < |rules| && Matches(rules[k].pattern, address);
          assert Matches(rules[1..][k - 1].pattern, address);
        }
      }
      Matches(rules[0].pattern, address) || rest
  }

  /** `HtAccess::allows`: the verdict of the first matching rule, and
      `true` when no rule matches; `AllowsFirstMatch` and `AllowsNoMatch`
      state it. An address is turned away only by a `deny` rule it
      matches. */
  function Allows(rules: seq<Rule>, address: Addr): (r: bool)
    requires ValidRules(rules)
    ensures !r ==> exists i :: 0 <= i < |rules| && Matches(rules[i].pattern, address) && !rules[i].allow
  {
    if rules == [] then true
    else if Matches(rules[0].pattern, address) then rules[0].allow
    else Allows(rules[1..], address)
  }

  /** With no matching rule the address is let in. */
  lemma {:induction false} AllowsNoMatch(rules: seq<Rule>, address: Addr)
    requires ValidRules(rules) && !AnyMatch(rules, address)
    ensures Allows(rules, address)
  {
    if rules != [] {
      AllowsNoMatch(rules[1..], address);
    }
  }

  /** Otherwise the first matching rule decides. */
  lemma {:induction false} AllowsFirstMatch(rules: seq<Rule>, address: Addr, i: nat)
    requires ValidRules(rules) && i < |rules| && Matches(rules[i].pattern, address)
    requires forall j :: 0 <= j < i ==> !Matches(rules[j].pattern, address)
    ensures Allows(rules, address) == rules[i].allow
  {
    if i > 0 {
      assert !Matches(rules[0].pattern, address);
      assert rules[1..][i - 1] == rules[i];
      AllowsFirstMatch(rules[1..], address, i - 1);
    }
  }

  /** The loop of `HtAccess::allows`, scanning the rules in list order. */
  method AllowsLoop(rules: seq<Rule>, address: Addr) returns (allowed: bool)
    requires ValidRules(rules)
    ensures allowed == Allows(rules, address)
  {
    var i := 0;
    while i < |rules|
      invariant 0 <= i <= |rules|
      invariant Allows(rules, address) == Allows(rules[i..], address)
    {
      assert rules[i..][1..] == rules[i + 1..];
      if Matches(rules[i].pattern, address) {
        return rules[i].allow;
      }
      i := i + 1;
    }
    return true;
  }

  /** The rules of a longer list are consulted only when none of the
      earlier rules matches. */
  lemma {:induction false} AllowsAppend(first: seq<Rule>, second: seq<Rule>, address: Addr)
    requires ValidRules(first) && ValidRules(second)
    ensures ValidRules(first + second)
    ensures Allows(first + second, address) ==
            if AnyMatch(first, address) then Allows(first, address) else Allows(second, address)
  {
    if first == [] {
      assert first + second == second;
    } else {
      assert (first + second)[0] == first[0];
      assert (first + second)[1..] == first[1..] + second;
      AllowsAppend(first[1..], second, address);
    }
  }

  // ---------------------------------------------------------------------
  // Parsing
  // ---------------------------------------------------------------------

  /** The conversions the parser borrows from the C library and the DNS
      client: `inet_pton` for a dotted quad (`None` when it fails), `stoi`
      for the prefix length (`None` when it throws `invalid_argument` or
      `out_of_range`), and `DnsClient::lookup`, which may throw. */
  datatype Resolver = Resolver(
    parseIp: string -> Option<Addr>,
    parseLength: string -> Option<int>,
    lookup: string -> Result<seq<Addr>>)

  /** `parse_ip`: a failed conversion throws `runtime_error`. */
  function ParseIp(env: Resolver, text: string): (r: Result<Addr>)
    ensures r.Ok? <==> env.parseIp(text).Some?
    ensures r.Ok? ==> r.value == env.parseIp(text).value
    ensures r.Err? ==> r.error == RuntimeError
  {
    match env.parseIp(text)
    case None => Err(RuntimeError)
    case Some(a) => Ok(a)
  }

  /** `parse_cidr`: text of the form `prefix/length`. */
  function ParseCidr(env: Resolver, text: string): (r: Result<CidrBlock>)
    ensures |Split(text, "/")| != 2 ==> r == Err(RuntimeError)
    ensures r.Ok? ==> ValidBlock(r.value)
    ensures r.Ok? ==> |Split(text, "/")| == 2 &&
                      env.parseIp(Split(text, "/")[0]) == Some(r.value.prefix) &&
                      env.parseLength(Split(text, "/")[1]).Some? &&
                      r == NewCidrBlock(r.value.prefix, env.parseLength(Split(text, "/")[1]).value)
    ensures r.Err? && r.error == InvalidArgument ==>
              |Split(text, "/")| == 2 && env.parseLength(Split(text, "/")[1]).None?
  {
    var parts := Split(text, "/");
    if |parts| != 2 then Err(RuntimeError)
    else
      match ParseIp(env, parts[0])
      case Err(e) => Err(e)
      case Ok(prefix) =>
        match env.parseLength(parts[1])
        case None => Err(InvalidArgument)
        case Some(length) => NewCidrBlock(prefix, length)
  }

  /** `ip/len` text parses to the block the two conversions describe. */
  lemma ParseCidrOf(env: Resolver, ip: string, len: string)
    requires Free(ip, "/") && Free(len, "/")
    requires env.parseIp(ip).Some? && env.parseLength(len).Some?
    ensures ParseCidr(env, ip + "/" + len) == NewCidrBlock(env.parseIp(ip).value, env.parseLength(len).value)
  {
    SplitLead(ip, len);
    SplitWhole(len, "/");
  }

  /** The `/32` blocks `parse_cidr_or_domain` builds from DNS results. */
  function HostBlocks(ips: seq<Addr>): (blocks: seq<CidrBlock>)
    ensures |blocks| == |ips|
    ensures forall i :: 0 <= i < |ips| ==> ValidBlock(blocks[i]) && blocks[i].length == BITS_IN_ADDRESS
    ensures forall i :: 0 <= i < |ips| ==> blocks[i].prefix == ips[i]
  {
    seq(|ips|, i requires 0 <= i < |ips| => CidrBlock(ips[i], BITS_IN_ADDRESS))
  }

  /** The block built from a DNS result matches that address and no
      other. */
  lemma HostBlockMatches(ips: seq<Addr>, i: nat, address: Addr)
    requires i < |ips|
    ensures Matches(HostBlocks(ips)[i], address) <==> address == ips[i]
  {
    MatchesExactly(HostBlocks(ips)[i], address);
  }

  /** `parse_cidr_or_domain`: a single block when the text is CIDR
      notation; otherwise, when `parse_cidr` threw a `runtime_error`, one
      `/32` block per DNS result in lookup order. A `stoi` failure is not a
      `runtime_error` and escapes the handler. */
  function ParseCidrOrDomain(env: Resolver, host: string): (r: Result<seq<CidrBlock>>)
    ensures r.Ok? ==> forall i :: 0 <= i < |r.value| ==> ValidBlock(r.value[i])
    ensures ParseCidr(env, host).Ok? ==> r == Ok([ParseCidr(env, host).value])
    ensures ParseCidr(env, host).Err? && !IsRuntimeError(ParseCidr(env, host).error) ==>
              r == Err(ParseCidr(env, host).error)
    ensures ParseCidr(env, host).Err? && IsRuntimeError(ParseCidr(env, host).error) ==>
              (r.Ok? <==> env.lookup(host).Ok?) &&
              (r.Ok? ==> r.value == HostBlocks(env.lookup(host).value)) &&
              (r.Err? ==> r.error == env.lookup(host).error)
  {
    match ParseCidr(env, host)
    case Ok(block) => Ok([block])
    case Err(e) =>
      if !IsRuntimeError(e) then Err(e)
      else
        match env.lookup(host)
        case Err(e2) => Err(e2)
        case Ok(ips) => Ok(HostBlocks(ips))
  }

  /** The keyword `parse_allow_deny` reads for a verdict. */
  function AllowDenyWord(allow: bool): string {
    if allow then "allow" else "deny"
  }

  /** `parse_allow_deny`: the inverse of `AllowDenyWord`; any other word
      throws `runtime_error`. */
  function ParseAllowDeny(word: string): (r: Result<bool>)
    ensures r.Ok? <==> word == AllowDenyWord(true) || word == AllowDenyWord(false)
    ensures r.Ok? ==> AllowDenyWord(r.value) == word
    ensures r.Err? ==> r.error == RuntimeError
  {
    if word == "allow" then Ok(true)
    else if word == "deny" then Ok(false)
    else Err(RuntimeError)
  }

  lemma AllowDenyRoundTrip(allow: bool)
    ensures ParseAllowDeny(AllowDenyWord(allow)) == Ok(allow)
  {
  }

  /** One rule per block, all with the same verdict. */
  function RulesFor(blocks: seq<CidrBlock>, allow: bool): (rules: seq<Rule>)
    ensures |rules| == |blocks|
    ensures forall i :: 0 <= i < |blocks| ==> rules[i].pattern == blocks[i] && rules[i].allow == allow
  {
    seq(|blocks|, i requires 0 <= i < |blocks| => Rule(blocks[i], allow))
  }

  const FROM: string := " from "

  /** The body of the loop in `parse_htaccess_rules` for one line: an empty
      line contributes nothing; otherwise the line must split into exactly
      two parts on `" from "`, a verdict and a host. */
  function ParseRuleLine(env: Resolver, line: string): (r: Result<seq<Rule>>)
    ensures line == "" ==> r == Ok([])
    ensures line != "" && |Split(line, FROM)| != 2 ==> r == Err(RuntimeError)
    ensures r.Ok? ==> ValidRules(r.value)
  {
    if line == "" then Ok([])
    else
      var parts := Split(line, FROM);
      if |parts| != 2 then Err(RuntimeError)
      else
        match ParseAllowDeny(parts[0])
        case Err(e) => Err(e)
        case Ok(allow) =>
          match ParseCidrOrDomain(env, parts[1])
          case Err(e) => Err(e)
          case Ok(blocks) => Ok(RulesFor(blocks, allow))
  }

  /** The rules of a well-formed line `allow from host` or `deny from
      host`: one per block the host expands to, in order, all carrying
      the line's verdict. */
  lemma ParseRuleLineOf(env: Resolver, allow: bool, host: string)
    requires Free(host, FROM)
    ensures ParseRuleLine(env, AllowDenyWord(allow) + FROM + host) ==
            match ParseCidrOrDomain(env, host)
            case Err(e) => Err(e)
            case Ok(blocks) => Ok(RulesFor(blocks, allow))
  {
    SplitPair(AllowDenyWord(allow), FROM, host);
  }

  /** Sequencing of two fallible rule lists: the first error wins. */
  function Concat(a: Result<seq<Rule>>, b: Result<seq<Rule>>): (r: Result<seq<Rule>>)
    ensures r.Ok? <==> a.Ok? && b.Ok?
    ensures r.Ok? ==> r.value == a.value + b.value
    ensures a.Err? ==> r == a
  {
    match a
    case Err(e) => Err(e)
    case Ok(x) =>
      match b
      case Err(e) => Err(e)
      case Ok(y) => Ok(x + y)
  }

  lemma ConcatLaws(a: Result<seq<Rule>>, b: Result<seq<Rule>>, c: Result<seq<Rule>>)
    ensures Concat(Concat(a, b), c) == Concat(a, Concat(b, c))
    ensures Concat(Ok([]), a) == a && Concat(a, Ok([])) == a
  {
    if a.Ok? {
      assert [] + a.value == a.value + [] == a.value;
      if b.Ok? && c.Ok? {
        assert a.value + b.value + c.value == a.value + (b.value + c.value);
      }
    }
  }

  function ParseRuleLines(env: Resolver, lines: seq<string>): (r: Result<seq<Rule>>)
    ensures r.Ok? ==> ValidRules(r.value)
  {
    if lines == [] then Ok([])
    else Concat(ParseRuleLine(env, lines[0]), ParseRuleLines(env, lines[1..]))
  }

  /** `parse_htaccess_rules`: the rules of every line, in file order; the
      first malformed line throws. */
  function ParseHtAccessRules(env: Resolver, text: string): (r: Result<seq<Rule>>)
    ensures r.Ok? ==> ValidRules(r.value)
  {
    ParseRuleLines(env, Split(text, "\n"))
  }

  lemma {:induction false} ParseRuleLinesAppend(env: Resolver, a: seq<string>, b: seq<string>)
    ensures ParseRuleLines(env, a + b) == Concat(ParseRuleLines(env, a), ParseRuleLines(env, b))
  {
    if a == [] {
      assert a + b == b;
      ConcatLaws(ParseRuleLines(env, b), Ok([]), Ok([]));
    } else {
      assert (a + b)[1..] == a[1..] + b;
      ParseRuleLinesAppend(env, a[1..], b);
      ConcatLaws(ParseRuleLine(env, a[0]), ParseRuleLines(env, a[1..]), ParseRuleLines(env, b));
    }
  }

  /** A rule file is line-compositional: the rules of `a` and `b` joined by
      a newline are those of `a` followed by those of `b`, and an error in
      `a` is reported before anything in `b` is looked at. */
  lemma ParseHtAccessRulesJoin(env: Resolver, a: string, b: string)
    ensures ParseHtAccessRules(env, a + "\n" + b) ==
            Concat(ParseHtAccessRules(env, a), ParseHtAccessRules(env, b))
  {
    BorderFreeSeparators();
    SplitAcrossSeparator(a, "\n", b);
    ParseRuleLinesAppend(env, Split(a, "\n"), Split(b, "\n"));
  }

  /** A file consisting of one well-formed line holds exactly that line's
      rules. */
  lemma ParseSingleLine(env: Resolver, line: string)
    requires Free(line, "\n")
    ensures ParseHtAccessRules(env, line) == ParseRuleLine(env, line)
  {
    SplitWhole(line, "\n");
    assert [line][1..] == [];
    assert ParseRuleLines(env, []) == Ok([]);
    ConcatLaws(ParseRuleLine(env, line), Ok([]), Ok([]));
    assert ParseRuleLines(env, [line]) == Concat(ParseRuleLine(env, line), Ok([]));
  }

  /** An empty line contributes no rules. */
  lemma ParseSkipsBlankLine(env: Resolver, a: string, b: string)
    ensures ParseHtAccessRules(env, a + "\n" + "" + "\n" + b) == ParseHtAccessRules(env, a + "\n" + b)
  {
    assert a + "\n" + "" + "\n" + b == a + "\n" + ("" + "\n" + b);
    ParseHtAccessRulesJoin(env, a, "" + "\n" + b);
    ParseHtAccessRulesJoin(env, "", b);
    SplitOfEmpty("\n");
    assert [""][1..] == [];
    ConcatLaws(Ok([]), Ok([]), Ok([]));
    ConcatLaws(ParseHtAccessRules(env, b), Ok([]), Ok([]));
    ParseHtAccessRulesJoin(env, a, b);
  }
}
