/**
 The allow-list of address ranges (security/SubnetFilter.cpp): byte-wise masking
 when a range is added and byte-wise matching when an address is asked about,
 against the meaning of a prefix, equal values after dropping the host bits
 (section 3.1 of RFC 4632, section 2.3 of RFC 4291).  The platform's address
 parser is any partial function from text to an address.
 */
module Subnet {
  import opened Util
  import opened Text

  datatype Family = V4 | V6

  function Width(f: Family): nat { if f.V4? then 4 else 16 }

  type Bytes16 = b: Bytes | |b| == 16 witness seq(16, _ => 0)

  // The bytes of an address in network order; an IPv4 address uses the first four of sixteen.
  datatype Address = Address(family: Family, bytes: Bytes16)

  type Parser = string -> Option<Address>

  datatype AnyRule = Rule(family: Family, net: Bytes16, prefixBits: nat)

  type Rule = r: AnyRule | r.prefixBits <= 8 * Width(r.family) witness Rule(V4, seq(16, _ => 0), 0)

  // ------------------------------------------------------------------ meaning

  function Pow2(n: nat): nat { if n == 0 then 1 else 2 * Pow2(n - 1) }

  // The address as one number.
  function Number(family: Family, bytes: Bytes16): nat {
    Value(bytes[..Width(family)])
  }

  // The address lies in the range: same number once the host bits are dropped.
  predicate InRange(a: Address, r: Rule) {
    var hostBits := 8 * Width(r.family) - r.prefixBits;
    Pow2Positive(hostBits);
    a.family == r.family && Number(r.family, a.bytes) / Pow2(hostBits) == Number(r.family, r.net) / Pow2(hostBits)
  }

  // ------------------------------------------------------- masks on one byte

  // b & (0xFF << (8 - keep)): the high `keep` bits.
  function HighBits(b: byte, keep: nat): byte
    requires keep <= 8
  {
    Pow2Positive(8 - keep);
    (b as nat - b as nat % Pow2(8 - keep)) as byte
  }

  lemma {:induction false} Pow2Positive(n: nat)
    ensures Pow2(n) > 0
  {
    if n > 0 { Pow2Positive(n - 1); }
  }

  lemma {:induction false} Pow2Add(a: nat, b: nat)
    ensures Pow2(a + b) == Pow2(a) * Pow2(b)
  {
    if a > 0 {
      Pow2Add(a - 1, b);
      assert a - 1 + b == a + b - 1;
      DoubleOfProduct(Pow2(a - 1), Pow2(b));
    }
  }

  lemma DoubleOfProduct(x: nat, y: nat)
    ensures 2 * (x * y) == (2 * x) * y
  {
  }

  lemma SameQuotient(x: nat, y: nat, d: nat)
    requires d > 0
    ensures x - x % d == y - y % d <==> x / d == y / d
    ensures (x - x % d) / d == x / d
  {
    DivUnique(x - x % d, d, x / d, 0);
    DivUnique(y - y % d, d, y / d, 0);
  }

  // Bytes agree on their high bits exactly when they agree after dividing off the rest.
  lemma HighBitsMeaning(a: byte, b: byte, keep: nat)
    requires keep <= 8
    ensures Pow2(8 - keep) > 0
    ensures HighBits(a, keep) == HighBits(b, keep) <==> a as nat / Pow2(8 - keep) == b as nat / Pow2(8 - keep)
  {
    Pow2Positive(8 - keep);
    SameQuotient(a as nat, b as nat, Pow2(8 - keep));
  }

  lemma HighBitsTwice(a: byte, keep: nat)
    requires keep <= 8
    ensures HighBits(HighBits(a, keep), keep) == HighBits(a, keep)
  {
    Pow2Positive(8 - keep);
    SameQuotient(a as nat, HighBits(a, keep) as nat, Pow2(8 - keep));
  }

  // ---------------------------------------------------------- matching a range

  predicate Matches(a: Bytes, net: Bytes, prefixBits: nat)
    requires |a| == 16 && |net| == 16 && prefixBits <= 128
  {
    var (full, rem) := (prefixBits / 8, prefixBits % 8);
    a[..full] == net[..full] && (rem > 0 ==> HighBits(a[full], rem) == HighBits(net[full], rem))
  }

  // Dividing a number by 256 per byte drops its last bytes.
  lemma {:induction false} DropBytes(b: Bytes, j: nat)
    requires j <= |b|
    ensures Pow2(8 * j) > 0 && Value(b) / Pow2(8 * j) == Value(b[..|b| - j])
  {
    if j == 0 {
      assert b[..|b|] == b;
    } else {
      DropBytes(b, j - 1);
      var c := b[..|b| - (j - 1)];
      assert c[..|c| - 1] == b[..|b| - j];
      Pow2Add(8 * (j - 1), 8);
      assert Pow2(8) == 256;
      DivDiv(Value(b), Pow2(8 * (j - 1)), 256);
      DivUnique(Value(c), 256, Value(b[..|b| - j]), c[|c| - 1] as nat);
    }
  }

  lemma ValueIsInjective(a: Bytes, b: Bytes)
    requires |a| == |b|
    ensures Value(a) == Value(b) <==> a == b
  {
    BigEndianOfValue(a);
    BigEndianOfValue(b);
  }

  // Dropping the low bits of the last byte leaves the bytes before it and its high bits.
  lemma SplitLast(v: nat, x: nat, d: nat, e: nat)
    requires e * d == 256 && x < 256 && d > 0
    ensures x / d < e && (v * 256 + x) / d == v * e + x / d
  {
    if x / d >= e { MulMonotone(e, x / d, d); }
    assert v * 256 == v * (e * d) == v * e * d;
    assert (v * e + x / d) * d == v * e * d + x / d * d;
    DivUnique(v * 256 + x, d, v * e + x / d, x % d);
  }

  lemma SamePair(v: nat, x: nat, w: nat, y: nat, e: nat)
    requires x < e && y < e
    ensures v * e + x == w * e + y <==> v == w && x == y
  {
    DivUnique(v * e + x, e, v, x);
    DivUnique(w * e + y, e, w, y);
  }

  // A number ending in byte x without its low bits: d is the power of two they span.
  function Shifted(v: nat, x: byte, d: nat): nat
    requires d > 0
  {
    (v * 256 + x as nat) / d
  }

  lemma SameShifted(v: nat, x: byte, w: nat, y: byte, d: nat, e: nat)
    requires e * d == 256 && d > 0
    ensures Shifted(v, x, d) == Shifted(w, y, d) <==> v == w && x as nat / d == y as nat / d
  {
    SplitLast(v, x as nat, d, e);
    SplitLast(w, y as nat, d, e);
    SamePair(v, x as nat / d, w, y as nat / d, e);
  }

  lemma ByteSplits(keep: nat)
    requires 1 <= keep <= 7
    ensures Pow2(8 - keep) > 0 && Pow2(keep) * Pow2(8 - keep) == 256
  {
    Pow2Positive(8 - keep);
    Pow2Add(keep, 8 - keep);
    assert Pow2(8) == 256;
  }

  /** Byte-wise matching is equality of the two numbers after dropping host bits. */
  lemma MatchingIsContainment(a: Bytes, net: Bytes, width: nat, prefixBits: nat)
    requires |a| == 16 && |net| == 16 && width <= 16 && prefixBits <= 8 * width
    ensures Pow2(8 * width - prefixBits) > 0
    ensures Matches(a, net, prefixBits)
       <==> Value(a[..width]) / Pow2(8 * width - prefixBits) == Value(net[..width]) / Pow2(8 * width - prefixBits)
  {
    var full, rem := prefixBits / 8, prefixBits % 8;
    if rem == 0 {
      WholeBytes(a, net, width, full);
    } else {
      BrokenByte(a, net, width, full, rem);
    }
  }

  lemma WholeBytes(a: Bytes, net: Bytes, width: nat, full: nat)
    requires |a| == 16 && |net| == 16 && full <= width <= 16
    ensures Pow2(8 * width - 8 * full) > 0
    ensures a[..full] == net[..full]
       <==> Value(a[..width]) / Pow2(8 * width - 8 * full) == Value(net[..width]) / Pow2(8 * width - 8 * full)
  {
    assert 8 * width - 8 * full == 8 * (width - full);
    DropBytes(a[..width], width - full);
    DropBytes(net[..width], width - full);
    assert a[..width][..full] == a[..full] && net[..width][..full] == net[..full];
    ValueIsInjective(a[..full], net[..full]);
  }

  lemma BrokenByte(a: Bytes, net: Bytes, width: nat, full: nat, rem: nat)
    requires |a| == 16 && |net| == 16 && full < width <= 16 && 1 <= rem <= 7
    ensures var hostBits := 8 * width - (8 * full + rem);
      Pow2(hostBits) > 0
      && ((a[..full] == net[..full] && HighBits(a[full], rem) == HighBits(net[full], rem))
          <==> Value(a[..width]) / Pow2(hostBits) == Value(net[..width]) / Pow2(hostBits))
  {
    ByteSplits(rem);
    var v := PartialByte(a, width, full, rem);
    var w := PartialByte(net, width, full, rem);
    ValueIsInjective(a[..full], net[..full]);
    HighBitsMeaning(a[full], net[full], rem);
    SameShifted(v, a[full], w, net[full], Pow2(8 - rem), Pow2(rem));
  }

  lemma PartialByte(a: Bytes, width: nat, full: nat, rem: nat) returns (v: nat)
    requires |a| == 16 && full < width <= 16 && 1 <= rem <= 7
    ensures v == Value(a[..full]) && Pow2(8 - rem) > 0 && Pow2(8 * width - (8 * full + rem)) > 0
    ensures Value(a[..width]) / Pow2(8 * width - (8 * full + rem)) == Shifted(v, a[full], Pow2(8 - rem))
  {
    v := Value(a[..full]);
    var j := width - full - 1;
    DropBytes(a[..width], j);
    assert a[..width][..full + 1] == a[..full + 1];
    assert a[..full + 1][..full] == a[..full];
    Pow2Positive(8 - rem);
    Pow2Add(8 * j, 8 - rem);
    assert 8 * width - (8 * full + rem) == 8 * j + (8 - rem);
    DivDiv(Value(a[..width]), Pow2(8 * j), Pow2(8 - rem));
  }

  // -------------------------------------------------------------------- masks

  function MaskByte(b: byte, i: nat, prefixBits: nat): byte {
    if i * 8 >= prefixBits then 0
    else if i * 8 + 8 > prefixBits then HighBits(b, prefixBits - i * 8)
    else b
  }

  function Mask(a: Bytes, width: nat, prefixBits: nat): Bytes {
    seq(|a|, i requires 0 <= i < |a| => if i < width then MaskByte(a[i], i, prefixBits) else a[i])
  }

  lemma MaskedMatches(a: Bytes, net: Bytes, width: nat, prefixBits: nat)
    requires |a| == 16 && |net| == 16 && width <= 16 && prefixBits <= 8 * width
    ensures Matches(a, Mask(net, width, prefixBits), prefixBits) <==> Matches(a, net, prefixBits)
  {
    var full, rem := prefixBits / 8, prefixBits % 8;
    assert Mask(net, width, prefixBits)[..full] == net[..full];
    if rem > 0 { HighBitsTwice(net[full], rem); }
  }

  function Masked(r: Rule): Rule { r.(net := Mask(r.net, Width(r.family), r.prefixBits)) }

  /** Masking the address of a rule does not change which addresses it holds. */
  lemma MaskKeepsRange(a: Address, r: Rule)
    ensures InRange(a, Masked(r)) <==> InRange(a, r)
  {
    RangeIsMatch(a, r);
    RangeIsMatch(a, Masked(r));
    MaskedMatches(a.bytes, r.net, Width(r.family), r.prefixBits);
  }

  lemma RangeIsMatch(a: Address, r: Rule)
    ensures InRange(a, r) <==> a.family == r.family && Matches(a.bytes, r.net, r.prefixBits)
  {
    MatchingIsContainment(a.bytes, r.net, Width(r.family), r.prefixBits);
  }

  // ------------------------------------------------------------- reading rules

  predicate AllDigits(s: string) { forall i | 0 <= i < |s| :: IsDigit(s[i]) }

  // The range a token names, if it is well formed: an address and at most its
  // width in prefix bits, all of them for a bare address.
  function CidrOf(parse: Parser, token: string): Option<Rule> {
    IndexOfBound(token, '/');
    match IndexOf(token, '/')
    case None =>
      var a :- parse(token);
      Some(Rule(a.family, a.bytes, 8 * Width(a.family)))
    case Some(slash) =>
      var bits := token[slash + 1..];
      if bits == "" || !AllDigits(bits) then None else
        var a :- parse(token[..slash]);
        if Atoi(bits) > 8 * Width(a.family) then None else Some(Rule(a.family, a.bytes, Atoi(bits)))
  }

  predicate IsSeparator(c: char) {
    c == ',' || c == ' ' || c == '\t' || c == '\n' || c == '\U{000B}' || c == '\U{000C}' || c == '\r'
  }

  function Tokens(list: string): seq<string> { Split(list, IsSeparator) }

  // A comma, or what the C library takes for a blank.
  const SEPARATORS: string := ", \t\n\U{000B}\U{000C}\r"

  /** A list is cut at commas and blanks of any kind. */
  lemma ListsAreCut(a: string, c: char, b: string)
    requires c in SEPARATORS
    ensures Tokens(a + [c] + b) == Tokens(a) + Tokens(b)
    ensures a != "" && (forall d | d in a :: d !in SEPARATORS) ==> Tokens(a) == [a]
  {
    SplitAtSeparator(a, c, b, IsSeparator);
    if forall d | d in a :: d !in SEPARATORS {
      forall i | 0 <= i < |a| ensures !IsSeparator(a[i]) { assert a[i] in a; }
    }
  }

  // The rules the well-formed tokens add, masked, in order.
  function RulesOf(parse: Parser, tokens: seq<string>): seq<Rule> {
    if tokens == [] then [] else
      RulesOf(parse, tokens[..|tokens| - 1])
      + match CidrOf(parse, tokens[|tokens| - 1])
        case None => []
        case Some(r) => [Masked(r)]
  }

  ghost predicate Allows(rules: seq<Rule>, a: Address) {
    exists i | 0 <= i < |rules| :: InRange(a, rules[i])
  }

  // Some well-formed token of the list names a range the address lies in.
  ghost predicate Listed(parse: Parser, tokens: seq<string>, a: Address) {
    exists i | 0 <= i < |tokens| :: Names(parse, tokens[i], a)
  }

  predicate Names(parse: Parser, token: string, a: Address) {
    CidrOf(parse, token).Some? && InRange(a, CidrOf(parse, token).value)
  }

  /** The rules a list adds hold exactly the addresses its well-formed tokens name. */
  lemma {:induction false} RulesAreTheUnion(parse: Parser, tokens: seq<string>, a: Address)
    ensures Allows(RulesOf(parse, tokens), a) <==> Listed(parse, tokens, a)
    decreases |tokens|
  {
    if tokens != [] {
      var front, token := tokens[..|tokens| - 1], tokens[|tokens| - 1];
      RulesAreTheUnion(parse, front, a);
      ListedOneMore(parse, front, token, a);
      assert tokens == front + [token];
      var r := CidrOf(parse, token);
      if r.Some? {
        MaskKeepsRange(a, r.value);
        AllowsOneMore(RulesOf(parse, front), Masked(r.value), a);
      } else {
        assert RulesOf(parse, tokens) == RulesOf(parse, front);
      }
    }
  }

  lemma ListedOneMore(parse: Parser, tokens: seq<string>, token: string, a: Address)
    ensures Listed(parse, tokens + [token], a) <==> Listed(parse, tokens, a) || Names(parse, token, a)
  {
    var all := tokens + [token];
    if Listed(parse, tokens, a) {
      var i :| 0 <= i < |tokens| && Names(parse, tokens[i], a);
      assert all[i] == tokens[i];
    }
    if Names(parse, token, a) { assert all[|tokens|] == token; }
  }

  lemma AllowsOneMore(rules: seq<Rule>, r: Rule, a: Address)
    ensures Allows(rules + [r], a) <==> Allows(rules, a) || InRange(a, r)
  {
    var all := rules + [r];
    if Allows(rules, a) {
      var i :| 0 <= i < |rules| && InRange(a, rules[i]);
      assert all[i] == rules[i];
    }
    if InRange(a, r) { assert all[|rules|] == r; }
  }

  // ------------------------------------------------------ what a token denotes

  // The two addresses have one family and the same leading bits.
  ghost predicate InBlock(net: Address, prefixBits: nat, a: Address) {
    && a.family == net.family && prefixBits <= 8 * Width(net.family)
    && (Pow2Positive(8 * Width(net.family) - prefixBits);
        var d := Pow2(8 * Width(net.family) - prefixBits);
        Number(a.family, a.bytes) / d == Number(net.family, net.bytes) / d)
  }

  // A bare address denotes itself; an address, a slash and digits denote a block, if the
  // number is not beyond the width; any other text denotes nothing.
  ghost predicate Denotes(parse: Parser, token: string, a: Address) {
    || ('/' !in token && parse(token).Some? && SameAddress(parse(token).value, a))
    || exists addr, bits :: DenotesBlock(parse, token, addr, bits, a)
  }

  predicate SameAddress(b: Address, a: Address) {
    a.family == b.family && a.bytes[..Width(a.family)] == b.bytes[..Width(b.family)]
  }

  ghost predicate DenotesBlock(parse: Parser, token: string, addr: string, bits: string, a: Address) {
    && token == addr + "/" + bits && '/' !in addr && bits != "" && AllDigits(bits)
    && parse(addr).Some? && InBlock(parse(addr).value, Atoi(bits), a)
  }

  lemma WholeWidth(b: Address, a: Address)
    ensures InBlock(b, 8 * Width(b.family), a) <==> SameAddress(b, a)
  {
    assert Pow2(0) == 1;
    if a.family == b.family { ValueIsInjective(a.bytes[..Width(a.family)], b.bytes[..Width(b.family)]); }
  }

  lemma {:induction false} NoIndex(s: string, c: char)
    ensures IndexOf(s, c).None? <==> c !in s
  {
    if s != "" {
      NoIndex(s[1..], c);
      assert s == [s[0]] + s[1..];
    }
  }

  // The text around the first slash is the only way to read a token as address, slash, rest.
  lemma AtFirstSlash(token: string, addr: string, rest: string)
    requires token == addr + "/" + rest && '/' !in addr
    ensures IndexOf(token, '/') == Some(|addr|) && token[..|addr|] == addr && token[|addr| + 1..] == rest
  {
    IndexOfAfter(addr, '/', rest);
  }

  lemma BareDenotes(parse: Parser, token: string, a: Address)
    requires '/' !in token
    ensures Names(parse, token, a) <==> Denotes(parse, token, a)
  {
    NoIndex(token, '/');
    if parse(token).Some? { WholeWidth(parse(token).value, a); }
    forall addr: string, bits: string ensures '/' in addr + "/" + bits { assert (addr + "/" + bits)[|addr|] == '/'; }
  }

  lemma SlashDenotes(parse: Parser, token: string, slash: nat, a: Address)
    requires IndexOf(token, '/') == Some(slash)
    ensures Names(parse, token, a) <==> Denotes(parse, token, a)
  {
    NoIndex(token, '/');
    IndexOfIsFirst(token, '/');
    IndexOfHits(token, '/');
    var addr, bits := token[..slash], token[slash + 1..];
    assert token == addr + "/" + bits;
    if Names(parse, token, a) { assert DenotesBlock(parse, token, addr, bits, a); }
    if Denotes(parse, token, a) {
      var x, y :| DenotesBlock(parse, token, x, y, a);
      AtFirstSlash(token, x, y);
    }
  }

  lemma {:induction false} IndexOfHits(s: string, c: char)
    ensures IndexOf(s, c).Some? ==> IndexOf(s, c).value < |s| && s[IndexOf(s, c).value] == c
  {
    if s != "" && s[0] != c { IndexOfHits(s[1..], c); }
  }

  lemma AllowsJoin(rules: seq<Rule>, more: seq<Rule>, a: Address)
    ensures Allows(rules + more, a) <==> Allows(rules, a) || Allows(more, a)
  {
    var all := rules + more;
    if Allows(rules, a) {
      var i :| 0 <= i < |rules| && InRange(a, rules[i]);
      assert all[i] == rules[i];
    }
    if Allows(more, a) {
      var i :| 0 <= i < |more| && InRange(a, more[i]);
      assert all[|rules| + i] == more[i];
    }
  }

  // Some text among these denotes the address.
  ghost predicate Denoted(parse: Parser, tokens: seq<string>, a: Address) {
    exists token | token in tokens :: Denotes(parse, token, a)
  }

  /** An allow-list lets in, besides what was let in before, exactly the addresses its tokens
      denote: those equal to a bare address, and those that agree with an address in as many
      leading bits as stand after its slash. */
  lemma AllowListIsExact(parse: Parser, rules: seq<Rule>, tokens: seq<string>, a: Address)
    ensures Allows(rules + RulesOf(parse, tokens), a) <==> Allows(rules, a) || Denoted(parse, tokens, a)
  {
    AllowsJoin(rules, RulesOf(parse, tokens), a);
    RulesAreTheUnion(parse, tokens, a);
    forall token | token in tokens ensures Names(parse, token, a) <==> Denotes(parse, token, a) {
      TokenDenotes(parse, token, a);
    }
    if Denoted(parse, tokens, a) {
      var token :| token in tokens && Denotes(parse, token, a);
      var i :| 0 <= i < |tokens| && tokens[i] == token;
      assert Names(parse, tokens[i], a);
    }
  }

  // The text denotes something.
  ghost predicate WellFormed(parse: Parser, token: string) { exists a: Address :: Denotes(parse, token, a) }

  lemma WellFormedIsCidr(parse: Parser, token: string)
    ensures CidrOf(parse, token).Some? <==> WellFormed(parse, token)
  {
    if CidrOf(parse, token).Some? {
      var r := CidrOf(parse, token).value;
      var a := Address(r.family, r.net);
      assert InRange(a, r) && Names(parse, token, a);
      TokenDenotes(parse, token, a);
    }
    if WellFormed(parse, token) {
      var a: Address :| Denotes(parse, token, a);
      TokenDenotes(parse, token, a);
    }
  }

  lemma TokenDenotes(parse: Parser, token: string, a: Address)
    ensures Names(parse, token, a) <==> Denotes(parse, token, a)
  {
    NoIndex(token, '/');
    match IndexOf(token, '/')
    case None => BareDenotes(parse, token, a);
    case Some(slash) => SlashDenotes(parse, token, slash, a);
  }

  /** In particular, a number as it is printed after the slash is the number of bits. */
  lemma PrintedPrefix(parse: Parser, addr: string, n: nat, a: Address)
    requires '/' !in addr
    ensures Denotes(parse, addr + "/" + Decimal(n), a) <==> parse(addr).Some? && InBlock(parse(addr).value, n, a)
  {
    var token := addr + "/" + Decimal(n);
    AtoiOfDecimal(n);
    DecimalIsDigits(n);
    assert token[|addr|] == '/';
    if parse(addr).Some? && InBlock(parse(addr).value, n, a) {
      assert DenotesBlock(parse, token, addr, Decimal(n), a);
    }
    if Denotes(parse, token, a) {
      var x, y :| DenotesBlock(parse, token, x, y, a);
      AtFirstSlash(token, x, y);
      AtFirstSlash(token, addr, Decimal(n));
    }
  }

  // ------------------------------------------------------------- the program

  class SubnetFilter {
    const parse: Parser
    var rules: seq<Rule>

    constructor (parse: Parser)
      ensures this.parse == parse && rules == []
    {
      this.parse, rules := parse, [];
    }

    static method MaskInPlace(a: array<byte>, family: Family, prefixBits: nat)
      requires a.Length == 16
      modifies a
      ensures a[..] == Mask(old(a[..]), Width(family), prefixBits)
    {
      var n := Width(family);
      for i := 0 to n
        invariant forall k | 0 <= k < i :: a[k] == MaskByte(old(a[k]), k, prefixBits)
        invariant forall k | i <= k < 16 :: a[k] == old(a[k])
      {
        var bitStart := i * 8;
        if bitStart >= prefixBits {
          a[i] := 0;
        } else if bitStart + 8 > prefixBits {
          var keep := prefixBits - bitStart;
          a[i] := HighBits(a[i], keep);
        }
      }
    }

    static method MatchPrefix(a: Bytes, net: Bytes, prefixBits: nat) returns (same: bool)
      requires |a| == 16 && |net| == 16 && prefixBits <= 128
      ensures same == Matches(a, net, prefixBits)
    {
      var fullBytes := prefixBits / 8;
      var remBits := prefixBits % 8;
      for i := 0 to fullBytes
        invariant a[..i] == net[..i]
      {
        if a[i] != net[i] {
          assert a[..fullBytes][i] != net[..fullBytes][i];
          return false;
        }
      }
      if remBits != 0 && HighBits(a[fullBytes], remBits) != HighBits(net[fullBytes], remBits) { return false; }
      return true;
    }

    /** Adds the range the text names, masked; refuses malformed text. */
    method AddCidr(cidr: string) returns (ok: bool)
      modifies this`rules
      ensures ok <==> WellFormed(parse, cidr)
      ensures ok == CidrOf(parse, cidr).Some?
      ensures rules == old(rules) + RulesOf(parse, [cidr])
    {
      WellFormedIsCidr(parse, cidr);
      assert [cidr][..0] == [];
      IndexOfBound(cidr, '/');
      var addr := cidr;
      var prefix := -1;
      var slash := IndexOf(cidr, '/');
      if slash.Some? {
        addr := cidr[..slash.value];
        var bits := cidr[slash.value + 1..];
        if bits == "" { return false; }
        for i := 0 to |bits|
          invariant forall k | 0 <= k < i :: IsDigit(bits[k])
        {
          if !IsDigit(bits[i]) { return false; }
        }
        prefix := Atoi(bits);
      }
      var a := parse(addr);
      if a.None? { return false; }
      var maxPrefix := 8 * Width(a.value.family);
      if prefix < 0 { prefix := maxPrefix; }
      if prefix > maxPrefix { return false; }
      var bytes := new byte[16](i requires 0 <= i < 16 => a.value.bytes[i]);
      assert bytes[..] == a.value.bytes;
      MaskInPlace(bytes, a.value.family, prefix);
      rules := rules + [Rule(a.value.family, bytes[..], prefix)];
      return true;
    }

    /** Adds the well-formed tokens of the list and counts them. */
    method AddList(list: string) returns (added: nat)
      modifies this`rules
      ensures rules == old(rules) + RulesOf(parse, Tokens(list))
      ensures added == |RulesOf(parse, Tokens(list))|
      ensures forall a: Address :: Allows(rules, a) <==> old(Allows(rules, a)) || Denoted(parse, Tokens(list), a)
    {
      added := 0;
      var token := "";
      ghost var done: seq<string> := [];
      for i := 0 to |list|
        invariant Cut(list[..i], IsSeparator) == (done, token)
        invariant rules == old(rules) + RulesOf(parse, done) && added == |RulesOf(parse, done)|
      {
        assert list[..i + 1][..i] == list[..i];
        if IsSeparator(list[i]) {
          if token != "" {
            added := Flush(token, added, done, old(rules));
            done := done + [token];
            token := "";
          }
        } else {
          token := token + [list[i]];
        }
      }
      assert list[..|list|] == list;
      if token != "" {
        added := Flush(token, added, done, old(rules));
      }
      forall a: Address ensures Allows(rules, a) <==> old(Allows(rules, a)) || Denoted(parse, Tokens(list), a) {
        AllowListIsExact(parse, old(rules), Tokens(list), a);
      }
    }

    method Flush(token: string, added: nat, ghost done: seq<string>, ghost before: seq<Rule>) returns (now: nat)
      requires rules == before + RulesOf(parse, done) && added == |RulesOf(parse, done)|
      modifies this`rules
      ensures rules == before + RulesOf(parse, done + [token]) && now == |RulesOf(parse, done + [token])|
    {
      assert (done + [token])[..|done|] == done && [token][..0] == [];
      var ok := AddCidr(token);
      now := if ok then added + 1 else added;
    }

    /** Fail closed: allowed only inside some rule. */
    method IsAllowed(ip: string) returns (ok: bool)
      ensures ok <==> parse(ip).Some? && Allows(rules, parse(ip).value)
    {
      if rules == [] { return false; }
      var a := parse(ip);
      if a.None? { return false; }
      for i := 0 to |rules|
        invariant forall k | 0 <= k < i :: !InRange(a.value, rules[k])
      {
        var r := rules[i];
        RangeIsMatch(a.value, r);
        if r.family != a.value.family { continue; }
        var same := MatchPrefix(a.value.bytes, r.net, r.prefixBits);
        if same { return true; }
      }
      return false;
    }
  }
}
