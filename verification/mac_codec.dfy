/**
 * MAC addresses in the allocator (scapi_get_nextmac.c): the 17-character text form,
 * its validation, the octet form, and the two incrementers the library uses.
 */
module MacCodec {
  import opened Wrappers
  import opened CString
  import opened Codes

  type Byte = b: int | 0 <= b < 256
  type Octets = s: seq<Byte> | |s| == 6 witness [0, 0, 0, 0, 0, 0]

  // ---------------------------------------------------------------- text form

  /** Position i of a MAC text holds a colon (every third character) or a hex digit. */
  predicate PatternAt(c: char, i: nat) {
    if i % 3 == 2 then c == ':' else IsHexDigit(c)
  }

  /** The textual form "xx:xx:xx:xx:xx:xx", hex digits of either case. */
  predicate WellFormedMac(s: string) {
    |s| == 17 && forall i :: 0 <= i < 17 ==> PatternAt(s[i], i)
  }

  /** scapi_isValidMac, reading the C buffer from position i the way its loop does. */
  predicate CheckFrom(s: string, i: nat)
    decreases 17 - i
  {
    if i >= 17 then CharAt(s, 17) == NUL
    else PatternAt(CharAt(s, i), i) && CheckFrom(s, i + 1)
  }

  /** scapi_isValidMac(s) == EXIT_SUCCESS */
  predicate IsValidMac(s: string) {
    CheckFrom(s, 0)
  }

  lemma {:induction false} CheckFromIff(s: string, i: nat)
    requires NulFree(s) && i <= 17 && i <= |s|
    ensures CheckFrom(s, i) <==> |s| == 17 && forall k :: i <= k < 17 ==> PatternAt(s[k], k)
    decreases 17 - i
  {
    if i < 17 {
      if i == |s| {
        assert !PatternAt(CharAt(s, i), i);
      } else {
        CheckFromIff(s, i + 1);
      }
    }
  }

  /** The character-by-character check accepts exactly the well-formed 17-character texts. */
  lemma IsValidMacIff(s: string)
    requires NulFree(s)
    ensures IsValidMac(s) <==> WellFormedMac(s)
  {
    CheckFromIff(s, 0);
  }

  /**
   * The regular expression ^[0-9A-F]{2}(:[0-9A-F]{2}){5}$ compiled with REG_ICASE,
   * group by group: group g is two hex digits at 3g, preceded by a colon when g > 0.
   */
  predicate RegexGroups(s: string, g: nat)
    requires g <= 6 && |s| == 17
    decreases 6 - g
  {
    g == 6 ||
    (IsHexDigit(s[3 * g]) && IsHexDigit(s[3 * g + 1]) && (g > 0 ==> s[3 * g - 1] == ':')
     && RegexGroups(s, g + 1))
  }

  predicate RegexMatch(s: string) {
    |s| == 17 && RegexGroups(s, 0)
  }

  /** scapi_isValidMacAddress: the empty string is accepted, anything else must match the regex. */
  function IsValidMacAddress(s: string): (r: Code)
    ensures r == Ok || r == ValidationFailed
  {
    if |s| == 0 then Ok
    else if RegexMatch(s) then Ok
    else ValidationFailed
  }

  lemma {:induction false} RegexGroupsIff(s: string, g: nat)
    requires g <= 6 && |s| == 17
    ensures RegexGroups(s, g) <==>
              g == 6 ||
              ((forall k :: 3 * g <= k < 17 ==> PatternAt(s[k], k)) && (g > 0 ==> s[3 * g - 1] == ':'))
    decreases 6 - g
  {
    if g < 6 {
      RegexGroupsIff(s, g + 1);
      if (forall k :: 3 * g <= k < 17 ==> PatternAt(s[k], k)) && (g > 0 ==> s[3 * g - 1] == ':') {
        assert PatternAt(s[3 * g], 3 * g) && PatternAt(s[3 * g + 1], 3 * g + 1);
        if g < 5 {
          assert PatternAt(s[3 * g + 2], 3 * g + 2);
        }
      }
      if RegexGroups(s, g) {
        forall k | 3 * g <= k < 17
          ensures PatternAt(s[k], k)
        {
          if k >= 3 * g + 3 {
          } else if k == 3 * g + 2 {
            assert g < 5 ==> s[3 * (g + 1) - 1] == ':';
          }
        }
      }
    }
  }

  /** The public validator agrees with scapi_isValidMac, except that it also accepts the empty string. */
  lemma IsValidMacAddressIff(s: string)
    requires NulFree(s)
    ensures IsValidMacAddress(s) == Ok <==> |s| == 0 || IsValidMac(s)
  {
    IsValidMacIff(s);
    if |s| == 17 {
      RegexGroupsIff(s, 0);
    }
  }

  // ---------------------------------------------------------------- octet form

  const HexChars: string := "0123456789abcdef"

  /** The character printf("%.2x") puts at position i of an octet's two digits. */
  function OctetDigit(b: Byte, i: nat): char {
    if i == 0 then HexChars[b / 16] else HexChars[b % 16]
  }

  /** printf("%.2x:%.2x:%.2x:%.2x:%.2x:%.2x", ...): two lower-case digits per octet, colon separated. */
  function FormatMac(o: Octets): (r: string)
    ensures |r| == 17
  {
    seq(17, i requires 0 <= i < 17 => if i % 3 == 2 then ':' else OctetDigit(o[i / 3], i % 3))
  }

  function PairVal(hi: char, lo: char): Byte
    requires IsHexDigit(hi) && IsHexDigit(lo)
  {
    HexVal(hi) * 16 + HexVal(lo)
  }

  /** The octets a well-formed MAC text denotes. */
  function ParseMac(s: string): (o: Octets)
    requires WellFormedMac(s)
  {
    seq(6, g requires 0 <= g < 6 =>
      assert PatternAt(s[3 * g], 3 * g) && PatternAt(s[3 * g + 1], 3 * g + 1);
      PairVal(s[3 * g], s[3 * g + 1]))
  }

  lemma HexCharsDigit(n: nat)
    requires n < 16
    ensures IsHexDigit(HexChars[n]) && HexVal(HexChars[n]) == n
    ensures !('A' <= HexChars[n] <= 'Z')
  {
  }

  /** The formatted text is well formed, lower case, and parses back to the same octets. */
  lemma FormatParse(o: Octets)
    ensures WellFormedMac(FormatMac(o)) && NulFree(FormatMac(o))
    ensures ParseMac(FormatMac(o)) == o
    ensures forall i :: 0 <= i < 17 ==> !('A' <= FormatMac(o)[i] <= 'Z')
  {
    var s := FormatMac(o);
    forall i | 0 <= i < 17
      ensures PatternAt(s[i], i) && s[i] != NUL && !('A' <= s[i] <= 'Z')
      ensures i % 3 == 0 ==> HexVal(s[i]) == o[i / 3] / 16
      ensures i % 3 == 1 ==> HexVal(s[i]) == o[i / 3] % 16
    {
      if i % 3 != 2 {
        HexCharsDigit(o[i / 3] / 16);
        HexCharsDigit(o[i / 3] % 16);
      }
    }
    var p := ParseMac(s);
    forall g | 0 <= g < 6
      ensures p[g] == o[g]
    {
      assert (3 * g) / 3 == g && (3 * g + 1) / 3 == g;
      assert p[g] == HexVal(s[3 * g]) * 16 + HexVal(s[3 * g + 1]);
    }
  }

  lemma ParseMacAt(s: string, g: nat)
    requires WellFormedMac(s) && g < 6
    ensures IsHexDigit(s[3 * g]) && IsHexDigit(s[3 * g + 1])
    ensures ParseMac(s)[g] == HexVal(s[3 * g]) * 16 + HexVal(s[3 * g + 1])
  {
    Div3(g);
    assert PatternAt(s[3 * g], 3 * g) && PatternAt(s[3 * g + 1], 3 * g + 1);
  }

  lemma FormatMacAt(o: Octets, g: nat)
    requires g < 6
    ensures FormatMac(o)[3 * g] == HexChars[o[g] / 16] && FormatMac(o)[3 * g + 1] == HexChars[o[g] % 16]
  {
    Div3(g);
  }

  /** Octet g of the formatted text matches octet g of the original up to case. */
  lemma OctetCase(s: string, g: nat)
    requires WellFormedMac(s) && g < 6
    ensures ToLower(FormatMac(ParseMac(s))[3 * g]) == ToLower(s[3 * g])
    ensures ToLower(FormatMac(ParseMac(s))[3 * g + 1]) == ToLower(s[3 * g + 1])
  {
    var o := ParseMac(s);
    ParseMacAt(s, g);
    FormatMacAt(o, g);
    var hi, lo := HexVal(s[3 * g]), HexVal(s[3 * g + 1]);
    DivMod16(hi, lo);
    assert o[g] / 16 == hi && o[g] % 16 == lo;
    DigitCase(s[3 * g], hi);
    DigitCase(s[3 * g + 1], lo);
  }

  /** The lower-case digit printf writes for a value is the digit read, up to case. */
  lemma DigitCase(c: char, v: nat)
    requires IsHexDigit(c) && v < 16 && HexVal(c) == v
    ensures ToLower(HexChars[v]) == ToLower(c)
  {
    HexCharsDigit(v);
    HexLower(HexChars[v], c);
  }

  /** Well-formed texts of the same address differ at most in letter case from the formatted one. */
  lemma ParseFormatCase(s: string)
    requires WellFormedMac(s)
    ensures CaseEq(FormatMac(ParseMac(s)), s)
  {
    var f := FormatMac(ParseMac(s));
    forall i | 0 <= i < 17
      ensures ToLower(f[i]) == ToLower(s[i])
    {
      assert PatternAt(s[i], i);
      var g := i / 3;
      if i % 3 == 0 {
        assert i == 3 * g;
        OctetCase(s, g);
      } else if i % 3 == 1 {
        assert i == 3 * g + 1;
        OctetCase(s, g);
      }
    }
  }

  lemma Div3(g: nat)
    ensures (3 * g) / 3 == g && (3 * g) % 3 == 0 && (3 * g + 1) / 3 == g && (3 * g + 1) % 3 == 1
  {
  }

  lemma DivMod16(hi: nat, lo: nat)
    requires hi < 16 && lo < 16
    ensures (hi * 16 + lo) / 16 == hi && (hi * 16 + lo) % 16 == lo
  {
  }

  /** Two hex digits with the same value are the same digit up to case. */
  lemma HexLower(a: char, b: char)
    requires IsHexDigit(a) && IsHexDigit(b) && HexVal(a) == HexVal(b)
    ensures ToLower(a) == ToLower(b)
  {
  }

  // ---------------------------------------------------------------- the base MAC buffer

  /**
   * The allocator's base-address buffer: 17 characters whose first five octets are
   * well formed. The last pair is copied from the whitelist file and may be anything,
   * NUL included, which ends the C string early.
   */
  predicate BasePrefixOk(s: string) {
    |s| == 17 && forall i :: 0 <= i < 15 ==> PatternAt(s[i], i)
  }

  type BaseText = s: string | BasePrefixOk(s) witness "00:00:00:00:00:00"

  /** Overwrite positions 15 and 16 (sBaseMac[15], sBaseMac[16]). */
  function WithLastPair(b: BaseText, c1: char, c2: char): (r: BaseText)
    ensures r[..15] == b[..15] && r[15] == c1 && r[16] == c2
  {
    b[..15] + [c1, c2]
  }

  /** %hhx applied to c1 c2 (then end of string): the value of the leading hex-digit run, if any. */
  function HexRun(c1: char, c2: char): Option<Byte> {
    if !IsHexDigit(c1) then None
    else if IsHexDigit(c2) then Some(PairVal(c1, c2))
    else Some(HexVal(c1))
  }

  function PrefixOctet(b: BaseText, i: nat): Byte
    requires i < 5
  {
    assert PatternAt(b[3 * i], 3 * i) && PatternAt(b[3 * i + 1], 3 * i + 1);
    PairVal(b[3 * i], b[3 * i + 1])
  }

  /**
   * sscanf(base, "%hhx:%hhx:%hhx:%hhx:%hhx:%hhx") into zeroed octets, as the allocator
   * parses the base: a last field without a leading hex digit leaves octet 5 at 0.
   */
  function ScanOctets(b: BaseText): (o: Octets)
    ensures o[..5] == [PrefixOctet(b, 0), PrefixOctet(b, 1), PrefixOctet(b, 2), PrefixOctet(b, 3), PrefixOctet(b, 4)]
  {
    [PrefixOctet(b, 0), PrefixOctet(b, 1), PrefixOctet(b, 2), PrefixOctet(b, 3), PrefixOctet(b, 4),
     HexRun(b[15], b[16]).GetOr(0)]
  }

  /**
   * The whitelist generators' parse: strtok(base, ":") and %hhx on each token into zeroed
   * octets. The first five tokens are the well-formed pairs; the sixth is the first
   * non-empty colon-free piece of what follows position 15 in the C string.
   */
  function TokOctets(b: BaseText): (o: Octets)
    ensures o[..5] == ScanOctets(b)[..5]
  {
    var c1, c2 := b[15], b[16];
    var last :=
      if c1 == NUL then 0
      else if c1 == ':' then (if c2 == NUL || c2 == ':' then 0 else HexRun(c2, NUL).GetOr(0))
      else HexRun(c1, if c2 == ':' then NUL else c2).GetOr(0);
    [PrefixOctet(b, 0), PrefixOctet(b, 1), PrefixOctet(b, 2), PrefixOctet(b, 3), PrefixOctet(b, 4), last]
  }

  /** The generators' octets, formatted, spell the base's first five pairs up to case. */
  lemma BasePrefixCase(b: BaseText, i: nat)
    requires i < 15
    ensures ToLower(FormatMac(TokOctets(b))[i]) == ToLower(b[i])
  {
    assert PatternAt(b[i], i);
    if i % 3 != 2 {
      var g := i / 3;
      assert i == 3 * g || i == 3 * g + 1;
      assert PatternAt(b[3 * g], 3 * g) && PatternAt(b[3 * g + 1], 3 * g + 1);
      var o := TokOctets(b);
      assert o[g] == PrefixOctet(b, g) by {
        assert o[..5][g] == o[g];
      }
      PairCase(o, g, b[3 * g], b[3 * g + 1]);
    }
  }

  /** An octet read from two hex digits is formatted as the same two digits up to case. */
  lemma PairCase(o: Octets, g: nat, c1: char, c2: char)
    requires g < 6 && IsHexDigit(c1) && IsHexDigit(c2) && o[g] == PairVal(c1, c2)
    ensures ToLower(FormatMac(o)[3 * g]) == ToLower(c1) && ToLower(FormatMac(o)[3 * g + 1]) == ToLower(c2)
  {
    FormatMacAt(o, g);
    var hi, lo := HexVal(c1), HexVal(c2);
    DivMod16(hi, lo);
    assert o[g] / 16 == hi && o[g] % 16 == lo;
    DigitCase(c1, hi);
    DigitCase(c2, lo);
  }

  /** On a well-formed base both parses give the octets the text denotes. */
  lemma ParsesAgreeWellFormed(b: BaseText)
    requires WellFormedMac(b)
    ensures ScanOctets(b) == ParseMac(b) && TokOctets(b) == ParseMac(b)
  {
    assert PatternAt(b[15], 15) && PatternAt(b[16], 16);
  }

  /** The two parses differ only when the last pair starts with a colon and a hex digit follows. */
  lemma ParsesDisagree(b: BaseText)
    ensures ScanOctets(b) != TokOctets(b) <==>
              b[15] == ':' && IsHexDigit(b[16]) && HexVal(b[16]) != 0
  {
  }

  // ---------------------------------------------------------------- increments

  /** Octets 3-5, the part the allocator counts in, as one 24-bit number. */
  function Value24(o: Octets): nat {
    o[3] as int * 65536 + o[4] as int * 256 + o[5] as int
  }

  /**
   * scapi_incrementMacaddr: force the private marker 0x02 into octet 0 unless global,
   * add one to octet 5 and carry into octets 4 and 3; a carry out of octet 3 is an error
   * (after the octets have already been zeroed).
   */
  function IncrementMacaddr(o: Octets, global: bool): (r: Result<Octets, Code>)
    ensures r.Failure? <==> Value24(o) == 0xFF_FFFF
    ensures r.Failure? ==> r.error == InputValidationFailed
    ensures r.Success? ==> Value24(r.value) == Value24(o) + 1
    ensures r.Success? ==> r.value[0] == (if global then o[0] else 2) && r.value[1..3] == o[1..3]
  {
    var a := if global then o else o[0 := 2];
    if a[5] < 255 then Success(a[5 := a[5] + 1])
    else if a[4] < 255 then Success(a[4 := a[4] + 1][5 := 0])
    else if a[3] < 255 then Success(a[3 := a[3] + 1][4 := 0][5 := 0])
    else Failure(InputValidationFailed)
  }

  // ---------------------------------------------------------------- the whitelist generators' counter

  type ParentIdx = p: int | 0 <= p <= 4

  /**
   * The state scapi_incMacAddr threads through its callers: the address and the
   * "parent" index (initially 4) that receives the carry out of octet 5. The
   * incremented index stays 5 throughout.
   */
  datatype Counter = Counter(addr: Octets, parent: ParentIdx)

  function StartCounter(o: Octets): Counter {
    Counter(o, 4)
  }

  /**
   * One scapi_incMacAddr step. When octet 5 wraps, the parent octet is bumped; if the
   * parent itself is 0xFF it is zeroed and the parent index moves one octet left for
   * good. The index is never moved back, so later wraps of octet 5 bump that octet
   * directly. Moving left of octet 0 (an unsigned wrap of the index, then an
   * out-of-bounds write) is undefined behaviour in C and yields None here.
   */
  function IncStep(c: Counter): (r: Option<Counter>)
    ensures r.None? <==> c.addr[5] == 255 && c.parent == 0 && c.addr[0] == 255
    ensures r.Some? ==> c.parent - 1 <= r.value.parent <= c.parent
    ensures r.Some? ==> forall i :: 0 <= i < r.value.parent ==> r.value.addr[i] == c.addr[i]
  {
    var a := c.addr;
    if a[5] == 255 then
      if a[c.parent] == 255 then
        if c.parent == 0 then None
        else
          var p := c.parent - 1;
          Some(Counter(a[c.parent := 0][p := (a[p] as int + 1) % 256][5 := 0], p))
      else Some(Counter(a[c.parent := a[c.parent] + 1][5 := 0], c.parent))
    else Some(Counter(a[5 := a[5] + 1], c.parent))
  }

  /** k successive steps, None if any of them is undefined. */
  function IncN(c: Counter, k: nat): Option<Counter>
    decreases k
  {
    if k == 0 then Some(c)
    else match IncStep(c)
      case None => None
      case Some(c') => IncN(c', k - 1)
  }

  /**
   * Distance from undefined behaviour: a step is undefined only where this is 1, and
   * each step lowers it by at most one.
   */
  function Room(c: Counter): int {
    256 * c.parent + 256 - c.addr[5]
  }

  lemma StepRoom(c: Counter)
    requires Room(c) >= 2
    ensures IncStep(c).Some? && Room(IncStep(c).value) >= Room(c) - 1
  {
  }

  /** From the starting index, at least 1024 steps are defined: every whitelist (at most 1000 entries) is. */
  lemma {:induction false} IncNDefined(c: Counter, k: nat)
    requires k < Room(c)
    ensures IncN(c, k).Some?
    decreases k
  {
    if k > 0 {
      StepRoom(c);
      IncNDefined(IncStep(c).value, k - 1);
    }
  }

  lemma StartRoom(o: Octets)
    ensures Room(StartCounter(o)) >= 1025
  {
  }

  /** While no double carry happens, a step of the generator counter is the allocator's increment. */
  lemma StepIsIncrement(o: Octets)
    requires !(o[4] == 255 && o[5] == 255)
    ensures IncStep(StartCounter(o)) == Some(StartCounter(IncrementMacaddr(o, true).value))
  {
  }

  /** Steps that do not wrap octet 5 just add to it. */
  lemma {:induction false} StepsWithoutWrap(c: Counter, k: nat)
    requires c.addr[5] + k <= 255
    ensures IncN(c, k) == Some(Counter(c.addr[5 := c.addr[5] + k], c.parent))
    decreases k
  {
    if k > 0 {
      var c' := Counter(c.addr[5 := c.addr[5] + 1], c.parent);
      assert IncStep(c) == Some(c');
      assert IncN(c, k) == IncN(c', k - 1);
      StepsWithoutWrap(c', k - 1);
      assert c'.addr[5 := c'.addr[5] + (k - 1)] == c.addr[5 := c.addr[5] + k];
    } else {
      assert c.addr[5 := c.addr[5] + k] == c.addr;
    }
  }

  /**
   * The two incrementers agree until the first double carry: from the starting index the
   * generator counts octets 3-5 up by one per step, like scapi_incrementMacaddr.
   */
  lemma {:induction false} AgreeUntilDoubleCarry(o: Octets, k: nat)
    requires Value24(o) % 65536 + k <= 65535
    ensures IncN(StartCounter(o), k).Some?
    ensures IncN(StartCounter(o), k).value.parent == 4
    ensures IncN(StartCounter(o), k).value.addr[..3] == o[..3]
    ensures Value24(IncN(StartCounter(o), k).value.addr) == Value24(o) + k
    decreases k
  {
    if k > 0 {
      assert !(o[4] == 255 && o[5] == 255);
      StepIsIncrement(o);
      var o' := IncrementMacaddr(o, true).value;
      assert Value24(o') % 65536 == Value24(o) % 65536 + 1;
      AgreeUntilDoubleCarry(o', k - 1);
    }
  }

  /**
   * After a double carry they part: from ..:c:FF:FF the generator reaches (c+2):00:00 after
   * 257 steps, skipping the 65280 addresses (c+1):01:00 .. (c+1):FF:FF that the allocator's
   * increment visits next.
   */
  lemma DivergeAfterDoubleCarry(o: Octets)
    requires o[3] < 254 && o[4] == 255 && o[5] == 255
    ensures IncN(StartCounter(o), 257).Some?
    ensures Value24(IncN(StartCounter(o), 257).value.addr) == Value24(o) + 65537
    ensures Value24(o) + 257 != Value24(o) + 65537
  {
    var c1 := Counter(o[4 := 0][3 := (o[3] as int + 1) % 256][5 := 0], 3);
    assert IncStep(StartCounter(o)) == Some(c1);
    StepsWithoutWrap(c1, 255);
    var c256 := Counter(c1.addr[5 := 255], 3);
    var c257 := Counter(c256.addr[3 := c256.addr[3] + 1][5 := 0], 3);
    assert IncStep(c256) == Some(c257);
    IncNSplit(StartCounter(o), 1, 255);
    IncNSplit(StartCounter(o), 256, 1);
  }

  lemma {:induction false} IncNSplit(c: Counter, j: nat, k: nat)
    requires IncN(c, j).Some?
    ensures IncN(c, j + k) == IncN(IncN(c, j).value, k)
    decreases j
  {
    if j > 0 {
      IncNSplit(IncStep(c).value, j - 1, k);
    }
  }
}
