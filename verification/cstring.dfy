/**
 * The parts of the C string library the scapi code relies on, over Dafny strings.
 * A C string ends at its first NUL; strings read from files never contain one,
 * so only the helpers that see C buffers (CharAt, CaseEqN) treat NUL specially.
 */
module CString {
  import opened Wrappers

  const NUL: char := '\0'

  predicate IsDigit(c: char) { '0' <= c <= '9' }

  predicate IsHexDigit(c: char) {
    '0' <= c <= '9' || 'a' <= c <= 'f' || 'A' <= c <= 'F'
  }

  /** isspace() in the C locale. */
  predicate IsSpace(c: char) {
    c == ' ' || c == '\t' || c == '\n' || c == '\r' || c == '\U{000B}' || c == '\U{000C}'
  }

  function DigitVal(c: char): (r: nat)
    requires IsDigit(c)
    ensures r < 10
  {
    c as int - '0' as int
  }

  function HexVal(c: char): (r: nat)
    requires IsHexDigit(c)
    ensures r < 16
  {
    if '0' <= c <= '9' then c as int - '0' as int
    else if 'a' <= c <= 'f' then c as int - 'a' as int + 10
    else c as int - 'A' as int + 10
  }

  /** tolower() in the C locale. */
  function ToLower(c: char): (r: char)
    ensures 'A' <= c <= 'Z' ==> r as int == c as int + 32
    ensures !('A' <= c <= 'Z') ==> r == c
  {
    if 'A' <= c <= 'Z' then (c as int + 32) as char else c
  }

  /** The character a C loop reads at index i: past the end of the string it is NUL. */
  function CharAt(s: string, i: nat): char {
    if i < |s| then s[i] else NUL
  }

  predicate NulFree(s: string) {
    forall i :: 0 <= i < |s| ==> s[i] != NUL
  }

  /** The C string held in a buffer: everything before the first NUL. */
  function CStr(s: string): (r: string)
    ensures NulFree(r) && |r| <= |s| && r == s[..|r|]
    ensures |r| < |s| ==> s[|r|] == NUL
  {
    s[..NulIndex(s)]
  }

  /** strlen: the index of the first NUL, or the length when there is none. */
  function NulIndex(s: string): (n: nat)
    ensures n <= |s| && (n < |s| ==> s[n] == NUL)
    ensures forall i :: 0 <= i < n ==> s[i] != NUL
  {
    if |s| == 0 || s[0] == NUL then 0 else 1 + NulIndex(s[1..])
  }

  lemma CStrNulFree(s: string)
    requires NulFree(s)
    ensures CStr(s) == s
  {
  }

  /** Writing NUL-free text a over the start of a buffer: the string is a followed by what comes after. */
  lemma CStrAfter(a: string, t: string)
    requires NulFree(a)
    ensures CStr(a + t) == a + CStr(t)
  {
    var r := a + CStr(t);
    assert (a + t)[..|r|] == r;
    assert forall i :: 0 <= i < |r| ==> (a + t)[i] == r[i];
    assert |r| < |a + t| ==> (a + t)[|r|] == NUL;
  }

  /** The string held past its first n characters is the string held in the buffer past them. */
  lemma CStrDrop(s: string, n: nat)
    requires n <= |CStr(s)|
    ensures CStr(s)[n..] == CStr(s[n..])
  {
    assert s == s[..n] + s[n..];
    CStrAfter(s[..n], s[n..]);
  }

  // ---------------------------------------------------------------- strstr

  /** pat occurs in s at position k. */
  predicate MatchAt(s: string, pat: string, k: nat) {
    k + |pat| <= |s| && s[k..k + |pat|] == pat
  }

  /** The first position at or after i where pat occurs in s (strstr). */
  function IndexOfFrom(s: string, pat: string, i: nat): (r: Option<nat>)
    requires i <= |s|
    decreases |s| - i
    ensures r.Some? ==> i <= r.value && MatchAt(s, pat, r.value)
    ensures r.Some? ==> forall k: nat :: i <= k < r.value ==> !MatchAt(s, pat, k)
    ensures r.None? ==> forall k: nat :: i <= k ==> !MatchAt(s, pat, k)
  {
    if i + |pat| > |s| then None
    else if s[i..i + |pat|] == pat then Some(i)
    else IndexOfFrom(s, pat, i + 1)
  }

  function IndexOf(s: string, pat: string): Option<nat> {
    IndexOfFrom(s, pat, 0)
  }

  /** strstr(s, pat) != NULL */
  predicate Contains(s: string, pat: string) {
    IndexOf(s, pat).Some?
  }

  lemma ContainsIff(s: string, pat: string)
    ensures Contains(s, pat) <==> exists k: nat :: MatchAt(s, pat, k)
  {
    var r := IndexOfFrom(s, pat, 0);
    if r.Some? {
      assert MatchAt(s, pat, r.value);
    }
  }

  /** A pattern that occurs in a part of a string occurs in the whole. */
  lemma ContainsInfix(a: string, b: string, c: string, pat: string)
    requires Contains(b, pat)
    ensures Contains(a + b + c, pat)
  {
    var k := IndexOf(b, pat).value;
    assert (a + b + c)[|a| + k..|a| + k + |pat|] == b[k..k + |pat|];
    assert MatchAt(a + b + c, pat, |a| + k);
    ContainsIff(a + b + c, pat);
  }

  /** One differing character rules out a match at k. */
  lemma NoMatchAt(s: string, pat: string, k: nat, i: nat)
    requires i < |pat| && k + i < |s| && s[k + i] != pat[i]
    ensures !MatchAt(s, pat, k)
  {
    if k + |pat| <= |s| {
      assert s[k..k + |pat|][i] == s[k + i];
    }
  }

  /** Where a pattern occurs, so does each of its prefixes. */
  lemma ContainsPatPrefix(s: string, p: string, q: string)
    requires Contains(s, p + q)
    ensures Contains(s, p)
  {
    var k := IndexOf(s, p + q).value;
    assert s[k..k + |p|] == (p + q)[..|p|] == p;
    assert MatchAt(s, p, k);
    ContainsIff(s, p);
  }

  /** strtok with delimiters first: they are skipped and a delimiter-free rest is the whole token. */
  lemma StrTokLeading(d: string, tok: string, delims: set<char>)
    requires forall k :: 0 <= k < |d| ==> d[k] in delims
    requires |tok| > 0 && forall k :: 0 <= k < |tok| ==> tok[k] !in delims
    ensures StrTok(d + tok, delims) == Some(Tok(tok, []))
  {
    var s := d + tok;
    assert s[|d|] == tok[0];
    var start := Scan(s, delims, 0, false);
    assert start == |d|;
    var end := Scan(s, delims, start, true);
    assert end == |s|;
    assert s[start..end] == tok;
  }

  lemma ContainsSelf(s: string)
    ensures Contains(s, s)
  {
    assert s[0..|s|] == s;
    assert MatchAt(s, s, 0);
    ContainsIff(s, s);
  }

  // ---------------------------------------------------------------- strtok

  /** Result of one strtok call: the token, and what the saved pointer points at afterwards. */
  datatype Tok = Tok(token: string, rest: string)

  /** The first index at or after i whose character is (in = true) or is not (in = false) a delimiter. */
  function Scan(s: string, delims: set<char>, i: nat, inDelims: bool): (r: nat)
    requires i <= |s|
    decreases |s| - i
    ensures i <= r <= |s|
    ensures forall k :: i <= k < r ==> (s[k] in delims) != inDelims
    ensures r < |s| ==> (s[r] in delims) == inDelims
  {
    if i == |s| || (s[i] in delims) == inDelims then i else Scan(s, delims, i + 1, inDelims)
  }

  /**
   * strtok(s, delims): skip leading delimiters; the token runs to the next delimiter,
   * which is overwritten by NUL, and the next call continues after it.
   */
  function StrTok(s: string, delims: set<char>): (r: Option<Tok>)
    ensures r.None? <==> forall k :: 0 <= k < |s| ==> s[k] in delims
    ensures r.Some? ==> |r.value.token| > 0 && forall k :: 0 <= k < |r.value.token| ==> r.value.token[k] !in delims
    ensures r.Some? ==> |r.value.rest| < |s|
  {
    var start := Scan(s, delims, 0, false);
    if start == |s| then None
    else
      var end := Scan(s, delims, start, true);
      Some(Tok(s[start..end], if end < |s| then s[end + 1..] else []))
  }

  /**
   * The buffer after strtok(s, delims) as a C string: it ends where the NUL was written,
   * i.e. at the delimiter terminating the first token (unchanged when there is no token
   * or the token runs to the end).
   */
  function TruncAtToken(s: string, delims: set<char>): (r: string)
    ensures |r| <= |s| && r == s[..|r|]
  {
    var start := Scan(s, delims, 0, false);
    if start == |s| then s else s[..Scan(s, delims, start, true)]
  }

  /** A token-free prefix followed by a delimiter: strtok returns exactly the middle part. */
  lemma StrTokDelimited(tok: string, d: char, rest: string, delims: set<char>)
    requires |tok| > 0 && d in delims
    requires forall k :: 0 <= k < |tok| ==> tok[k] !in delims
    ensures StrTok(tok + [d] + rest, delims) == Some(Tok(tok, rest))
  {
    var s := tok + [d] + rest;
    assert s[0] == tok[0];
    var end := Scan(s, delims, 0, true);
    assert s[|tok|] == d;
    assert end == |tok|;
    assert s[0..end] == tok;
    assert s[end + 1..] == rest;
  }

  /** A token running to the end of the string: strtok returns it, with nothing left. */
  lemma StrTokWhole(tok: string, delims: set<char>)
    requires |tok| > 0
    requires forall k :: 0 <= k < |tok| ==> tok[k] !in delims
    ensures StrTok(tok, delims) == Some(Tok(tok, []))
  {
    var end := Scan(tok, delims, 0, true);
    assert end == |tok|;
    assert tok[0..end] == tok;
  }

  // ---------------------------------------------------------------- comparisons

  /** strncasecmp(a, b, n) == 0 over C strings, as the C loop compares them from index i. */
  predicate CaseEqNFrom(a: string, b: string, n: nat, i: nat)
    decreases n - i
  {
    if i >= n then true
    else
      var ca, cb := CharAt(a, i), CharAt(b, i);
      if ToLower(ca) != ToLower(cb) then false
      else if ca == NUL then true
      else CaseEqNFrom(a, b, n, i + 1)
  }

  predicate CaseEqN(a: string, b: string, n: nat) {
    CaseEqNFrom(a, b, n, 0)
  }

  /** strcasecmp(a, b) == 0 for NUL-free strings. */
  predicate CaseEq(a: string, b: string) {
    |a| == |b| && forall i :: 0 <= i < |a| ==> ToLower(a[i]) == ToLower(b[i])
  }

  /** Two strings that agree case-insensitively on their first n characters compare equal under strncasecmp. */
  lemma CaseEqNPrefix(a: string, b: string, n: nat, i: nat)
    requires i <= n <= |a| && n <= |b|
    requires forall k :: i <= k < n ==> ToLower(a[k]) == ToLower(b[k])
    ensures CaseEqNFrom(a, b, n, i)
    decreases n - i
  {
    if i < n {
      CaseEqNPrefix(a, b, n, i + 1);
    }
  }

  /** Within the first n NUL-free characters, strncasecmp is a case-insensitive character comparison. */
  lemma CaseEqNChars(a: string, b: string, n: nat, i: nat)
    requires i <= n <= |a| && n <= |b|
    requires forall k :: 0 <= k < n ==> a[k] != NUL
    ensures CaseEqNFrom(a, b, n, i) <==> forall k :: i <= k < n ==> ToLower(a[k]) == ToLower(b[k])
    decreases n - i
  {
    if i < n {
      CaseEqNChars(a, b, n, i + 1);
    }
  }

  // ---------------------------------------------------------------- atoi and %d

  function SkipSpaces(s: string): (r: string)
    ensures |r| <= |s| && r == s[|s| - |r|..]
    ensures |r| > 0 ==> !IsSpace(r[0])
  {
    if |s| > 0 && IsSpace(s[0]) then SkipSpaces(s[1..]) else s
  }

  /** The value of the leading run of decimal digits, continuing from acc. */
  function DigitsFrom(s: string, acc: nat): nat {
    if |s| > 0 && IsDigit(s[0]) then DigitsFrom(s[1..], acc * 10 + DigitVal(s[0])) else acc
  }

  /**
   * atoi(): optional white space, an optional sign, decimal digits. The value is the
   * mathematical one; C leaves out-of-range input undefined.
   */
  function Atoi(s: string): int {
    var t := SkipSpaces(s);
    if |t| > 0 && t[0] == '-' then -(DigitsFrom(t[1..], 0) as int)
    else if |t| > 0 && t[0] == '+' then DigitsFrom(t[1..], 0)
    else DigitsFrom(t, 0)
  }

  function NatToDec(n: nat): (r: string)
    ensures |r| > 0
    ensures forall k :: 0 <= k < |r| ==> IsDigit(r[k])
  {
    if n < 10 then ["0123456789"[n]] else NatToDec(n / 10) + ["0123456789"[n % 10]]
  }

  /** printf("%d", n). */
  function IntToDec(n: int): string {
    if n < 0 then "-" + NatToDec(-n) else NatToDec(n)
  }

  /** Reading digits across a concatenation continues from where the first part stopped. */
  lemma {:induction false} DigitsSplit(a: string, b: string, acc: nat)
    requires forall k :: 0 <= k < |a| ==> IsDigit(a[k])
    ensures DigitsFrom(a + b, acc) == DigitsFrom(b, DigitsFrom(a, acc))
  {
    if |a| > 0 {
      var next := acc * 10 + DigitVal(a[0]);
      assert (a + b)[0] == a[0] && (a + b)[1..] == a[1..] + b;
      assert DigitsFrom(a + b, acc) == DigitsFrom(a[1..] + b, next);
      assert DigitsFrom(a, acc) == DigitsFrom(a[1..], next);
      DigitsSplit(a[1..], b, next);
    } else {
      assert a + b == b;
    }
  }

  lemma {:induction false} DigitsFromNatToDec(n: nat)
    ensures DigitsFrom(NatToDec(n), 0) == n
    decreases n
  {
    var d: string := ["0123456789"[n % 10]];
    assert DigitVal(d[0]) == n % 10;
    assert d[1..] == [];
    if n < 10 {
      assert NatToDec(n) == d;
    } else {
      var hi := NatToDec(n / 10);
      assert NatToDec(n) == hi + d;
      DigitsSplit(hi, d, 0);
      DigitsFromNatToDec(n / 10);
    }
  }

  /** Reading back what printf("%d") wrote gives the number: atoi(IntToDec(n)) == n. */
  lemma AtoiIntToDec(n: int)
    ensures Atoi(IntToDec(n)) == n
  {
    if n < 0 {
      var s := NatToDec(-n);
      assert SkipSpaces("-" + s) == "-" + s;
      assert ("-" + s)[1..] == s;
      DigitsFromNatToDec(-n);
    } else {
      var s := NatToDec(n);
      assert !IsSpace(s[0]);
      assert SkipSpaces(s) == s;
      DigitsFromNatToDec(n);
    }
  }
}
