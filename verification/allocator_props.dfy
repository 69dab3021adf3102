/**
 * Properties of the MAC allocator across calls, and the four defects of the code as
 * written next to the corrected behaviour.
 */
module AllocatorProps {
  import opened Wrappers
  import opened CString
  import opened Codes
  import opened MacCodec
  import opened Whitelist
  import opened Registry
  import opened Allocator

  /** A well-formed address is a plain registry token that scapi_isValidMac accepts. */
  lemma WellFormedIsPlain(m: string)
    requires WellFormedMac(m)
    ensures Plain(m) && |m| < MacBufLen && NulFree(m) && IsValidMac(m)
  {
    forall k | 0 <= k < |m|
      ensures m[k] !in EntrySeps && m[k] != NUL
    {
      assert PatternAt(m[k], k);
    }
    IsValidMacIff(m);
  }

  /**
   * Once scapi_getNextMacaddr has appended a well-formed address for an interface
   * that had no entry, the next call for that interface returns the same address and
   * changes no file, whatever the caller's buffer holds.
   */
  lemma RepeatCallReturnsRecorded(fixed: bool, ifname: string, global: bool, pcMac: string, pcMac2: string,
                                  env: Env, fs: Files)
    requires Plain(ifname) && |ifname| + 1 < MacBufLen
    requires NoKeyLine(fs.next, ifname)
    requires env.resMac.Output?
    requires Allocate(Standard, fixed, Some(ifname), global, Some(pcMac), env, fs).appended.Some?
    requires WellFormedMac(Allocate(Standard, fixed, Some(ifname), global, Some(pcMac), env, fs).mac)
    ensures var r := Allocate(Standard, fixed, Some(ifname), global, Some(pcMac), env, fs);
            Allocate(Standard, fixed, Some(ifname), global, Some(pcMac2), env, r.fs) == Outcome(Ok, r.mac, r.fs, None, 0)
  {
    var r := Allocate(Standard, fixed, Some(ifname), global, Some(pcMac), env, fs);
    FirstCallState(fixed, ifname, global, pcMac, env, fs);
    WellFormedIsPlain(r.mac);
    SecondCallFinds(fixed, ifname, global, pcMac2, env, r.fs, r.mac);
  }

  /** After a standard call that appended: what the next call for the interface finds. */
  lemma FirstCallState(fixed: bool, ifname: string, global: bool, pcMac: string, env: Env, fs: Files)
    requires Plain(ifname) && |ifname| + 1 < MacBufLen
    requires NoKeyLine(fs.next, ifname)
    requires env.resMac.Output?
    requires Allocate(Standard, fixed, Some(ifname), global, Some(pcMac), env, fs).appended.Some?
    requires WellFormedMac(Allocate(Standard, fixed, Some(ifname), global, Some(pcMac), env, fs).mac)
    ensures var r := Allocate(Standard, fixed, Some(ifname), global, Some(pcMac), env, fs);
            && env.baseMac.Some? && r.fs.bootChk && r.fs.resv.Some?
            && (env.uci6g || GetMacAddrFromResvList(r.fs.resv, fixed).Success?)
            && r.fs.next.Some? && GetMacFromFile(r.fs.next.value, ifname) == Found(r.mac)
  {
    var c := Call(Standard, fixed, ifname, global, env);
    var r := GetNextStages(c, PrivateMark(pcMac, global), env.baseMac.value, fs);
    assert Allocate(Standard, fixed, Some(ifname), global, Some(pcMac), env, fs) == r;
    RecordedLookup(c, r);
  }

  /** The entry a standard call appended, after which no earlier line holds the key, is what a lookup finds. */
  lemma RecordedLookup(c: Call, r: Outcome)
    requires c.v.Standard? && Plain(c.ifname) && |c.ifname| + 1 < MacBufLen
    requires Sound(c, r) && r.appended.Some? && OnlyLastHasKey(r.fs.next, c.ifname) && WellFormedMac(r.mac)
    ensures r.fs.next.Some? && GetMacFromFile(r.fs.next.value, c.ifname) == Found(r.mac)
  {
    WellFormedIsPlain(r.mac);
    LookupEntry(r.fs.next.value, |r.fs.next.value| - 1, c.ifname, r.mac);
  }

  /** A standard call in the state FirstCallState describes returns the recorded address. */
  lemma SecondCallFinds(fixed: bool, ifname: string, global: bool, pcMac: string, env: Env, fs: Files, m: string)
    requires ifname != [] && env.baseMac.Some? && fs.bootChk && fs.resv.Some?
    requires env.uci6g || GetMacAddrFromResvList(fs.resv, fixed).Success?
    requires fs.next.Some? && GetMacFromFile(fs.next.value, ifname) == Found(m) && IsValidMac(m)
    ensures Allocate(Standard, fixed, Some(ifname), global, Some(pcMac), env, fs) == Outcome(Ok, m, fs, None, 0)
  {
    StagesFindRecorded(Call(Standard, fixed, ifname, global, env), PrivateMark(pcMac, global),
                       env.baseMac.value, fs, m);
  }

  /**
   * Once the whitelist is in place and read back, the boot marker set, and the registry
   * holds a well-formed address for the interface, the lookup returns it and changes
   * no file.
   */
  lemma StagesFindRecorded(c: Call, mac0: string, base: BaseText, fs: Files, m: string)
    requires c.v.Standard? && fs.bootChk && fs.resv.Some?
    requires c.env.uci6g || GetMacAddrFromResvList(fs.resv, c.fixed).Success?
    requires fs.next.Some? && GetMacFromFile(fs.next.value, c.ifname) == Found(m) && IsValidMac(m)
    ensures GetNextStages(c, mac0, base, fs) == Outcome(Ok, m, fs, None, 0)
  {
    assert fs.(bootChk := true) == fs;
    if c.env.uci6g {
      TablesFindRecorded(c, mac0, WithLastPair(base, '2', '0'), ResvInfo(0, []), fs, m);
    } else {
      var info := GetMacAddrFromResvList(fs.resv, c.fixed).value;
      TablesFindRecorded(c, mac0, WithLastPair(base, CharAt(info.recorded, 15), CharAt(info.recorded, 16)), info, fs, m);
    }
  }

  lemma TablesFindRecorded(c: Call, mac0: string, b: BaseText, info: ResvInfo, fs: Files, m: string)
    requires c.v.Standard? && fs.bootChk && fs.resv.Some?
    requires fs.next.Some? && GetMacFromFile(fs.next.value, c.ifname) == Found(m) && IsValidMac(m)
    ensures Tables(c, mac0, b, info, fs) == Outcome(Ok, m, fs, None, 0)
  {
    assert fs.(bootChk := true) == fs;
  }

  /** An address the standard allocator appended is the registry's last line. */
  lemma AppendedIsLast(fixed: bool, ifname: string, global: bool, pcMac: string, env: Env, fs: Files)
    requires ifname != []
    requires Allocate(Standard, fixed, Some(ifname), global, Some(pcMac), env, fs).appended.Some?
    ensures var r := Allocate(Standard, fixed, Some(ifname), global, Some(pcMac), env, fs);
            r.code == Ok && r.fs.next.Some? && |r.fs.next.value| > 0 &&
            r.fs.next.value[|r.fs.next.value| - 1] == EntryLine(ifname, r.mac)
  {
    var r := Allocate(Standard, fixed, Some(ifname), global, Some(pcMac), env, fs);
    assert Sound(Call(Standard, fixed, ifname, global, env), r);
  }

  // ---------------------------------------------------------------- defect 1: a failed regeneration reports success

  /** The header's name never matches a base address, whatever the case: 's' is no hex digit. */
  lemma HeaderNameIsStale(b: BaseText)
    ensures !CaseEqN("sup_mac", b, 17)
  {
    assert PatternAt(b[0], 0);
  }

  /**
   * The scenario of the first defect: a whitelist holding only its header (what a
   * failed generation leaves behind), the first call of a boot, and settings the
   * generator refuses. The whitelist reads back as stale, the registry is deleted,
   * and the regeneration fails.
   */
  predicate RefusedRegeneration(env: Env, fs: Files, n: int) {
    env.baseMac.Some? && !env.uci6g && env.resMac.Output? &&
    GetRunTimeVal(SupMac, env.supMac).value - GetRunTimeVal(ResMac, env.resMac).value > MaxCnt &&
    fs.resv == Some([Header(n)]) && !fs.bootChk
  }

  lemma RegenerationFailure(fixed: bool, ifname: string, global: bool, pcMac: string, env: Env, fs: Files, n: int)
    requires ifname != [] && RefusedRegeneration(env, fs, n)
    ensures var r := Allocate(Standard, fixed, Some(ifname), global, Some(pcMac), env, fs);
            r.code == (if fixed then PoolExhausted else Ok) && r.appended.None? && r.fs.next.None? &&
            r.mac == PrivateMark(pcMac, global)
  {
    var c := Call(Standard, fixed, ifname, global, env);
    var mac0 := PrivateMark(pcMac, global);
    var base := env.baseMac.value;
    ReadBackHeaderOnly(n, fixed);
    var info := ResvInfo(if fixed then n else DefSupportCnt, "sup_mac");
    var b := WithLastPair(base, CharAt(info.recorded, 15), CharAt(info.recorded, 16));
    HeaderNameIsStale(b);
    assert Allocate(Standard, fixed, Some(ifname), global, Some(pcMac), env, fs) ==
           AfterGen(c, mac0, b, fs.(next := None), true);
  }

  /**
   * As written, the call that deleted the registry and failed to regenerate the
   * whitelist returns EXIT_SUCCESS without an address.
   */
  lemma RegenerationFailureReportsSuccess(ifname: string, global: bool, pcMac: string, env: Env, fs: Files, n: int)
    requires ifname != [] && RefusedRegeneration(env, fs, n)
    ensures var r := Allocate(Standard, false, Some(ifname), global, Some(pcMac), env, fs);
            r.code == Ok && r.appended.None? && r.fs.next.None?
  {
    RegenerationFailure(false, ifname, global, pcMac, env, fs, n);
  }

  /** Corrected, the same call returns the generator's error. */
  lemma RegenerationFailureReported(ifname: string, global: bool, pcMac: string, env: Env, fs: Files, n: int)
    requires ifname != [] && RefusedRegeneration(env, fs, n)
    ensures var r := Allocate(Standard, true, Some(ifname), global, Some(pcMac), env, fs);
            r.code == PoolExhausted && r.appended.None? && r.fs.next.None?
  {
    RegenerationFailure(true, ifname, global, pcMac, env, fs, n);
  }

  // ---------------------------------------------------------------- defect 2: the exhausted loop appends an address in use

  /**
   * A candidate that stays in use: with an empty registry the octets are never
   * stepped, so every attempt from k on retries the same address.
   */
  lemma {:induction false} StuckLoop(c: Call, o: Octets, fs: Files, k: nat)
    requires 1 <= k <= MaxAttempts
    requires Reg(c.v, fs) == Some([])
    requires ValidateLimit(FormatMac(o), c.global, Limit(c.v, fs))
    requires CheckUnique(c, FormatMac(o), fs) == InUse
    ensures Loop(c, o, FormatMac(o), false, k, fs) ==
              if c.fixed then Outcome(PoolExhausted, FormatMac(o), fs, None, MaxAttempts)
              else Append(c, FormatMac(o), fs, MaxAttempts)
    decreases MaxAttempts - k
  {
    if k < MaxAttempts {
      StuckLoop(c, o, fs, k + 1);
    }
  }

  /**
   * The scenario of the second defect: the 6 GHz marker exists, the boot's checks are
   * done, the registry is empty, and another live interface already holds the private
   * address the base gives.
   */
  predicate HeldElsewhere(ifname: string, env: Env, fs: Files) {
    env.baseMac.Some? && env.uci6g && fs.resv.Some? && fs.bootChk && fs.next == Some([]) &&
    env.live.Some? && |env.live.value| == 1 && env.live.value[0].name != ifname &&
    env.live.value[0].query == IfMac(FormatMac(ScanOctets(WithLastPair(env.baseMac.value, '2', '0'))))
  }

  lemma Exhaustion(fixed: bool, ifname: string, env: Env, fs: Files)
    requires ifname != [] && HeldElsewhere(ifname, env, fs)
    ensures var r := Allocate(Standard, fixed, Some(ifname), false, Some([]), env, fs);
            var m := FormatMac(ScanOctets(WithLastPair(env.baseMac.value, '2', '0')));
            r == if fixed then Outcome(PoolExhausted, m, fs, None, MaxAttempts)
                 else Append(Call(Standard, fixed, ifname, false, env), m, fs, MaxAttempts)
  {
    var c := Call(Standard, fixed, ifname, false, env);
    var b := WithLastPair(env.baseMac.value, '2', '0');
    var o := ScanOctets(b);
    var m := FormatMac(o);
    assert PrivateMark([], false) == [];
    assert fs.(bootChk := true) == fs;
    assert GetMacFromFile([], ifname).NotFound? || GetMacFromFile([], ifname).KeyOverflow?;
    assert Allocate(Standard, fixed, Some(ifname), false, Some([]), env, fs) == Loop(c, o, [], false, 0, fs);
    assert !Harmless(ifname, m, env.live.value[0]);
    assert CheckUnique(c, m, fs) == InUse;
    assert Loop(c, o, [], false, 0, fs) == Loop(c, o, m, false, 1, fs);
    StuckLoop(c, o, fs, 1);
  }

  /**
   * As written, after 1000 candidates in use the call appends the last of them and
   * succeeds, although another live interface holds it.
   */
  lemma ExhaustionAppendsAddressInUse(ifname: string, env: Env, fs: Files)
    requires ifname != [] && HeldElsewhere(ifname, env, fs)
    ensures var r := Allocate(Standard, false, Some(ifname), false, Some([]), env, fs);
            r.code == Ok && r.appended.Some? && r.attempts == MaxAttempts &&
            env.live.value[0].name != ifname && env.live.value[0].query == IfMac(r.mac)
  {
    Exhaustion(false, ifname, env, fs);
  }

  /** Corrected, the call reports the pool exhausted and changes no file. */
  lemma ExhaustionReported(ifname: string, env: Env, fs: Files)
    requires ifname != [] && HeldElsewhere(ifname, env, fs)
    ensures var r := Allocate(Standard, true, Some(ifname), false, Some([]), env, fs);
            r.code == PoolExhausted && r.appended.None? && r.fs == fs
  {
    Exhaustion(true, ifname, env, fs);
  }

  // ---------------------------------------------------------------- defect 3: a current whitelist reads back as stale

  /**
   * The scenario of the third defect: the first call of a boot finds the whitelist the
   * generator writes for the current settings and for a base with the same first five
   * octets, with at least one entry.
   */
  predicate CurrentWhitelist(env: Env, fs: Files, b0: BaseText) {
    env.baseMac.Some? && !env.uci6g && env.resMac.Output? && !fs.bootChk &&
    b0[..15] == env.baseMac.value[..15] &&
    GenResevMacTable(b0, env.supMac, env.resMac).code == Ok &&
    |GenResevMacTable(b0, env.supMac, env.resMac).lines| >= 2 &&
    fs.resv == Some(GenResevMacTable(b0, env.supMac, env.resMac).lines)
  }

  /**
   * As written, the read-back records the count 64 whatever the header says, so with
   * any other sup_mac setting the whitelist is regenerated and the registry deleted on
   * every boot: afterwards it holds at most the line appended by this call.
   */
  lemma CurrentWhitelistDiscardsRegistry(ifname: string, global: bool, pcMac: string, env: Env, fs: Files, b0: BaseText)
    requires ifname != [] && CurrentWhitelist(env, fs, b0)
    requires GetRunTimeVal(SupMac, env.supMac).value != DefSupportCnt
    ensures var r := Allocate(Standard, false, Some(ifname), global, Some(pcMac), env, fs);
            r.fs.next == (if r.appended.Some? then Some([r.appended.value]) else None)
  {
    var c := Call(Standard, false, ifname, global, env);
    var mac0 := PrivateMark(pcMac, global);
    GeneratedReadBackValue(b0, env.supMac, env.resMac, false);
    var rec := FormatMac(TokOctets(b0)) + "\n";
    var b := WithLastPair(env.baseMac.value, CharAt(rec, 15), CharAt(rec, 16));
    assert Allocate(Standard, false, Some(ifname), global, Some(pcMac), env, fs) ==
           AfterGen(c, mac0, b, fs.(next := None), true);
  }

  /** The recorded first entry names the same base up to case, so the corrected read-back is current. */
  lemma RecordedMatchesBase(b0: BaseText, base: BaseText)
    requires b0[..15] == base[..15]
    ensures var rec := FormatMac(TokOctets(b0)) + "\n";
            CaseEqN(rec, WithLastPair(base, CharAt(rec, 15), CharAt(rec, 16)), 17)
  {
    var rec := FormatMac(TokOctets(b0)) + "\n";
    var b := WithLastPair(base, CharAt(rec, 15), CharAt(rec, 16));
    forall k | 0 <= k < 17
      ensures ToLower(rec[k]) == ToLower(b[k])
    {
      if k < 15 {
        BasePrefixCase(b0, k);
        assert b0[k] == b0[..15][k] == base[..15][k] == b[..15][k];
      }
    }
    CaseEqNPrefix(rec, b, 17, 0);
  }

  /**
   * Corrected, the read-back records the header's count, the whitelist is current, and
   * the registry is kept: a call either leaves it as it was or appends its one line.
   */
  lemma CurrentWhitelistKeepsRegistry(ifname: string, global: bool, pcMac: string, env: Env, fs: Files, b0: BaseText)
    requires ifname != [] && CurrentWhitelist(env, fs, b0)
    requires NoKeyLine(fs.next, ifname) && |ifname| + 1 < MacBufLen
    ensures var r := Allocate(Standard, true, Some(ifname), global, Some(pcMac), env, fs);
            (r.appended.Some? ==> r.fs.next == Some(fs.next.GetOr([]) + [r.appended.value])) &&
            (r.appended.None? && r.code == Ok ==> r.fs.next == fs.next)
  {
    var c := Call(Standard, true, ifname, global, env);
    var mac0 := PrivateMark(pcMac, global);
    GeneratedReadBackValue(b0, env.supMac, env.resMac, true);
    var rec := FormatMac(TokOctets(b0)) + "\n";
    var b := WithLastPair(env.baseMac.value, CharAt(rec, 15), CharAt(rec, 16));
    RecordedMatchesBase(b0, env.baseMac.value);
    assert Allocate(Standard, true, Some(ifname), global, Some(pcMac), env, fs) ==
           FindRecorded(c, b, ScanOctets(b), mac0, false, fs.(bootChk := true));
  }

  // ---------------------------------------------------------------- defect 4: a malformed entry is recorded again

  /**
   * The scenario of the fourth defect: the 6 GHz marker exists, the boot's checks are
   * done, glob finds at least one interface and none of them holds the malformed address
   * or the address generated in its place (the loopback interface alone, for example),
   * and the registry's only line records for the interface an address that
   * scapi_isValidMac rejects.
   */
  predicate MalformedEntry(ifname: string, m: string, env: Env, fs: Files) {
    Plain(ifname) && |ifname| + 1 < MacBufLen && Plain(m) && |m| < MacBufLen && !IsValidMac(m) &&
    env.baseMac.Some? && env.uci6g && env.live.Some? && |env.live.value| > 0 &&
    (forall k :: 0 <= k < |env.live.value| ==>
       Harmless(ifname, m, env.live.value[k]) &&
       Harmless(ifname, FormatMac(ScanOctets(WithLastPair(env.baseMac.value, '2', '0'))), env.live.value[k])) &&
    fs.resv.Some? && fs.bootChk && fs.next == Some([EntryLine(ifname, m)]) && fs.temp.None?
  }

  lemma MalformedEntryReissued(fixed: bool, ifname: string, m: string, env: Env, fs: Files)
    requires MalformedEntry(ifname, m, env, fs)
    ensures var r := Allocate(Standard, fixed, Some(ifname), false, Some([]), env, fs);
            var generated := FormatMac(ScanOctets(WithLastPair(env.baseMac.value, '2', '0')));
            r.code == Ok && r.mac == (if fixed then generated else m) && r.fs == fs.(next := Some([EntryLine(ifname, r.mac)]))
  {
    var c := Call(Standard, fixed, ifname, false, env);
    var b := WithLastPair(env.baseMac.value, '2', '0');
    var o := ScanOctets(b);
    assert PrivateMark([], false) == [];
    assert fs.(bootChk := true) == fs;
    LookupEntry(fs.next.value, 0, ifname, m);
    EntryMentionsName(ifname, m);
    KeptOne(EntryLine(ifname, m), ifname);
    var fs' := fs.(next := Some([]), temp := None);
    assert Allocate(Standard, fixed, Some(ifname), false, Some([]), env, fs) ==
           Loop(c, o, if fixed then [] else m, false, 0, fs');
    var line := EntryLine(ifname, if fixed then FormatMac(o) else m);
    assert [] + [line] == [line];
    assert fs'.(next := Some([line])) == fs.(next := Some([line]));
  }

  /**
   * As written, the malformed address is removed from the registry, then taken as the
   * candidate, found unique and recorded again: the call succeeds with it and the
   * files end as they began.
   */
  lemma MalformedEntryRecordedAgain(ifname: string, m: string, env: Env, fs: Files)
    requires MalformedEntry(ifname, m, env, fs)
    ensures var r := Allocate(Standard, false, Some(ifname), false, Some([]), env, fs);
            r.code == Ok && r.mac == m && !IsValidMac(r.mac) && r.fs == fs
  {
    MalformedEntryReissued(false, ifname, m, env, fs);
  }

  /** Corrected, a fresh address is generated, and it is one scapi_isValidMac accepts. */
  lemma MalformedEntryReplaced(ifname: string, m: string, env: Env, fs: Files)
    requires MalformedEntry(ifname, m, env, fs)
    ensures var r := Allocate(Standard, true, Some(ifname), false, Some([]), env, fs);
            r.code == Ok && r.mac != m && IsValidMac(r.mac) && r.fs == fs.(next := Some([EntryLine(ifname, r.mac)]))
  {
    MalformedEntryReissued(true, ifname, m, env, fs);
    var generated := FormatMac(ScanOctets(WithLastPair(env.baseMac.value, '2', '0')));
    FormatParse(ScanOctets(WithLastPair(env.baseMac.value, '2', '0')));
    WellFormedIsPlain(generated);
  }
}
