/**
 * The MAC allocator (scapi_getNextMacaddr and scapi_getMbssidNextMacaddr): hand an
 * interface the address recorded for it in the registry, or else the next free
 * address counted from the base address, and record it.
 *
 * The files form an ideal file system: opening for reading fails exactly when the
 * file is absent, opening for appending creates it, removal and renaming succeed.
 * Everything else the allocator learns from outside is part of an Env value.
 */
module Allocator {
  import opened Wrappers
  import opened CString
  import opened Codes
  import opened MacCodec
  import opened Whitelist
  import opened Registry

  /** scapi_getIfcMacaddr for one interface: its address text, ENODEV, or another failure. */
  datatype MacQuery = IfMac(text: string) | NoSuchDevice | QueryFailed

  /** One match of the glob of the interfaces under /sys/class/net: the interface's name and its query. */
  datatype LiveIface = LiveIface(name: string, query: MacQuery)

  /**
   * What the allocator reads from outside its files: the base address (None when it
   * cannot be read), whether the 6 GHz marker file exists, the outputs of the sup_mac
   * and res_mac queries, and the live interfaces (None when glob fails for another
   * reason than finding no match; an empty list is a glob that found nothing).
   */
  datatype Env = Env(baseMac: Option<BaseText>, uci6g: bool, supMac: Popen, resMac: Popen,
                     live: Option<seq<LiveIface>>)

  /**
   * The files the allocator reads and writes: the two whitelists, the two registries,
   * the main registry's temporary file, and whether the boot marker exists.
   */
  datatype Files = Files(resv: Option<seq<string>>, resv6g: Option<seq<string>>,
                         next: Option<seq<string>>, next6g: Option<seq<string>>,
                         temp: Option<seq<string>>, bootChk: bool)

  /** scapi_getNextMacaddr works on the main files, scapi_getMbssidNextMacaddr on the 6 GHz ones. */
  datatype Variant = Standard | SixG

  /**
   * One call: which allocator, whether the corrections of the documented defects are
   * applied, the interface name, the pool (global or private) and the environment.
   */
  datatype Call = Call(v: Variant, fixed: bool, ifname: string, global: bool, env: Env)

  /**
   * What a call leaves behind: the return code, the caller's MAC buffer, the files,
   * the registry line appended (if any), and how many candidates were found in use.
   */
  datatype Outcome = Outcome(code: Code, mac: string, fs: Files, appended: Option<string>, attempts: nat)

  /** The uniqueness check's verdict: 0, -MAC_IN_USE, or another error. */
  datatype Check = Unique | InUse | CheckFailed(code: Code)

  /** The candidate loop's bound. */
  const MaxAttempts: nat := 1000

  /** The registry a variant uses. */
  function Reg(v: Variant, fs: Files): Option<seq<string>> {
    if v.Standard? then fs.next else fs.next6g
  }

  function WithReg(v: Variant, fs: Files, reg: Option<seq<string>>): Files {
    if v.Standard? then fs.(next := reg) else fs.(next6g := reg)
  }

  /** The whitelist a variant checks global addresses against. */
  function Limit(v: Variant, fs: Files): Option<seq<string>> {
    if v.Standard? then fs.resv else fs.resv6g
  }

  // ---------------------------------------------------------------- uniqueness

  /** A live interface that does not stop the scan: the caller's own, gone, or holding another address. */
  predicate Harmless(ifname: string, mac: string, l: LiveIface) {
    l.name == ifname || l.query.NoSuchDevice? || (l.query.IfMac? && l.query.text != mac)
  }

  /** The scan over the live interfaces from index i: the first one that is not harmless decides. */
  function LiveScan(ifname: string, mac: string, live: seq<LiveIface>, i: nat): (r: Check)
    requires i <= |live|
    decreases |live| - i
    ensures r == Unique || r == InUse || r == CheckFailed(InterfaceNotUp)
    ensures r == Unique <==> forall k :: i <= k < |live| ==> Harmless(ifname, mac, live[k])
    ensures r == InUse ==> exists k :: i <= k < |live| && live[k].name != ifname && live[k].query == IfMac(mac)
  {
    if i == |live| then Unique
    else if Harmless(ifname, mac, live[i]) then LiveScan(ifname, mac, live, i + 1)
    else if live[i].query.QueryFailed? then CheckFailed(InterfaceNotUp)
    else InUse
  }

  /**
   * scapi_validateMacaddr: the registry must exist and glob must succeed; glob is called
   * with no flags, so a pattern that matches nothing returns GLOB_NOMATCH, which is a glob
   * error like any other non-zero return. Then mac must not be the address of another
   * live interface, nor occur in any registry line.
   */
  function ValidateMacaddr(ifname: string, mac: string, next: Option<seq<string>>,
                           live: Option<seq<LiveIface>>): (r: Check)
    ensures r.CheckFailed? ==> r.code in {FileOperFailed, GlobFetchFailed, InterfaceNotUp}
    ensures next.None? ==> r == CheckFailed(FileOperFailed)
    ensures next.Some? && (live.None? || live == Some([])) ==> r == CheckFailed(GlobFetchFailed)
    ensures r == Unique <==>
              next.Some? && live.Some? && live.value != [] &&
              (forall k :: 0 <= k < |live.value| ==> Harmless(ifname, mac, live.value[k])) &&
              (forall j :: 0 <= j < |next.value| ==> !Contains(next.value[j], mac))
    ensures r == InUse ==>
              next.Some? && live.Some? &&
              ((exists k :: 0 <= k < |live.value| && live.value[k].name != ifname && live.value[k].query == IfMac(mac)) ||
               (exists j :: 0 <= j < |next.value| && Contains(next.value[j], mac)))
  {
    if next.None? then CheckFailed(FileOperFailed)
    else if live.None? || live.value == [] then CheckFailed(GlobFetchFailed)
    else
      match LiveScan(ifname, mac, live.value, 0)
      case Unique => if FirstWith(next.value, mac, 0).Some? then InUse else Unique
      case other => other
  }

  /** scapi_validate6gMacaddr: only the 6 GHz registry is searched; live interfaces are not. */
  function Validate6gMacaddr(mac: string, next6g: Option<seq<string>>): (r: Check)
    ensures r.CheckFailed? <==> next6g.None?
    ensures r.CheckFailed? ==> r.code == FileOperFailed
    ensures r == Unique <==> next6g.Some? && forall j :: 0 <= j < |next6g.value| ==> !Contains(next6g.value[j], mac)
  {
    if next6g.None? then CheckFailed(FileOperFailed)
    else if FirstWith(next6g.value, mac, 0).Some? then InUse
    else Unique
  }

  function CheckUnique(c: Call, mac: string, fs: Files): Check {
    if c.v.Standard? then ValidateMacaddr(c.ifname, mac, fs.next, c.env.live)
    else Validate6gMacaddr(mac, fs.next6g)
  }

  // ---------------------------------------------------------------- outcomes

  /** finish: append "<ifname>> <mac>" to the registry ("a+" creates it) and succeed. */
  function Append(c: Call, mac: string, fs: Files, attempts: nat): (r: Outcome)
    ensures r.code == Ok && r.mac == mac && r.attempts == attempts && r.appended == Some(EntryLine(c.ifname, mac))
    ensures EndsWith(Reg(c.v, r.fs), EntryLine(c.ifname, mac)) && Limit(c.v, r.fs) == Limit(c.v, fs)
    ensures r.fs == WithReg(c.v, fs, Some(Reg(c.v, fs).GetOr([]) + [EntryLine(c.ifname, mac)]))
  {
    var line := EntryLine(c.ifname, mac);
    Outcome(Ok, mac, WithReg(c.v, fs, Some(Reg(c.v, fs).GetOr([]) + [line])), Some(line), attempts)
  }

  predicate EndsWith(reg: Option<seq<string>>, line: string) {
    reg.Some? && |reg.value| > 0 && reg.value[|reg.value| - 1] == line
  }

  /**
   * What every outcome satisfies: at most 1000 candidates were found in use; an
   * appended line comes with success, is "<ifname>> <mac>" for the address returned,
   * and is the registry's last line; and a global address that was appended matches
   * a line of the whitelist.
   */
  predicate Sound(c: Call, r: Outcome) {
    r.attempts <= MaxAttempts &&
    (r.appended.Some? ==>
       r.code == Ok && r.appended.value == EntryLine(c.ifname, r.mac) &&
       EndsWith(Reg(c.v, r.fs), r.appended.value) &&
       (c.global ==> ValidateLimit(r.mac, true, Limit(c.v, r.fs))))
  }

  /** No line of the registry holds the interface's key. */
  predicate NoKeyLine(reg: Option<seq<string>>, ifname: string) {
    reg.None? || forall j :: 0 <= j < |reg.value| ==> !Contains(reg.value[j], Key(ifname))
  }

  // ---------------------------------------------------------------- the candidate loop

  /**
   * The candidate loop from attempt k on. The candidate is regenerated when the caller
   * gave none, the whitelist was regenerated, or the last candidate was in use; the
   * octets are stepped first only when the registry is non-empty. A candidate outside
   * the whitelist ends the call; a unique one is appended. After 1000 candidates in
   * use the code as written falls through to the append with the last of them; the
   * corrected loop reports the pool exhausted.
   */
  function Loop(c: Call, o: Octets, mac: string, modified: bool, k: nat, fs: Files): (r: Outcome)
    requires k <= MaxAttempts
    requires k > 0 ==> ValidateLimit(mac, c.global, Limit(c.v, fs))
    decreases MaxAttempts - k
    ensures Sound(c, r) && k <= r.attempts
    ensures r.appended.None? ==> r.fs == fs && r.code != Ok
    ensures r.appended.Some? ==> r.fs == WithReg(c.v, fs, Some(Reg(c.v, fs).GetOr([]) + [r.appended.value]))
    ensures r.appended.Some? && (c.fixed || r.attempts < MaxAttempts) ==> CheckUnique(c, r.mac, fs) == Unique
    ensures c.fixed && r.appended.Some? ==> r.attempts < MaxAttempts
  {
    if k == MaxAttempts then
      if c.fixed then Outcome(PoolExhausted, mac, fs, None, k) else Append(c, mac, fs, k)
    else
      match Attempt(c, o, mac, modified, k, fs)
      case Done(r) => r
      case Retry(o', cand) => Loop(c, o', cand, modified, k + 1, fs)
  }

  /** How one pass of the candidate loop ends: with the call's outcome, or with a candidate in use. */
  datatype Pass = Done(r: Outcome) | Retry(o: Octets, cand: string)

  /**
   * Pass k of the candidate loop (k < 1000): step and format the candidate, test it
   * against the whitelist and the live interfaces, and append it when it is unique.
   */
  function Attempt(c: Call, o: Octets, mac: string, modified: bool, k: nat, fs: Files): (p: Pass)
    requires k < MaxAttempts
    ensures p.Done? ==> Sound(c, p.r) && p.r.attempts == k
    ensures p.Done? && p.r.appended.None? ==> p.r.fs == fs && p.r.code != Ok
    ensures p.Done? && p.r.appended.Some? ==>
              p.r.fs == WithReg(c.v, fs, Some(Reg(c.v, fs).GetOr([]) + [p.r.appended.value])) &&
              CheckUnique(c, p.r.mac, fs) == Unique
    ensures p.Retry? ==> ValidateLimit(p.cand, c.global, Limit(c.v, fs)) && CheckUnique(c, p.cand, fs) == InUse
  {
    var regen := mac == [] || modified || k > 0;
    var reg := Reg(c.v, fs);
    var stepped := if regen && reg.Some? && |reg.value| > 0 then IncrementMacaddr(o, c.global) else Success(o);
    match stepped
    case Failure(e) => Done(Outcome(e, mac, fs, None, k))
    case Success(o') =>
      var cand := if regen then FormatMac(o') else mac;
      if !ValidateLimit(cand, c.global, Limit(c.v, fs)) then Done(Outcome(PoolExhausted, cand, fs, None, k))
      else
        match CheckUnique(c, cand, fs)
        case Unique => Done(Append(c, cand, fs, k))
        case InUse => Retry(o', cand)
        case CheckFailed(e) => Done(Outcome(e, cand, fs, None, k))
  }

  // ---------------------------------------------------------------- lookup

  /**
   * No registry: a private address is the base with octet 0 set to 2, a global one the
   * base text, unless the caller gave one and the whitelist was not regenerated. A
   * global address must pass the whitelist. No uniqueness check is made.
   */
  function Direct(c: Call, b: BaseText, o: Octets, mac: string, modified: bool, fs: Files): (r: Outcome)
    requires Reg(c.v, fs).None?
    ensures Sound(c, r) && r.attempts == 0
    ensures r.appended.None? ==> r.code == PoolExhausted && r.fs == fs
    ensures r.appended.Some? ==> r.fs == WithReg(c.v, fs, Some([r.appended.value]))
  {
    var cand :=
      if mac != [] && !modified then mac
      else if c.global then CStr(b)
      else FormatMac(o[0 := 2]);
    if ValidateLimit(cand, c.global, Limit(c.v, fs)) then
      assert [] + [EntryLine(c.ifname, cand)] == [EntryLine(c.ifname, cand)];
      Append(c, cand, fs, 0)
    else Outcome(PoolExhausted, cand, fs, None, 0)
  }

  /**
   * The lookup in the variant's registry; without a registry, see Direct. A well-formed
   * recorded address is returned as is.
   */
  function FindRecorded(c: Call, b: BaseText, o: Octets, mac: string, modified: bool, fs: Files): (r: Outcome)
    ensures Sound(c, r)
    ensures Limit(c.v, r.fs) == Limit(c.v, fs) && r.fs.bootChk == fs.bootChk
    ensures c.fixed && r.appended.Some? ==> r.attempts < MaxAttempts
    ensures r.appended.None? && r.code == Ok ==>
              r.fs == fs && Reg(c.v, fs).Some? && GetMacFromFile(Reg(c.v, fs).value, c.ifname) == Found(r.mac) &&
              IsValidMac(r.mac)
    ensures r.appended.Some? && NoKeyLine(Reg(c.v, fs), c.ifname) && |c.ifname| + 1 < MacBufLen ==>
              Reg(c.v, r.fs) == Some(Reg(c.v, fs).GetOr([]) + [r.appended.value])
    ensures Reg(c.v, fs).None? ==> Reg(c.v, r.fs) == (if r.appended.Some? then Some([r.appended.value]) else None)
  {
    match Reg(c.v, fs)
    case None => Direct(c, b, o, mac, modified, fs)
    case Some(lines) => FromRegistry(c, o, mac, modified, fs, GetMacFromFile(lines, c.ifname))
  }

  /**
   * What the registry lookup's result leads to. A line with nothing after the key is an
   * input error; an address too long for the buffer empties the candidate; no line, or
   * a name too long for the key, keeps it; a malformed address is handled by Reissue.
   */
  function FromRegistry(c: Call, o: Octets, mac: string, modified: bool, fs: Files, found: Lookup): (r: Outcome)
    requires Reg(c.v, fs).Some?
    ensures Sound(c, r)
    ensures Limit(c.v, r.fs) == Limit(c.v, fs) && r.fs.bootChk == fs.bootChk
    ensures c.fixed && r.appended.Some? ==> r.attempts < MaxAttempts
    ensures r.appended.None? && r.code == Ok ==> r.fs == fs && found == Found(r.mac) && IsValidMac(r.mac)
    ensures r.appended.Some? && (found.NotFound? || found.KeyOverflow?) ==>
              Reg(c.v, r.fs) == Some(Reg(c.v, fs).value + [r.appended.value])
  {
    match found
    case Found(m) => if IsValidMac(m) then Outcome(Ok, m, fs, None, 0) else Reissue(c, o, m, modified, fs)
    case ParseFailed => Outcome(InputValidationFailed, mac, fs, None, 0)
    case MacOverflow => Loop(c, o, [], modified, 0, fs)
    case NotFound => Loop(c, o, mac, modified, 0, fs)
    case KeyOverflow => Loop(c, o, mac, modified, 0, fs)
  }

  /**
   * A malformed recorded address m: the interface's lines are removed from the MAIN
   * registry, which is deleted if that fails (for the 6 GHz allocator too). As written,
   * m then becomes the loop's candidate unchanged; the corrected allocator starts the
   * loop without a candidate, so that a fresh address is generated.
   */
  function Reissue(c: Call, o: Octets, m: string, modified: bool, fs: Files): (r: Outcome)
    ensures Sound(c, r)
    ensures Limit(c.v, r.fs) == Limit(c.v, fs) && r.fs.bootChk == fs.bootChk
    ensures c.fixed && r.appended.Some? ==> r.attempts < MaxAttempts
    ensures r.appended.None? ==> r.code != Ok
  {
    var rm := RemoveNextMacaddr(RegFiles(fs.next, fs.temp), c.ifname, true, true);
    var fs' := fs.(next := if rm.code == Ok then rm.files.next else None, temp := rm.files.temp);
    Loop(c, o, if c.fixed then [] else m, modified, 0, fs')
  }

  // ---------------------------------------------------------------- the whitelist stage

  /** The staleness test: the recorded count or the recorded first address differs from the current one. */
  predicate Stale(info: ResvInfo, sup: int, b: BaseText) {
    info.supCnt != sup || !CaseEqN(info.recorded, b, 17)
  }

  /**
   * scapi_getNextMacaddr from the base address to the lookup: the base's last pair
   * becomes "20" when the 6 GHz marker exists, else the pair recorded in the whitelist,
   * whose read-back errors are returned. Without the marker and the whitelist the
   * base is used as read and the recorded values stay empty.
   */
  function GetNextStages(c: Call, mac0: string, base: BaseText, fs: Files): (r: Outcome)
    requires c.v.Standard?
    ensures Sound(c, r)
    ensures c.fixed && r.appended.Some? ==> r.attempts < MaxAttempts
    ensures r.appended.Some? ==> r.fs.bootChk && r.fs.resv.Some?
    ensures r.appended.Some? && !c.env.uci6g && c.env.resMac.Output? ==>
              GetMacAddrFromResvList(r.fs.resv, c.fixed).Success?
    ensures r.appended.Some? && NoKeyLine(fs.next, c.ifname) && |c.ifname| + 1 < MacBufLen ==>
              OnlyLastHasKey(r.fs.next, c.ifname)
  {
    if c.env.uci6g then Tables(c, mac0, WithLastPair(base, '2', '0'), ResvInfo(0, []), fs)
    else if fs.resv.None? then Tables(c, mac0, base, ResvInfo(0, []), fs)
    else
      match GetMacAddrFromResvList(fs.resv, c.fixed)
      case Failure(e) => Outcome(e, mac0, fs, None, 0)
      case Success(info) =>
        Tables(c, mac0, WithLastPair(base, CharAt(info.recorded, 15), CharAt(info.recorded, 16)), info, fs)
  }

  /** Only the last line of the registry holds the interface's key. */
  predicate OnlyLastHasKey(reg: Option<seq<string>>, ifname: string) {
    reg.Some? && |reg.value| > 0 && forall j :: 0 <= j < |reg.value| - 1 ==> !Contains(reg.value[j], Key(ifname))
  }

  /**
   * The whitelist: generated when absent (its error is returned); on the first call of
   * a boot, regenerated when stale, the registry being deleted first. The boot marker
   * is then created and the lookup follows.
   */
  function Tables(c: Call, mac0: string, b: BaseText, info: ResvInfo, fs: Files): (r: Outcome)
    requires c.v.Standard?
    ensures Sound(c, r)
    ensures c.fixed && r.appended.Some? ==> r.attempts < MaxAttempts
    ensures r.appended.Some? ==> r.fs.bootChk && r.fs.resv.Some?
    ensures r.appended.Some? && c.env.resMac.Output? ==>
              r.fs.resv == fs.resv || GetMacAddrFromResvList(r.fs.resv, c.fixed).Success?
    ensures r.appended.Some? && NoKeyLine(fs.next, c.ifname) && |c.ifname| + 1 < MacBufLen ==>
              OnlyLastHasKey(r.fs.next, c.ifname)
  {
    if fs.resv.None? then AfterGen(c, mac0, b, fs, false)
    else if !fs.bootChk && Stale(info, GetRunTimeVal(SupMac, c.env.supMac).value, b) then
      AfterGen(c, mac0, b, fs.(next := None), true)
    else FindRecorded(c, b, ScanOctets(b), mac0, false, fs.(bootChk := true))
  }

  /**
   * Generate the whitelist and store it. A failure returns the generator's code,
   * except that after a regeneration (modified) the code as written returns
   * EXIT_SUCCESS, the sup_mac query's code still held. On success the boot marker is
   * created and the interface looked up.
   */
  function AfterGen(c: Call, mac0: string, b: BaseText, fs: Files, modified: bool): (r: Outcome)
    requires c.v.Standard?
    ensures Sound(c, r)
    ensures c.fixed && r.appended.Some? ==> r.attempts < MaxAttempts
    ensures r.appended.Some? ==> r.fs.bootChk
    ensures var t := GenResevMacTable(b, c.env.supMac, c.env.resMac);
            r.fs.resv == Some(t.lines) &&
            (t.code != Ok ==> r == Outcome(if modified && !c.fixed then Ok else t.code, mac0, fs.(resv := Some(t.lines)), None, 0))
    ensures r.appended.Some? && c.env.resMac.Output? ==> GetMacAddrFromResvList(r.fs.resv, c.fixed).Success?
    ensures r.appended.Some? && NoKeyLine(fs.next, c.ifname) && |c.ifname| + 1 < MacBufLen ==>
              r.fs.next == Some(fs.next.GetOr([]) + [r.appended.value])
    ensures fs.next.None? ==> r.fs.next == (if r.appended.Some? then Some([r.appended.value]) else None)
  {
    var t := GenResevMacTable(b, c.env.supMac, c.env.resMac);
    var fs1 := fs.(resv := Some(t.lines));
    if t.code != Ok then Outcome(if modified && !c.fixed then Ok else t.code, mac0, fs1, None, 0)
    else
      var r := FindRecorded(c, b, ScanOctets(b), mac0, modified, fs1.(bootChk := true));
      if c.env.resMac.Output? then
        GeneratedReadsBack(b, c.env.supMac, c.env.resMac, c.fixed);
        r
      else r
  }

  /**
   * scapi_getMbssidNextMacaddr from the base address to the lookup: the base's last
   * pair is "00"; the 6 GHz whitelist is generated when absent and, unless the 6 GHz
   * marker exists, read back on every call and regenerated (deleting the 6 GHz
   * registry) when stale. There is no boot marker.
   */
  function MbssidStages(c: Call, mac0: string, base: BaseText, fs: Files): (r: Outcome)
    requires c.v.SixG?
    ensures Sound(c, r)
    ensures c.fixed && r.appended.Some? ==> r.attempts < MaxAttempts
  {
    var b := WithLastPair(base, '0', '0');
    var o := ScanOctets(b);
    if fs.resv6g.None? then
      FindRecorded(c, b, o, mac0, false, fs.(resv6g := Some(Gen6gResevMacTable(b).lines)))
    else if c.env.uci6g then FindRecorded(c, b, o, mac0, false, fs)
    else
      match GetMacAddrFromResvList(fs.resv6g, false)
      case Failure(e) => Outcome(e, mac0, fs, None, 0)
      case Success(info) =>
        if Stale(info, GetRunTimeVal(SupMac, c.env.supMac).value, b) then
          FindRecorded(c, b, o, mac0, true, fs.(next6g := None, resv6g := Some(Gen6gResevMacTable(b).lines)))
        else FindRecorded(c, b, o, mac0, false, fs)
  }

  // ---------------------------------------------------------------- entry points

  /**
   * The text of the caller's buffer buf once a private request has marked it: a
   * non-empty text gets "02" as its first two characters. Its other characters stay;
   * a one-character text has its NUL overwritten and runs on to the next NUL of the
   * buffer.
   */
  function PrivateMark(buf: string, global: bool): (r: string)
    ensures CStr(buf) == [] || global ==> r == CStr(buf)
    ensures CStr(buf) != [] && !global ==> |r| >= 2 && r[..2] == "02" && NulFree(r)
    ensures CStr(buf) != [] && !global && |CStr(buf)| >= 2 ==> r[2..] == CStr(buf)[2..]
    ensures CStr(buf) != [] && !global && |CStr(buf)| == 1 ==> r[2..] == (if |buf| >= 2 then CStr(buf[2..]) else [])
  {
    if CStr(buf) == [] || global then CStr(buf)
    else
      var t := if |buf| >= 2 then buf[2..] else [];
      CStrAfter("02", t);
      assert |CStr(buf)| >= 2 ==> CStr(buf)[2..] == CStr(t) by {
        if |CStr(buf)| >= 2 {
          CStrDrop(buf, 2);
        }
      }
      CStr("02" + t)
  }

  /**
   * scapi_getNextMacaddr (v = Standard) and scapi_getMbssidNextMacaddr (v = SixG),
   * as written (fixed = false) or corrected. A missing or empty name, or a missing
   * output buffer, is rejected before anything is touched; so is a base address that
   * cannot be read. pcMac holds the caller's buffer contents.
   */
  function Allocate(v: Variant, fixed: bool, ifname: Option<string>, global: bool, pcMac: Option<string>,
                    env: Env, fs: Files): (r: Outcome)
    ensures ifname.None? || pcMac.None? || ifname.value == [] ==>
              r.code == InputValidationFailed && r.fs == fs && r.appended.None?
    ensures ifname.Some? && ifname.value != [] && pcMac.Some? && env.baseMac.None? ==>
              r.code == BaseMacFailed && r.fs == fs && r.appended.None?
    ensures ifname.Some? && ifname.value != [] && pcMac.Some? ==> Sound(Call(v, fixed, ifname.value, global, env), r)
    ensures fixed && r.appended.Some? ==> r.attempts < MaxAttempts
  {
    if ifname.None? || pcMac.None? || ifname.value == [] then
      Outcome(InputValidationFailed, pcMac.GetOr([]), fs, None, 0)
    else
      var c := Call(v, fixed, ifname.value, global, env);
      var mac0 := PrivateMark(pcMac.value, global);
      match env.baseMac
      case None => Outcome(BaseMacFailed, mac0, fs, None, 0)
      case Some(base) =>
        if v.Standard? then GetNextStages(c, mac0, base, fs) else MbssidStages(c, mac0, base, fs)
  }
}
