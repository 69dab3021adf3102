/**
 * The reserved-address whitelist (".resv-mac.conf" and its 6 GHz twin): its
 * generation from the base address and the boot-loader settings, the read-back
 * the allocator uses to detect a stale table, the whitelist check, and the
 * reserved-address list that follows the whitelist.
 */
module Whitelist {
  import opened Wrappers
  import opened CString
  import opened Codes
  import opened MacCodec

  const DefSupportCnt: int := 64     // DEF_MAC_SUPPORT_CNT
  const DefReservedCnt: int := 2     // DEF_MAC_RESERVED_CNT
  const Def6gSupportCnt: int := 32   // DEF_6g_MAC_SUPPORT_CNT
  const MaxCnt: int := 1000          // MAX_CNT

  /** What popen() of the boot-loader query gave: no stream, or the text read from it. */
  datatype Popen = PopenFailed | Output(text: string)

  /** The two boot-loader settings: supported (sup_mac) and reserved (res_mac) address counts. */
  datatype Setting = SupMac | ResMac

  /** fread() fills a 32-byte buffer: atoi sees at most the first 32 characters. */
  function ReadBuf(text: string): string {
    if |text| <= 32 then text else text[..32]
  }

  /**
   * scapi_getRunTimeVal. The supported count falls back to 64 when the query cannot be
   * started, prints nothing or prints something atoi reads as 0; the reserved count is
   * an error only when the query cannot be started and is 2 when it prints nothing.
   */
  function GetRunTimeVal(name: Setting, p: Popen): (r: Result<int, Code>)
    ensures r.Failure? <==> name.ResMac? && p.PopenFailed?
    ensures r.Failure? ==> r.error == FileOperFailed
    ensures name.SupMac? ==> r.value != 0
    ensures name.SupMac? && p.Output? && Atoi(ReadBuf(p.text)) != 0 ==> r.value == Atoi(ReadBuf(p.text))
    ensures name.ResMac? && p.Output? && p.text != [] ==> r.value == Atoi(ReadBuf(p.text))
    ensures r.Success? && (p.PopenFailed? || p.text == []) ==>
              r.value == (if name.SupMac? then DefSupportCnt else DefReservedCnt)
  {
    match p
    case PopenFailed =>
      if name.SupMac? then Success(DefSupportCnt) else Failure(FileOperFailed)
    case Output(text) =>
      if |text| == 0 then
        assert ReadBuf(text) == [] && SkipSpaces([]) == [];
        Success(if name.SupMac? then DefSupportCnt else DefReservedCnt)
      else if name.SupMac? && Atoi(ReadBuf(text)) == 0 then Success(DefSupportCnt)
      else Success(Atoi(ReadBuf(text)))
  }

  /** The first line of a whitelist: fprintf("sup_mac=%d\n"). */
  function Header(n: int): string {
    "sup_mac=" + IntToDec(n)
  }

  /**
   * The entries a generator prints: the counter's address, then one scapi_incMacAddr
   * step, n times. (The step after the last entry is defined too, as n < Room(c).)
   */
  function Entries(c: Counter, n: nat): (r: seq<string>)
    requires n < Room(c)
    decreases n
    ensures |r| == n
    ensures forall i :: 0 <= i < n ==> IncN(c, i).Some? && r[i] == FormatMac(IncN(c, i).value.addr)
  {
    if n == 0 then []
    else
      StepRoom(c);
      [FormatMac(c.addr)] + Entries(IncStep(c).value, n - 1)
  }

  /** The whitelist file a generator leaves behind, and its return code. */
  datatype Table = Table(code: Code, lines: seq<string>)

  /**
   * scapi_genResevMacTable. The file is created first. If the reserved count cannot be
   * read, nothing is written and the code stays EXIT_SUCCESS; otherwise the header
   * is written, and more than 1000 entries is an error with only the header
   * written. Entries start at the base address as the generator parses it.
   */
  function GenResevMacTable(b: BaseText, sup: Popen, res: Popen): (t: Table)
    ensures t.code == Ok || t.code == PoolExhausted
    ensures t.code == PoolExhausted <==>
              res.Output? && GetRunTimeVal(SupMac, sup).value - GetRunTimeVal(ResMac, res).value > MaxCnt
    ensures res.PopenFailed? ==> t.lines == []
    ensures res.Output? ==> |t.lines| >= 1 && t.lines[0] == Header(GetRunTimeVal(SupMac, sup).value)
    ensures t.code == Ok && res.Output? ==>
              var n := GetRunTimeVal(SupMac, sup).value - GetRunTimeVal(ResMac, res).value;
              |t.lines| == 1 + (if n > 0 then n else 0) &&
              forall i :: 0 <= i < |t.lines| - 1 ==>
                IncN(StartCounter(TokOctets(b)), i).Some? &&
                t.lines[i + 1] == FormatMac(IncN(StartCounter(TokOctets(b)), i).value.addr)
  {
    var supN := GetRunTimeVal(SupMac, sup).value;
    match GetRunTimeVal(ResMac, res)
    case Failure(_) => Table(Ok, [])
    case Success(resN) =>
      var n := supN - resN;
      if n > MaxCnt then Table(PoolExhausted, [Header(supN)])
      else
        StartRoom(TokOctets(b));
        Table(Ok, [Header(supN)] + Entries(StartCounter(TokOctets(b)), if n > 0 then n else 0))
  }

  /** scapi_gen6gResevMacTable: always 32 entries and no reserved addresses. */
  function Gen6gResevMacTable(b: BaseText): (t: Table)
    ensures t.code == Ok && |t.lines| == 1 + Def6gSupportCnt && t.lines[0] == Header(Def6gSupportCnt)
    ensures forall i :: 0 <= i < |t.lines| - 1 ==>
              IncN(StartCounter(TokOctets(b)), i).Some? &&
              t.lines[i + 1] == FormatMac(IncN(StartCounter(TokOctets(b)), i).value.addr)
  {
    StartRoom(TokOctets(b));
    Table(Ok, [Header(Def6gSupportCnt)] + Entries(StartCounter(TokOctets(b)), Def6gSupportCnt))
  }

  // ---------------------------------------------------------------- read-back

  /** What scapi_getMacAddrFromResvList reports: the count it parsed and the line it recorded. */
  datatype ResvInfo = ResvInfo(supCnt: int, recorded: string)

  /**
   * The buffers the read-back loop processes: each line with its newline and, when the
   * file has one line only, that same buffer again as strtok left it (the loop runs
   * at least twice and getline leaves the buffer alone at end of file).
   */
  function Buffers(lines: seq<string>): (r: seq<string>)
    requires |lines| > 0
    ensures |r| >= 2
  {
    if |lines| == 1 then [lines[0] + "\n", TruncAtToken(lines[0] + "\n", {'='})]
    else seq(|lines|, i requires 0 <= i < |lines| => lines[i] + "\n")
  }

  /** One iteration's count update: strtok at '=', then at '\n'; no second token means 64. */
  function CountUpdate(buf: string, cnt: int): int {
    match StrTok(buf, {'='})
    case None => cnt
    case Some(t) =>
      match StrTok(t.rest, {'\n'})
      case None => DefSupportCnt
      case Some(t2) => Atoi(t2.token)
  }

  /**
   * The count update as the staleness check needs it: only a buffer holding '=' (the
   * header) sets the count. strtok returns the whole buffer when it holds no '=', so
   * the update as written also fires on every entry line and resets the count to 64.
   */
  function CountUpdateFixed(buf: string, cnt: int): int {
    if '=' in buf then CountUpdate(buf, cnt) else cnt
  }

  /**
   * The read-back loop from buffer i on; the second buffer, as strtok left it, is
   * recorded. fixed selects the corrected count update.
   */
  function ReadLoop(bufs: seq<string>, i: nat, cnt: int, rec: string, fixed: bool): ResvInfo
    requires i <= |bufs|
    decreases |bufs| - i
  {
    if i == |bufs| then ResvInfo(cnt, rec)
    else
      var rec' := if i == 1 then TruncAtToken(bufs[i], {'='}) else rec;
      var cnt' := if fixed then CountUpdateFixed(bufs[i], cnt) else CountUpdate(bufs[i], cnt);
      ReadLoop(bufs, i + 1, cnt', rec', fixed)
  }

  /** The second buffer as strtok at '=' leaves it: what the read-back records as the previous base. */
  function RecordedLine(lines: seq<string>): string
    requires |lines| > 0
  {
    TruncAtToken(Buffers(lines)[1], {'='})
  }

  lemma {:induction false} ReadLoopRecords(bufs: seq<string>, i: nat, cnt: int, rec: string, fixed: bool)
    requires 2 <= |bufs| && i <= |bufs|
    ensures ReadLoop(bufs, i, cnt, rec, fixed).recorded == if i <= 1 then TruncAtToken(bufs[1], {'='}) else rec
    decreases |bufs| - i
  {
    if i < |bufs| {
      var rec' := if i == 1 then TruncAtToken(bufs[i], {'='}) else rec;
      var cnt' := if fixed then CountUpdateFixed(bufs[i], cnt) else CountUpdate(bufs[i], cnt);
      ReadLoopRecords(bufs, i + 1, cnt', rec', fixed);
    }
  }

  /**
   * scapi_getMacAddrFromResvList (fixed = false), or its corrected count (fixed = true).
   * A missing file is an error; so is an empty one, whose first pass sees no line at
   * all (strnlen_s of the unset buffer is 0). The recorded line must fit sprintf_s
   * into a 32-byte buffer and must not be empty.
   */
  function GetMacAddrFromResvList(file: Option<seq<string>>, fixed: bool): (r: Result<ResvInfo, Code>)
    ensures file.None? || file.value == [] ==> r == Failure(FileOperFailed)
    ensures file.Some? && file.value != [] ==>
              (r.Success? <==> 0 < |RecordedLine(file.value)| < 32) &&
              (r.Failure? ==> r.error == GenericFailure) &&
              (r.Success? ==> r.value.recorded == RecordedLine(file.value))
  {
    match file
    case None => Failure(FileOperFailed)
    case Some(lines) =>
      if |lines| == 0 then Failure(FileOperFailed)
      else
        var info := ReadLoop(Buffers(lines), 0, 0, "", fixed);
        ReadLoopRecords(Buffers(lines), 0, 0, "", fixed);
        if |info.recorded| == 0 || |info.recorded| >= 32 then Failure(GenericFailure)
        else Success(info)
  }

  /** Entry lines written by the generators never contain '='. */
  predicate NoEq(e: string) {
    forall k :: 0 <= k < |e| ==> e[k] != '='
  }

  /** An entry line has no '=': the update as written gives 64, the corrected one keeps the count. */
  lemma EntryBuffer(e: string, cnt: int)
    requires NoEq(e)
    ensures CountUpdate(e + "\n", cnt) == DefSupportCnt
    ensures CountUpdateFixed(e + "\n", cnt) == cnt
    ensures TruncAtToken(e + "\n", {'='}) == e + "\n"
  {
    var buf := e + "\n";
    assert buf[|buf| - 1] == '\n';
    StrTokWhole(buf, {'='});
    assert Scan(buf, {'='}, Scan(buf, {'='}, 0, false), true) == |buf|;
    assert '=' !in buf;
  }

  lemma {:induction false} ReadLoopEntries(bufs: seq<string>, i: nat, cnt: int, rec: string, fixed: bool)
    requires 2 <= i < |bufs|
    requires forall j :: i <= j < |bufs| ==> exists e :: bufs[j] == e + "\n" && NoEq(e)
    ensures ReadLoop(bufs, i, cnt, rec, fixed) == ResvInfo(if fixed then cnt else DefSupportCnt, rec)
    decreases |bufs| - i
  {
    var e :| bufs[i] == e + "\n" && NoEq(e);
    EntryBuffer(e, cnt);
    if i + 1 < |bufs| {
      ReadLoopEntries(bufs, i + 1, if fixed then cnt else DefSupportCnt, rec, fixed);
    }
  }

  /** The header line "sup_mac=<digits>" as strtok leaves it and as the count update reads it. */
  lemma HeaderBuffer(rest: string, cnt: int)
    ensures TruncAtToken("sup_mac=" + rest, {'='}) == "sup_mac"
    ensures TruncAtToken("sup_mac", {'='}) == "sup_mac"
    ensures CountUpdate("sup_mac", cnt) == DefSupportCnt
    ensures CountUpdateFixed("sup_mac", cnt) == cnt
  {
    var buf := "sup_mac=" + rest;
    assert buf[0] == 's' && buf[7] == '=';
    assert Scan(buf, {'='}, 0, false) == 0;
    assert forall k :: 0 <= k < 7 ==> buf[k] != '=';
    assert Scan(buf, {'='}, 0, true) == 7;
    assert buf[..7] == "sup_mac";
    StrTokWhole("sup_mac", {'='});
    assert Scan("sup_mac", {'='}, 0, true) == 7;
    assert StrTok([], {'\n'}) == None;
    assert forall k :: 0 <= k < 7 ==> "sup_mac"[k] != '=';
  }

  /** The header buffer "sup_mac=<n>\n": both updates read n from it. */
  lemma HeaderCount(n: int, cnt: int)
    ensures CountUpdate(Header(n) + "\n", cnt) == n
    ensures CountUpdateFixed(Header(n) + "\n", cnt) == n
  {
    var d := IntToDec(n);
    var buf := Header(n) + "\n";
    assert buf == "sup_mac" + ['='] + (d + "\n");
    assert forall k :: 0 <= k < 7 ==> "sup_mac"[k] != '=';
    StrTokDelimited("sup_mac", '=', d + "\n", {'='});
    assert forall k :: 0 <= k < |d| ==> d[k] != '\n' by {
      if n < 0 { assert d == "-" + NatToDec(-n); }
    }
    assert d + "\n" == d + ['\n'] + [];
    StrTokDelimited(d, '\n', [], {'\n'});
    AtoiIntToDec(n);
    assert buf[7] == '=';
  }

  /**
   * Read-back of a generated whitelist with at least one entry: as written the count is
   * 64 whatever the header says (the header is never the last line read); corrected it
   * is the header's count. Either way the recorded line is the first entry with its
   * newline.
   */
  lemma ReadBackGenerated(n: int, entries: seq<string>, fixed: bool)
    requires |entries| >= 1 && |entries[0]| < 31
    requires forall j :: 0 <= j < |entries| ==> NoEq(entries[j])
    ensures GetMacAddrFromResvList(Some([Header(n)] + entries), fixed) ==
              Success(ResvInfo(if fixed then n else DefSupportCnt, entries[0] + "\n"))
  {
    var lines := [Header(n)] + entries;
    var bufs := Buffers(lines);
    var rec := entries[0] + "\n";
    var c1 := if fixed then n else DefSupportCnt;
    BuffersAt(lines, 0);
    BuffersAt(lines, 1);
    assert ReadLoop(bufs, 0, 0, "", fixed) == ReadLoop(bufs, 1, n, "", fixed) by {
      HeaderCount(n, 0);
    }
    assert ReadLoop(bufs, 1, n, "", fixed) == ReadLoop(bufs, 2, c1, rec, fixed) by {
      assert NoEq(entries[0]);
      EntryBuffer(entries[0], n);
    }
    assert ReadLoop(bufs, 2, c1, rec, fixed) == ResvInfo(c1, rec) by {
      if |bufs| > 2 {
        forall j | 2 <= j < |bufs|
          ensures exists e :: bufs[j] == e + "\n" && NoEq(e)
        {
          BuffersAt(lines, j);
          assert lines[j] == entries[j - 1];
        }
        ReadLoopEntries(bufs, 2, c1, rec, fixed);
      }
    }
    assert RecordedLine(lines) == rec by {
      EntryBuffer(entries[0], n);
    }
  }

  /** Each line of a file of several lines is read with its newline. */
  lemma BuffersAt(lines: seq<string>, j: nat)
    requires 1 < |lines| && j < |lines|
    ensures |Buffers(lines)| == |lines| && Buffers(lines)[j] == lines[j] + "\n"
  {
  }

  /** A whitelist holding only its header records "sup_mac"; as written its count reads back as 64. */
  lemma ReadBackHeaderOnly(n: int, fixed: bool)
    ensures GetMacAddrFromResvList(Some([Header(n)]), fixed) ==
              Success(ResvInfo(if fixed then n else DefSupportCnt, "sup_mac"))
  {
    var buf := Header(n) + "\n";
    var bufs := Buffers([Header(n)]);
    assert bufs == [buf, "sup_mac"] by {
      assert buf == "sup_mac=" + (IntToDec(n) + "\n");
      HeaderBuffer(IntToDec(n) + "\n", n);
    }
    assert ReadLoop(bufs, 0, 0, "", fixed) == ReadLoop(bufs, 1, n, "", fixed) by {
      HeaderCount(n, 0);
    }
    assert ReadLoop(bufs, 1, n, "", fixed) == ReadLoop(bufs, 2, if fixed then n else DefSupportCnt, "sup_mac", fixed) by {
      HeaderBuffer([], n);
    }
  }

  /** A formatted address holds no '='. */
  lemma FormattedNoEq(o: Octets)
    ensures NoEq(FormatMac(o)) && |FormatMac(o)| == 17
  {
    FormatParse(o);
    forall k | 0 <= k < 17
      ensures FormatMac(o)[k] != '='
    {
      assert PatternAt(FormatMac(o)[k], k);
    }
  }

  /**
   * Read-back of a whitelist the generator completed with at least one entry: the
   * recorded line is the first entry, the base's own octets; the count is 64 as written
   * and the sup_mac value the header holds when corrected.
   */
  lemma GeneratedReadBackValue(b: BaseText, sup: Popen, res: Popen, fixed: bool)
    requires res.Output? && GenResevMacTable(b, sup, res).code == Ok
    requires |GenResevMacTable(b, sup, res).lines| >= 2
    ensures GetMacAddrFromResvList(Some(GenResevMacTable(b, sup, res).lines), fixed) ==
              Success(ResvInfo(if fixed then GetRunTimeVal(SupMac, sup).value else DefSupportCnt,
                               FormatMac(TokOctets(b)) + "\n"))
  {
    var lines := GenResevMacTable(b, sup, res).lines;
    var entries := lines[1..];
    assert lines == [Header(GetRunTimeVal(SupMac, sup).value)] + entries;
    GeneratedEntries(b, sup, res);
    assert entries[0] == lines[1] == FormatMac(TokOctets(b));
    ReadBackGenerated(GetRunTimeVal(SupMac, sup).value, entries, fixed);
  }

  lemma GeneratedEntries(b: BaseText, sup: Popen, res: Popen)
    requires res.Output? && GenResevMacTable(b, sup, res).code == Ok
    ensures var lines := GenResevMacTable(b, sup, res).lines;
            forall j :: 1 <= j < |lines| ==> NoEq(lines[j]) && |lines[j]| == 17
  {
    var lines := GenResevMacTable(b, sup, res).lines;
    var c := StartCounter(TokOctets(b));
    forall j | 1 <= j < |lines|
      ensures NoEq(lines[j]) && |lines[j]| == 17
    {
      assert lines[(j - 1) + 1] == FormatMac(IncN(c, j - 1).value.addr);
      FormattedNoEq(IncN(c, j - 1).value.addr);
    }
  }

  /** Whatever the settings, a whitelist the generator completed reads back without error. */
  lemma GeneratedReadsBack(b: BaseText, sup: Popen, res: Popen, fixed: bool)
    requires res.Output? && GenResevMacTable(b, sup, res).code == Ok
    ensures GetMacAddrFromResvList(Some(GenResevMacTable(b, sup, res).lines), fixed).Success?
  {
    var lines := GenResevMacTable(b, sup, res).lines;
    if |lines| == 1 {
      assert lines == [Header(GetRunTimeVal(SupMac, sup).value)];
      ReadBackHeaderOnly(GetRunTimeVal(SupMac, sup).value, fixed);
    } else {
      GeneratedReadBackValue(b, sup, res, fixed);
    }
  }

  // ---------------------------------------------------------------- the whitelist check

  predicate AnyLineMatches(mac: string, lines: seq<string>, i: nat)
    requires i <= |lines|
    decreases |lines| - i
  {
    i < |lines| && (CaseEqN(mac, lines[i] + "\n", 17) || AnyLineMatches(mac, lines, i + 1))
  }

  lemma {:induction false} AnyLineMatchesIff(mac: string, lines: seq<string>, i: nat)
    requires i <= |lines|
    ensures AnyLineMatches(mac, lines, i) <==> exists j :: i <= j < |lines| && CaseEqN(mac, lines[j] + "\n", 17)
    decreases |lines| - i
  {
    if i < |lines| {
      AnyLineMatchesIff(mac, lines, i + 1);
    }
  }

  /**
   * scapi_validateLimit / scapi_validate6gLimit: true for EXIT_SUCCESS, false for
   * EDQUOTA. Private addresses always pass; a global one must equal, ignoring case,
   * the first 17 characters of some line of the whitelist, which must exist.
   */
  function ValidateLimit(mac: string, global: bool, file: Option<seq<string>>): (ok: bool)
    ensures !global ==> ok
    ensures global ==> (ok <==> file.Some? && exists j :: 0 <= j < |file.value| && CaseEqN(mac, file.value[j] + "\n", 17))
  {
    if !global then true
    else if file.None? then false
    else
      AnyLineMatchesIff(mac, file.value, 0);
      AnyLineMatches(mac, file.value, 0)
  }

  /** Any well-formed spelling of a whitelist entry, whatever its letter case, passes the check. */
  lemma EntryWithinLimit(mac: string, lines: seq<string>, j: nat)
    requires j < |lines| && |mac| == 17 && NulFree(mac) && |lines[j]| >= 17
    requires forall k :: 0 <= k < 17 ==> ToLower(mac[k]) == ToLower(lines[j][k])
    ensures ValidateLimit(mac, true, Some(lines))
  {
    CaseEqNPrefix(mac, lines[j] + "\n", 17, 0);
  }

  /** A header line never admits a MAC text: 's' is not a hex digit. */
  lemma HeaderNeverMatches(mac: string, n: int)
    requires WellFormedMac(mac)
    ensures !CaseEqN(mac, Header(n) + "\n", 17)
  {
    assert PatternAt(mac[0], 0);
    assert (Header(n) + "\n")[0] == 's';
  }

  // ---------------------------------------------------------------- reserved addresses

  /** scapi_getReserevdMac's outputs: code, the reserved count it stored (if it got that far) and the list. */
  datatype Reserved = Reserved(code: Code, resCnt: Option<int>, macs: seq<string>)

  /**
   * scapi_getReserevdMac: the res_mac addresses that follow the last whitelist entry.
   * Without a reserved count it fails before storing one; otherwise see ReservedFor.
   */
  function GetReservedMac(sup: Popen, res: Popen, base: Option<BaseText>): (r: Reserved)
    ensures r.code == Ok || r.code == GenericFailure
    ensures r.resCnt.None? <==> res.PopenFailed?
    ensures res.PopenFailed? ==> r.code == GenericFailure
    ensures res.Output? ==>
              r == ReservedFor(GetRunTimeVal(SupMac, sup).value, GetRunTimeVal(ResMac, res).value, base)
  {
    match GetRunTimeVal(ResMac, res)
    case Failure(_) => Reserved(GenericFailure, None, [])
    case Success(resN) => ReservedFor(GetRunTimeVal(SupMac, sup).value, resN, base)
  }

  /**
   * scapi_getReserevdMac once both settings are known: the reserved addresses are counted
   * with scapi_incMacAddr from the unadjusted base, after the whitelist's entries. Any
   * failure is -EXIT_FAILURE; a negative reserved count makes the allocation fail; an
   * out-of-range step of the counter (undefined in C) is reported as a failure here.
   */
  function ReservedFor(supN: int, resN: int, base: Option<BaseText>): (r: Reserved)
    ensures r.code == Ok || r.code == GenericFailure
    ensures r.resCnt == Some(resN)
    ensures r.code == Ok <==>
              base.Some? && supN - resN <= MaxCnt && resN >= 0 &&
              IncN(StartCounter(TokOctets(base.value)), Skip(supN - resN) + resN).Some?
    ensures r.code == Ok ==> |r.macs| == resN
    ensures r.code == Ok ==>
              var skip := Skip(supN - resN);
              forall j :: skip < j <= skip + |r.macs| ==>
                IncN(StartCounter(TokOctets(base.value)), j).Some? &&
                r.macs[j - skip - 1] == FormatMac(IncN(StartCounter(TokOctets(base.value)), j).value.addr)
  {
    if base.None? || supN - resN > MaxCnt || resN < 0 then Reserved(GenericFailure, Some(resN), [])
    else
      match ReservedFrom(StartCounter(TokOctets(base.value)), Skip(supN - resN), resN)
      case None => Reserved(GenericFailure, Some(resN), [])
      case Some(macs) => Reserved(Ok, Some(resN), macs)
  }

  /** The steps taken before the reserved list: one fewer than the whitelist's entry count, if positive. */
  function Skip(n: int): nat {
    if n > 1 then n - 1 else 0
  }

  /** k addresses formatted after skip steps and one more step each; None if a step is undefined. */
  function ReservedFrom(c: Counter, skip: nat, k: nat): (r: Option<seq<string>>)
    ensures r.None? <==> IncN(c, skip + k).None?
    ensures r.Some? ==> |r.value| == k
    ensures r.Some? ==> forall j :: skip < j <= skip + k ==>
              IncN(c, j).Some? && r.value[j - skip - 1] == FormatMac(IncN(c, j).value.addr)
  {
    match IncN(c, skip)
    case None =>
      IncNStaysUndefined(c, skip, k);
      None
    case Some(c0) =>
      IncNSplit(c, skip, k);
      var f := Following(c0, k);
      if f.None? then None
      else
        ReservedAt(c, skip, k, f.value);
        f
  }

  /** k addresses, each formatted after one more step of the counter; None if a step is undefined. */
  function Following(c: Counter, k: nat): (r: Option<seq<string>>)
    decreases k
    ensures r.None? <==> IncN(c, k).None?
    ensures r.Some? ==> |r.value| == k
    ensures r.Some? ==> forall i :: 1 <= i <= k ==>
              IncN(c, i).Some? && r.value[i - 1] == FormatMac(IncN(c, i).value.addr)
  {
    if k == 0 then Some([])
    else match IncStep(c)
      case None => None
      case Some(c') =>
        match Following(c', k - 1)
        case None => None
        case Some(rest) => Some([FormatMac(c'.addr)] + rest)
  }

  lemma {:induction false} IncNStaysUndefined(c: Counter, j: nat, k: nat)
    requires IncN(c, j).None?
    ensures IncN(c, j + k).None?
    decreases j
  {
    if j > 0 && IncStep(c).Some? {
      IncNStaysUndefined(IncStep(c).value, j - 1, k);
    }
  }

  lemma ReservedAt(c: Counter, skip: nat, k: nat, macs: seq<string>)
    requires IncN(c, skip).Some?
    requires |macs| == k
    requires forall i :: 1 <= i <= k ==>
               IncN(IncN(c, skip).value, i).Some? && macs[i - 1] == FormatMac(IncN(IncN(c, skip).value, i).value.addr)
    ensures forall j :: skip < j <= skip + k ==>
              IncN(c, j).Some? && macs[j - skip - 1] == FormatMac(IncN(c, j).value.addr)
  {
    forall j | skip < j <= skip + k
      ensures IncN(c, j).Some? && macs[j - skip - 1] == FormatMac(IncN(c, j).value.addr)
    {
      IncNSplit(c, skip, j - skip);
      assert macs[(j - skip) - 1] == FormatMac(IncN(IncN(c, skip).value, j - skip).value.addr);
    }
  }

  /**
   * The reserved list continues the whitelist: with the same base text and settings, the
   * whitelist entries followed by the reserved addresses are consecutive counter states.
   */
  lemma ReservedFollowsWhitelist(b: BaseText, sup: Popen, res: Popen)
    requires GenResevMacTable(b, sup, res).code == Ok
    requires GetReservedMac(sup, res, Some(b)).code == Ok
    requires |GenResevMacTable(b, sup, res).lines| >= 2
    ensures var all := GenResevMacTable(b, sup, res).lines[1..] + GetReservedMac(sup, res, Some(b)).macs;
            forall i :: 0 <= i < |all| ==>
              IncN(StartCounter(TokOctets(b)), i).Some? &&
              all[i] == FormatMac(IncN(StartCounter(TokOctets(b)), i).value.addr)
  {
    var lines := GenResevMacTable(b, sup, res).lines;
    var macs := GetReservedMac(sup, res, Some(b)).macs;
    var c := StartCounter(TokOctets(b));
    var n := |lines| - 1;
    assert n == GetRunTimeVal(SupMac, sup).value - GetRunTimeVal(ResMac, res).value;
    var all := lines[1..] + macs;
    forall i | 0 <= i < |all|
      ensures IncN(c, i).Some? && all[i] == FormatMac(IncN(c, i).value.addr)
    {
      if i < n {
        assert all[i] == lines[i + 1];
        assert (i + 1) - 1 == i;
      } else {
        assert all[i] == macs[i - n];
        assert Skip(n) + 1 + (i - n) == i;
      }
    }
  }
}
