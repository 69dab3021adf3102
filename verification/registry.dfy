/**
 * The interface registry ("nextmac.conf"): one line "<ifname>> <mac>" per interface
 * that was given an address. Lookup of an interface's line, removal of an
 * interface's lines, and the exchange of two WAN interfaces' addresses.
 *
 * A file is its sequence of lines without their newlines. Where C searches the
 * fgets buffer, which still ends in '\n', the model searches line + "\n".
 */
module Registry {
  import opened Wrappers
  import opened CString
  import opened Codes

  /** SCAPI_MAC_LEN: the size of the buffers sprintf_s writes the key and the address into. */
  const MacBufLen: nat := 32

  /** Separators of the lookup's strtok: the key's '>' and the blank before the address. */
  const EntrySeps: set<char> := {'>', ' '}

  /**
   * Outcome of scapi_getMacFromFile: the address text; no line for the interface;
   * a line with nothing after the key (ERR_INPUT_VALIDATION_FAILED); a name too long
   * for the key buffer; an address too long for the output buffer (which sprintf_s
   * then empties). The last two return EXIT_FAILURE, which callers treat as "not found".
   */
  datatype Lookup = Found(mac: string) | NotFound | ParseFailed | KeyOverflow | MacOverflow

  /** "%s>": the key that keeps "eth0" from matching the line of "eth0_1". */
  function Key(ifname: string): string {
    ifname + ">"
  }

  /** The first line at or after i that contains pat. */
  function FirstWith(lines: seq<string>, pat: string, i: nat): (r: Option<nat>)
    requires i <= |lines|
    decreases |lines| - i
    ensures r.Some? ==> i <= r.value < |lines| && Contains(lines[r.value], pat)
    ensures r.Some? ==> forall k :: i <= k < r.value ==> !Contains(lines[k], pat)
    ensures r.None? ==> forall k :: i <= k < |lines| ==> !Contains(lines[k], pat)
  {
    if i == |lines| then None
    else if Contains(lines[i], pat) then Some(i)
    else FirstWith(lines, pat, i + 1)
  }

  /** The two strtok calls on the text from the key on: the second token is the address. */
  function ParseEntry(found: string): (r: Lookup)
    ensures r.Found? || r.ParseFailed? || r.MacOverflow?
    ensures r.Found? ==> 0 < |r.mac| < MacBufLen && forall k :: 0 <= k < |r.mac| ==> r.mac[k] !in EntrySeps
  {
    match StrTok(found, EntrySeps)
    case None => ParseFailed
    case Some(t1) =>
      match StrTok(t1.rest, EntrySeps)
      case None => ParseFailed
      case Some(t2) => if |t2.token| < MacBufLen then Found(t2.token) else MacOverflow
  }

  /**
   * scapi_getMacFromFile (and scapi_get6gMacFromFile, which differs only in the file):
   * the first line containing "<ifname>>", parsed from the key on.
   */
  function GetMacFromFile(lines: seq<string>, ifname: string): (r: Lookup)
    ensures r.KeyOverflow? <==> |ifname| + 1 >= MacBufLen
    ensures r.NotFound? <==>
              |ifname| + 1 < MacBufLen && forall k :: 0 <= k < |lines| ==> !Contains(lines[k], Key(ifname))
    ensures r.Found? ==> 0 < |r.mac| < MacBufLen && forall k :: 0 <= k < |r.mac| ==> r.mac[k] !in EntrySeps
    ensures r.Found? || r.ParseFailed? || r.MacOverflow? ==>
              exists j :: 0 <= j < |lines| && Contains(lines[j], Key(ifname))
  {
    if |ifname| + 1 >= MacBufLen then KeyOverflow
    else
      match FirstWith(lines, Key(ifname), 0)
      case None => NotFound
      case Some(j) =>
        var line := lines[j];
        ParseEntry(line[IndexOf(line, Key(ifname)).value..])
  }

  /** Names and addresses as the allocator writes them: non-empty and free of the separators. */
  predicate Plain(s: string) {
    |s| > 0 && forall k :: 0 <= k < |s| ==> s[k] !in EntrySeps
  }

  /** The line the allocator appends for an interface. */
  function EntryLine(ifname: string, mac: string): string {
    ifname + "> " + mac
  }

  /**
   * Lookup finds what the allocator wrote: for the first line mentioning the key, an
   * entry "<ifname>> <mac>" gives back mac.
   */
  lemma LookupEntry(lines: seq<string>, j: nat, ifname: string, mac: string)
    requires j < |lines| && lines[j] == EntryLine(ifname, mac)
    requires forall k :: 0 <= k < j ==> !Contains(lines[k], Key(ifname))
    requires Plain(ifname) && Plain(mac)
    requires |ifname| + 1 < MacBufLen && |mac| < MacBufLen
    ensures GetMacFromFile(lines, ifname) == Found(mac)
  {
    var line := lines[j];
    assert line == Key(ifname) + (" " + mac);
    assert MatchAt(line, Key(ifname), 0);
    ContainsIff(line, Key(ifname));
    assert FirstWith(lines, Key(ifname), 0) == Some(j) by {
      FirstWithIs(lines, Key(ifname), 0, j);
    }
    assert IndexOf(line, Key(ifname)) == Some(0);
    assert line[0..] == ifname + ['>'] + (" " + mac);
    StrTokDelimited(ifname, '>', " " + mac, EntrySeps);
    StrTokLeading(" ", mac, EntrySeps);
  }

  lemma {:induction false} FirstWithIs(lines: seq<string>, pat: string, i: nat, j: nat)
    requires i <= j < |lines| && Contains(lines[j], pat)
    requires forall k :: i <= k < j ==> !Contains(lines[k], pat)
    ensures FirstWith(lines, pat, i) == Some(j)
    decreases j - i
  {
    if i < j {
      FirstWithIs(lines, pat, i + 1, j);
    }
  }

  /** The key guards against a longer name that starts with ifname ... */
  lemma KeySkipsLongerName()
    ensures GetMacFromFile(["eth0_1> 00:11:22:33:44:55"], "eth0") == NotFound
  {
    var line := "eth0_1> 00:11:22:33:44:55";
    var key := Key("eth0");
    assert key == "eth0>";
    assert forall i :: 0 <= i < |line| && i != 6 ==> line[i] != '>';
    forall k: nat
      ensures !MatchAt(line, key, k)
    {
      if k + 5 <= |line| {
        if k == 2 {
          NoMatchAt(line, key, k, 0);
        } else {
          NoMatchAt(line, key, k, 4);
        }
      }
    }
    ContainsIff(line, key);
  }

  /** ... but not against a longer name that ends with it: "veth0"'s address is returned for "eth0". */
  lemma KeyMatchesNameSuffix(mac: string)
    requires Plain(mac) && |mac| < MacBufLen
    ensures GetMacFromFile(["veth0> " + mac], "eth0") == Found(mac)
  {
    assert "veth0> " + mac == ['v'] + EntryLine("eth0", mac) by {
      assert "veth0> " == ['v'] + "eth0" + "> ";
    }
    assert Plain("eth0");
    NameSuffixMatches('v', "eth0", mac);
  }

  /** The entry of any interface whose name is ifname with one more character in front is ifname's. */
  lemma NameSuffixMatches(c: char, ifname: string, mac: string)
    requires Plain(ifname) && Plain(mac) && |ifname| + 1 < MacBufLen && |mac| < MacBufLen
    ensures GetMacFromFile([[c] + EntryLine(ifname, mac)], ifname) == Found(mac)
  {
    var line := [c] + EntryLine(ifname, mac);
    var key := Key(ifname);
    assert IndexOf(line, key) == Some(1) by {
      assert line[1..1 + |key|] == key;
      assert line[|ifname|] == ifname[|ifname| - 1] && key[|ifname|] == '>';
      NoMatchAt(line, key, 0, |ifname|);
      assert IndexOfFrom(line, key, 0) == IndexOfFrom(line, key, 1);
    }
    LookupAfter([c], ifname, mac);
  }

  /**
   * A line that holds another interface's entry text before the key: where the key is
   * first found, the address after it is returned.
   */
  lemma LookupAfter(p: string, ifname: string, mac: string)
    requires Plain(ifname) && Plain(mac) && |ifname| + 1 < MacBufLen && |mac| < MacBufLen
    requires IndexOf(p + EntryLine(ifname, mac), Key(ifname)) == Some(|p|)
    ensures GetMacFromFile([p + EntryLine(ifname, mac)], ifname) == Found(mac)
  {
    var line := p + EntryLine(ifname, mac);
    assert FirstWith([line], Key(ifname), 0) == Some(0);
    assert line[|p|..] == ifname + ['>'] + (" " + mac);
    StrTokDelimited(ifname, '>', " " + mac, EntrySeps);
    StrTokLeading(" ", mac, EntrySeps);
  }

  // ---------------------------------------------------------------- removal

  /** The registry and the temporary file it is rebuilt in; None is an absent file. */
  datatype RegFiles = RegFiles(next: Option<seq<string>>, temp: Option<seq<string>>)

  datatype FileOp = FileOp(code: Code, files: RegFiles)

  /** The lines whose fgets buffer does not mention name, in order. */
  function Kept(lines: seq<string>, name: string): (r: seq<string>)
    ensures |r| <= |lines|
    ensures forall k :: 0 <= k < |r| ==> r[k] in lines && !Contains(r[k] + "\n", name)
  {
    if |lines| == 0 then []
    else (if Contains(lines[0] + "\n", name) then [] else [lines[0]]) + Kept(lines[1..], name)
  }

  /** Kept is a filter: it distributes over concatenation ... */
  lemma {:induction false} KeptAppend(a: seq<string>, b: seq<string>, name: string)
    ensures Kept(a + b, name) == Kept(a, name) + Kept(b, name)
    decreases |a|
  {
    if |a| > 0 {
      assert (a + b)[1..] == a[1..] + b;
      KeptAppend(a[1..], b, name);
    } else {
      assert a + b == b;
    }
  }

  /** ... and keeps exactly the lines that do not mention name. */
  lemma KeptOne(l: string, name: string)
    ensures Kept([l], name) == if Contains(l + "\n", name) then [] else [l]
  {
    assert [l][1..] == [];
  }

  /**
   * scapi_removeNextMacaddr: copy the registry without the lines mentioning ifname,
   * appending to the temporary file (opened "a+", so created if absent), then rename
   * it over the registry. The rename is attempted even after a failed open; it needs
   * the temporary file to exist. Opening the registry needs it to exist; the
   * temporary file's open and the rename may also fail for reasons outside the model.
   */
  function RemoveNextMacaddr(fs: RegFiles, ifname: string, tempOpens: bool, renames: bool): (r: FileOp)
    ensures r.code == Ok <==> fs.next.Some? && tempOpens && renames
    ensures r.code == Ok ==> r.files == RegFiles(Some(fs.temp.GetOr([]) + Kept(fs.next.value, ifname)), None)
    ensures r.code != Ok ==> r.code == InputValidationFailed || r.code == FileOperFailed
    ensures !renames || (!tempOpens && fs.temp.None?) ==>
              r.code == FileOperFailed && r.files.next == fs.next
    ensures fs.next.None? && renames && (tempOpens || fs.temp.Some?) ==>
              r == FileOp(InputValidationFailed, RegFiles(Some(fs.temp.GetOr([])), None))
  {
    var temp1 := if tempOpens then Some(fs.temp.GetOr([])) else fs.temp;
    var copied := fs.next.Some? && tempOpens;
    var temp2 := if copied then Some(temp1.value + Kept(fs.next.value, ifname)) else temp1;
    var code := if copied then Ok else InputValidationFailed;
    if renames && temp2.Some? then FileOp(code, RegFiles(temp2, None))
    else FileOp(FileOperFailed, RegFiles(fs.next, temp2))
  }

  /** After a successful removal (with no stale temporary file) the interface has no entry. */
  lemma RemoveForgets(fs: RegFiles, ifname: string)
    requires fs.temp.None?
    requires RemoveNextMacaddr(fs, ifname, true, true).code == Ok
    ensures var next := RemoveNextMacaddr(fs, ifname, true, true).files.next.value;
            GetMacFromFile(next, ifname).NotFound? || GetMacFromFile(next, ifname).KeyOverflow?
  {
    var next := RemoveNextMacaddr(fs, ifname, true, true).files.next.value;
    assert next == Kept(fs.next.value, ifname);
    forall k | 0 <= k < |next|
      ensures !Contains(next[k], Key(ifname))
    {
      KeyMentionsName(next[k], ifname);
    }
  }

  /** A line holding the key mentions the name. */
  lemma KeyMentionsName(l: string, ifname: string)
    ensures Contains(l, Key(ifname)) ==> Contains(l + "\n", ifname)
  {
    if Contains(l, Key(ifname)) {
      ContainsPatPrefix(l, ifname, ">");
      ContainsInfix([], l, "\n", ifname);
      assert [] + l + "\n" == l + "\n";
    }
  }

  // ---------------------------------------------------------------- swapping two WAN interfaces

  /** Lines of these MAC-VLAN interfaces are copied unchanged whatever names they mention. */
  predicate MacVlanLine(buf: string) {
    Contains(buf, "eth1_wan") || Contains(buf, "ptm0_wan")
  }

  /**
   * The address captured from an fgets buffer: strtok at "> ", then at "\n" from where
   * that stopped. It keeps the blank after '>'. A missing token prints as "".
   */
  function Capture(buf: string): string {
    match StrTok(buf, EntrySeps)
    case None => ""
    case Some(t1) =>
      match StrTok(t1.rest, {'\n'})
      case None => ""
      case Some(t2) => t2.token
  }

  /** What the swap loop has gathered: the lines it copies and the two captured addresses. */
  datatype SwapAcc = SwapAcc(kept: seq<string>, macNew: string, macOld: string)

  /** One line of the swap loop; a line mentioning both names counts as the new WAN's. */
  function SwapLine(acc: SwapAcc, line: string, newWan: string, oldWan: string): SwapAcc {
    var buf := line + "\n";
    if MacVlanLine(buf) then acc.(kept := acc.kept + [line])
    else if Contains(buf, newWan) then acc.(macNew := Capture(buf))
    else if Contains(buf, oldWan) then acc.(macOld := Capture(buf))
    else acc.(kept := acc.kept + [line])
  }

  function SwapScan(lines: seq<string>, newWan: string, oldWan: string, acc: SwapAcc): SwapAcc
    decreases |lines|
  {
    if |lines| == 0 then acc
    else SwapScan(lines[1..], newWan, oldWan, SwapLine(acc, lines[0], newWan, oldWan))
  }

  /**
   * scapi_swapNextMacaddr: rewrite the registry (through the temporary file, opened
   * "w") so that each of the two WAN interfaces carries the other's address. Their old
   * lines are dropped, the others copied, and "<new>><old's address>" and
   * "<old>><new's address>" appended. An address never captured is uninitialised in C
   * and is "" here. The rename is attempted only after a complete copy.
   */
  function SwapNextMacaddr(fs: RegFiles, newWan: string, oldWan: string, tempOpens: bool, renames: bool): (r: FileOp)
    ensures r.code == Ok <==> fs.next.Some? && tempOpens && renames
    ensures r.code != Ok ==> r.files.next == fs.next
    ensures fs.next.None? || !tempOpens ==> r.code == InputValidationFailed
    ensures fs.next.Some? && tempOpens && !renames ==> r.code == FileOperFailed
    ensures r.code == Ok ==> r.files.temp.None? && r.files.next.Some? && |r.files.next.value| >= 2
  {
    var temp1 := if tempOpens then Some([]) else fs.temp;
    if fs.next.None? || !tempOpens then FileOp(InputValidationFailed, RegFiles(fs.next, temp1))
    else
      var out := SwapOutput(fs.next.value, newWan, oldWan);
      if renames then FileOp(Ok, RegFiles(Some(out), None))
      else FileOp(FileOperFailed, RegFiles(fs.next, Some(out)))
  }

  /** The lines the swap writes to the temporary file. */
  function SwapOutput(lines: seq<string>, newWan: string, oldWan: string): (out: seq<string>)
    ensures |out| >= 2
  {
    var acc := SwapScan(lines, newWan, oldWan, SwapAcc([], "", ""));
    acc.kept + [newWan + ">" + acc.macOld, oldWan + ">" + acc.macNew]
  }

  lemma {:induction false} SwapScanUntouched(lines: seq<string>, newWan: string, oldWan: string, acc: SwapAcc)
    requires forall k :: 0 <= k < |lines| ==>
               !Contains(lines[k] + "\n", newWan) && !Contains(lines[k] + "\n", oldWan)
    ensures SwapScan(lines, newWan, oldWan, acc) == acc.(kept := acc.kept + lines)
    decreases |lines|
  {
    if |lines| > 0 {
      var acc' := SwapLine(acc, lines[0], newWan, oldWan);
      assert acc' == acc.(kept := acc.kept + [lines[0]]);
      SwapScanUntouched(lines[1..], newWan, oldWan, acc');
      assert acc.kept + [lines[0]] + lines[1..] == acc.kept + lines;
    } else {
      assert acc.kept + lines == acc.kept;
    }
  }

  /** Lines of the MAC-VLAN interfaces are copied in order whatever the two names are. */
  lemma {:induction false} MacVlanLinesCopied(lines: seq<string>, newWan: string, oldWan: string, acc: SwapAcc)
    requires forall k :: 0 <= k < |lines| ==> MacVlanLine(lines[k] + "\n")
    ensures SwapScan(lines, newWan, oldWan, acc) == acc.(kept := acc.kept + lines)
    decreases |lines|
  {
    if |lines| > 0 {
      var acc' := SwapLine(acc, lines[0], newWan, oldWan);
      assert acc' == acc.(kept := acc.kept + [lines[0]]);
      MacVlanLinesCopied(lines[1..], newWan, oldWan, acc');
      assert acc.kept + [lines[0]] + lines[1..] == acc.kept + lines;
    } else {
      assert acc.kept + lines == acc.kept;
    }
  }

  lemma SwapScanSplit(a: seq<string>, b: seq<string>, newWan: string, oldWan: string, acc: SwapAcc)
    ensures SwapScan(a + b, newWan, oldWan, acc) == SwapScan(b, newWan, oldWan, SwapScan(a, newWan, oldWan, acc))
    decreases |a|
  {
    if |a| > 0 {
      assert (a + b)[1..] == a[1..] + b;
      SwapScanSplit(a[1..], b, newWan, oldWan, SwapLine(acc, a[0], newWan, oldWan));
    } else {
      assert a + b == b;
    }
  }

  /** The address captured from an entry line: a blank followed by the address. */
  lemma CaptureEntry(ifname: string, mac: string)
    requires Plain(ifname) && |mac| > 0 && forall k :: 0 <= k < |mac| ==> mac[k] != '\n'
    ensures Capture(EntryLine(ifname, mac) + "\n") == " " + mac
  {
    var buf := EntryLine(ifname, mac) + "\n";
    assert buf == ifname + ['>'] + (" " + mac + "\n");
    StrTokDelimited(ifname, '>', " " + mac + "\n", EntrySeps);
    var rest := " " + mac + "\n";
    assert rest == (" " + mac) + ['\n'] + [];
    StrTokDelimited(" " + mac, '\n', [], {'\n'});
  }

  /** An entry's buffer mentions its own name. */
  lemma EntryMentionsName(ifname: string, mac: string)
    ensures Contains(EntryLine(ifname, mac) + "\n", ifname)
  {
    ContainsSelf(ifname);
    ContainsInfix([], ifname, "> " + mac + "\n", ifname);
    assert [] + ifname + ("> " + mac + "\n") == EntryLine(ifname, mac) + "\n";
  }

  lemma SwapLineNew(acc: SwapAcc, line: string, newWan: string, oldWan: string)
    requires !MacVlanLine(line + "\n") && Contains(line + "\n", newWan)
    ensures SwapLine(acc, line, newWan, oldWan) == acc.(macNew := Capture(line + "\n"))
  {
  }

  lemma SwapLineOld(acc: SwapAcc, line: string, newWan: string, oldWan: string)
    requires !MacVlanLine(line + "\n") && !Contains(line + "\n", newWan) && Contains(line + "\n", oldWan)
    ensures SwapLine(acc, line, newWan, oldWan) == acc.(macOld := Capture(line + "\n"))
  {
  }

  lemma SwapScanTwo(l1: string, l2: string, newWan: string, oldWan: string, acc: SwapAcc)
    ensures SwapScan([l1, l2], newWan, oldWan, acc) ==
            SwapLine(SwapLine(acc, l1, newWan, oldWan), l2, newWan, oldWan)
  {
    var a1 := SwapLine(acc, l1, newWan, oldWan);
    assert [l1, l2][1..] == [l2];
    assert SwapScan([l1, l2], newWan, oldWan, acc) == SwapScan([l2], newWan, oldWan, a1);
    assert [l2][1..] == [];
    assert SwapScan([l2], newWan, oldWan, a1) == SwapScan([], newWan, oldWan, SwapLine(a1, l2, newWan, oldWan));
  }

  /** The loop over the two entry lines captures both addresses and copies neither line. */
  lemma SwapEntries(kept: seq<string>, newWan: string, oldWan: string, m1: string, m2: string)
    requires Plain(newWan) && Plain(oldWan) && Plain(m1) && Plain(m2)
    requires forall k :: 0 <= k < |m1| ==> m1[k] != '\n'
    requires forall k :: 0 <= k < |m2| ==> m2[k] != '\n'
    requires !MacVlanLine(EntryLine(newWan, m1) + "\n") && !MacVlanLine(EntryLine(oldWan, m2) + "\n")
    requires !Contains(EntryLine(oldWan, m2) + "\n", newWan)
    ensures SwapScan([EntryLine(newWan, m1), EntryLine(oldWan, m2)], newWan, oldWan, SwapAcc(kept, "", "")) ==
            SwapAcc(kept, " " + m1, " " + m2)
  {
    var l1, l2 := EntryLine(newWan, m1), EntryLine(oldWan, m2);
    var acc := SwapAcc(kept, "", "");
    EntryMentionsName(newWan, m1);
    EntryMentionsName(oldWan, m2);
    CaptureEntry(newWan, m1);
    CaptureEntry(oldWan, m2);
    SwapScanTwo(l1, l2, newWan, oldWan, acc);
    SwapLineNew(acc, l1, newWan, oldWan);
    SwapLineOld(acc.(macNew := " " + m1), l2, newWan, oldWan);
  }

  /**
   * The swap exchanges the two addresses: from a registry whose last two lines are the
   * entries of the new and the old WAN interface (and whose other lines mention
   * neither), the result holds the other lines unchanged and then the two entries with
   * their addresses exchanged.
   */
  lemma SwapExchanges(others: seq<string>, newWan: string, oldWan: string, m1: string, m2: string)
    requires Plain(newWan) && Plain(oldWan) && Plain(m1) && Plain(m2)
    requires forall k :: 0 <= k < |m1| ==> m1[k] != '\n'
    requires forall k :: 0 <= k < |m2| ==> m2[k] != '\n'
    requires forall k :: 0 <= k < |others| ==>
               !Contains(others[k] + "\n", newWan) && !Contains(others[k] + "\n", oldWan)
    requires !MacVlanLine(EntryLine(newWan, m1) + "\n") && !MacVlanLine(EntryLine(oldWan, m2) + "\n")
    requires !Contains(EntryLine(oldWan, m2) + "\n", newWan)
    ensures SwapNextMacaddr(RegFiles(Some(others + [EntryLine(newWan, m1), EntryLine(oldWan, m2)]), None),
                            newWan, oldWan, true, true) ==
            FileOp(Ok, RegFiles(Some(others + [EntryLine(newWan, m2), EntryLine(oldWan, m1)]), None))
  {
    SwapOutputExchanges(others, newWan, oldWan, m1, m2);
  }

  lemma SwapOutputExchanges(others: seq<string>, newWan: string, oldWan: string, m1: string, m2: string)
    requires Plain(newWan) && Plain(oldWan) && Plain(m1) && Plain(m2)
    requires forall k :: 0 <= k < |m1| ==> m1[k] != '\n'
    requires forall k :: 0 <= k < |m2| ==> m2[k] != '\n'
    requires forall k :: 0 <= k < |others| ==>
               !Contains(others[k] + "\n", newWan) && !Contains(others[k] + "\n", oldWan)
    requires !MacVlanLine(EntryLine(newWan, m1) + "\n") && !MacVlanLine(EntryLine(oldWan, m2) + "\n")
    requires !Contains(EntryLine(oldWan, m2) + "\n", newWan)
    ensures SwapOutput(others + [EntryLine(newWan, m1), EntryLine(oldWan, m2)], newWan, oldWan) ==
            others + [EntryLine(newWan, m2), EntryLine(oldWan, m1)]
  {
    var lines := others + [EntryLine(newWan, m1), EntryLine(oldWan, m2)];
    SwapScanExchanges(others, newWan, oldWan, m1, m2);
    var acc := SwapScan(lines, newWan, oldWan, SwapAcc([], "", ""));
    assert acc == SwapAcc(others, " " + m1, " " + m2);
    KeyThenValue(newWan, m2);
    KeyThenValue(oldWan, m1);
  }

  /** "%s>%s" with the saved " <mac>" rebuilds the entry line. */
  lemma KeyThenValue(name: string, mac: string)
    ensures name + ">" + (" " + mac) == EntryLine(name, mac)
  {
    assert ">" + (" " + mac) == "> " + mac;
  }

  lemma SwapScanExchanges(others: seq<string>, newWan: string, oldWan: string, m1: string, m2: string)
    requires Plain(newWan) && Plain(oldWan) && Plain(m1) && Plain(m2)
    requires forall k :: 0 <= k < |m1| ==> m1[k] != '\n'
    requires forall k :: 0 <= k < |m2| ==> m2[k] != '\n'
    requires forall k :: 0 <= k < |others| ==>
               !Contains(others[k] + "\n", newWan) && !Contains(others[k] + "\n", oldWan)
    requires !MacVlanLine(EntryLine(newWan, m1) + "\n") && !MacVlanLine(EntryLine(oldWan, m2) + "\n")
    requires !Contains(EntryLine(oldWan, m2) + "\n", newWan)
    ensures SwapScan(others + [EntryLine(newWan, m1), EntryLine(oldWan, m2)], newWan, oldWan, SwapAcc([], "", "")) ==
            SwapAcc(others, " " + m1, " " + m2)
  {
    var l1, l2 := EntryLine(newWan, m1), EntryLine(oldWan, m2);
    var acc0 := SwapAcc([], "", "");
    SwapScanSplit(others, [l1, l2], newWan, oldWan, acc0);
    SwapScanUntouched(others, newWan, oldWan, acc0);
    assert SwapScan(others, newWan, oldWan, acc0) == SwapAcc(others, "", "") by {
      assert [] + others == others;
    }
    SwapEntries(others, newWan, oldWan, m1, m2);
  }
}
