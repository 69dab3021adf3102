/**
 * The interface-configuration reader (scapi_getInterfaceList): blocks between a line
 * holding '{' and a line holding '}', each line "key=value" with an optional '#'
 * comment, read into one record per block, values normalised as they are read.
 *
 * The key names and the ONLY_LAN / ONLY_WAN / BOTH flag values come from a header
 * that is not part of this model: the names are a parameter, the flags a datatype.
 * File lines are given without their newline.
 */
module IfaceList {
  import opened Wrappers
  import opened CString

  // ---------------------------------------------------------------- values and their defaults

  /** E_ParameterType: the values scapi_validateParameterList normalises. */
  datatype Param = MacvLanParam | ProtosParam | ModeParam | PortParam | EnableParam
                 | LinkEnableParam | BondParam | BondMembersParam

  /** gaDefaultConfigStr. */
  function Default(p: Param): string {
    match p
    case MacvLanParam => "false"
    case ProtosParam => "Static,DHCP, PPPoE,Bridge"
    case ModeParam => "ETH"
    case PortParam => "0"
    case EnableParam => "false"
    case LinkEnableParam => "false"
    case BondParam => "false"
    case BondMembersParam => "eth1 nrgmii3"
  }

  /** The switch-like values: anything but "true" in some letter case reads as "false". */
  predicate BoolParam(p: Param) {
    p.MacvLanParam? || p.EnableParam? || p.LinkEnableParam? || p.BondParam?
  }

  predicate NamesProtocol(v: string) {
    Contains(v, "Static") || Contains(v, "DHCP") || Contains(v, "PPPoE")
  }

  /** The values each parameter keeps unchanged. */
  predicate Accepted(p: Param, v: string) {
    match p
    case ProtosParam => NamesProtocol(v)
    case ModeParam => true
    case PortParam => Atoi(v) > 0 || v == "0"
    case BondMembersParam => v != []
    case _ => CaseEq(v, "true") || v == "false"
  }

  /**
   * scapi_validateParameterList: a value the parameter does not accept is replaced by
   * its default ("false" for the switch-like ones); every replacement is accepted.
   */
  function ValidateParameter(p: Param, v: string): (r: string)
    ensures Accepted(p, r)
    ensures Accepted(p, v) ==> r == v
    ensures r != v ==> r == Default(p)
    ensures BoolParam(p) ==> (r == v <==> CaseEq(v, "true") || v == "false")
  {
    match p
    case MacvLanParam => if CaseEq(v, "true") then v else DefaultAccepted(p); Default(p)
    case ProtosParam => if NamesProtocol(v) then v else DefaultAccepted(p); Default(p)
    case ModeParam => v
    case PortParam => if Atoi(v) <= 0 then DefaultAccepted(p); Default(p) else v
    case EnableParam => if CaseEq(v, "true") then v else DefaultAccepted(p); "false"
    case LinkEnableParam => if CaseEq(v, "true") then v else DefaultAccepted(p); "false"
    case BondParam => if CaseEq(v, "true") then v else DefaultAccepted(p); "false"
    case BondMembersParam => if v == [] then DefaultAccepted(p); Default(p) else v
  }

  /** Every default is a value its parameter accepts. */
  lemma DefaultAccepted(p: Param)
    ensures Accepted(p, Default(p))
  {
    match p
    case ProtosParam =>
      assert MatchAt(Default(p), "Static", 0);
      ContainsIff(Default(p), "Static");
    case _ =>
  }

  /** Normalisation is idempotent: what it returns, it keeps. */
  lemma ValidateIdempotent(p: Param, v: string)
    ensures ValidateParameter(p, ValidateParameter(p, v)) == ValidateParameter(p, v)
  {
  }

  // ---------------------------------------------------------------- one configuration line

  /** The fields of IfaceCfg_t, in the order the reader tries their keys. */
  datatype Field = TypeField | IfNameField | MacvLanField | ProtosField | ModeField
                 | PortField | EnableField | LinkEnableField | BondMembersField

  /** The CONFIG_FILE_* key names. */
  datatype KeyNames = KeyNames(typ: string, ifName: string, macvLan: string, protos: string, mode: string,
                               port: string, enable: string, linkEnable: string, bondMembers: string)

  function NameOf(k: KeyNames, f: Field): string {
    match f
    case TypeField => k.typ
    case IfNameField => k.ifName
    case MacvLanField => k.macvLan
    case ProtosField => k.protos
    case ModeField => k.mode
    case PortField => k.port
    case EnableField => k.enable
    case LinkEnableField => k.linkEnable
    case BondMembersField => k.bondMembers
  }

  const FieldOrder: seq<Field> := [TypeField, IfNameField, MacvLanField, ProtosField, ModeField,
                                   PortField, EnableField, LinkEnableField, BondMembersField]

  /** Where a field stands in FieldOrder. */
  function Pos(f: Field): (r: nat)
    ensures r < |FieldOrder| && FieldOrder[r] == f
  {
    match f
    case TypeField => 0
    case IfNameField => 1
    case MacvLanField => 2
    case ProtosField => 3
    case ModeField => 4
    case PortField => 5
    case EnableField => 6
    case LinkEnableField => 7
    case BondMembersField => 8
  }

  /**
   * strncmp(line, NAME, e) == 0 with e the position of '=': the text before '=' need
   * only be a prefix of the name, so an empty key or an abbreviation matches.
   */
  predicate KeyMatches(key: string, name: string) {
    key <= name
  }

  /** The first field, from index i of FieldOrder on, whose name the key matches. */
  function MatchKey(k: KeyNames, key: string, i: nat): (r: Option<Field>)
    requires i <= |FieldOrder|
    decreases |FieldOrder| - i
    ensures r.Some? ==> i <= Pos(r.value) && KeyMatches(key, NameOf(k, r.value)) &&
                          forall j :: i <= j < Pos(r.value) ==> !KeyMatches(key, NameOf(k, FieldOrder[j]))
    ensures r.None? <==> forall j :: i <= j < |FieldOrder| ==> !KeyMatches(key, NameOf(k, FieldOrder[j]))
  {
    if i == |FieldOrder| then None
    else if KeyMatches(key, NameOf(k, FieldOrder[i])) then Some(FieldOrder[i])
    else MatchKey(k, key, i + 1)
  }

  /** A line "=value" sets the interface type, whatever the key names are. */
  lemma EmptyKeyIsType(k: KeyNames)
    ensures MatchKey(k, [], 0) == Some(TypeField)
  {
  }

  /** The characters deleted from each line before it is read. */
  predicate Deleted(c: char) {
    c == '\t' || c == '\r' || c == '\U{000B}'
  }

  /** The line with tabs, carriage returns and vertical tabs removed. */
  function Strip(line: string): (r: string)
    ensures |r| <= |line|
  {
    if line == [] then []
    else
      var rest := Strip(line[1..]);
      if Deleted(line[0]) then rest else [line[0]] + rest
  }

  /**
   * Stripping removes exactly the deleted characters: none is left, every other one
   * is kept as often as it occurs, and a line without any is kept as it is.
   */
  lemma StripSpec(line: string)
    ensures var r := Strip(line);
            && (forall k :: 0 <= k < |r| ==> !Deleted(r[k]))
            && (forall c :: !Deleted(c) ==> multiset(r)[c] == multiset(line)[c])
            && ((forall k :: 0 <= k < |line| ==> !Deleted(line[k])) ==> r == line)
  {
    StripRemoves(line);
    StripCounts(line);
    StripKeeps(line);
  }

  lemma {:induction false} StripRemoves(line: string)
    ensures forall k :: 0 <= k < |Strip(line)| ==> !Deleted(Strip(line)[k])
  {
    if line != [] {
      StripRemoves(line[1..]);
    }
  }

  lemma {:induction false} StripCounts(line: string)
    ensures forall c :: !Deleted(c) ==> multiset(Strip(line))[c] == multiset(line)[c]
  {
    if line != [] {
      StripCounts(line[1..]);
      assert line == [line[0]] + line[1..];
      assert multiset(line) == multiset([line[0]]) + multiset(line[1..]);
    }
  }

  lemma {:induction false} StripKeeps(line: string)
    ensures (forall k :: 0 <= k < |line| ==> !Deleted(line[k])) ==> Strip(line) == line
  {
    if line != [] && forall k :: 0 <= k < |line| ==> !Deleted(line[k]) {
      assert forall k :: 0 <= k < |line[1..]| ==> !Deleted(line[1..][k]);
      StripKeeps(line[1..]);
      assert line == [line[0]] + line[1..];
    }
  }

  /** valueString's size: a longer value does not fit strncpy_s and leaves the buffer empty. */
  const ValueBufLen: nat := 50

  function FitValue(v: string): (r: string)
    ensures r == v || r == []
    ensures r == v <==> |v| < ValueBufLen || v == []
  {
    if |v| < ValueBufLen then v else []
  }

  /** What one line inside a block does: nothing, set a field, or end the read. */
  datatype LineEffect = Ignored | Assign(field: Field, value: string) | Abort

  /**
   * A line inside a block. A line that strips to nothing is copied back with
   * sprintf_s, which writes no character and so reports failure: as written the read
   * ends there, the corrected reader skips the line. Otherwise a line without '=' is
   * ignored; so is a line whose first '#' comes before the first '=' or right after
   * it, and one whose key matches no name. Without a '#' the value is the rest of the
   * line. With a later '#', the code as written copies the rest of the line with
   * sprintf_s into a buffer sized to end at the '#': the copy overflows, and the read
   * ends there; the corrected reader takes the text up to the '#'.
   */
  function ParseLine(k: KeyNames, raw: string, fixed: bool): (r: LineEffect)
    ensures r.Abort? ==> !fixed
    ensures Strip(raw) == [] ==> (r.Abort? <==> !fixed) && !r.Assign?
    ensures Strip(raw) != [] && !Contains(Strip(raw), "=") ==> r.Ignored?
    ensures r.Assign? ==> |r.value| < ValueBufLen && !Contains(r.value, "#")
  {
    var s := Strip(raw);
    if s == [] then (if fixed then Ignored else Abort)
    else
    match IndexOf(s, "=")
    case None => Ignored
    case Some(e) =>
      var h := IndexOf(s, "#");
      if h.Some? && (h.value < e || h.value == e + 1) then Ignored
      else
        match MatchKey(k, s[..e], 0)
        case None => Ignored
        case Some(f) =>
          if h.Some? then
            if fixed then Assign(f, FitValue(NoHash(s, e + 1, h.value))) else Abort
          else Assign(f, FitValue(NoHashRest(s, e + 1)))
  }

  /** The text between '=' and the first '#' holds no '#'. */
  function NoHash(s: string, i: nat, h: nat): (r: string)
    requires i <= h <= |s| && IndexOf(s, "#") == Some(h)
    ensures r == s[i..h] && !Contains(r, "#")
  {
    NoHashBefore(s, i, h);
    s[i..h]
  }

  /** The rest of a line without '#' holds none either. */
  function NoHashRest(s: string, i: nat): (r: string)
    requires i <= |s| && IndexOf(s, "#").None?
    ensures r == s[i..] && !Contains(r, "#")
  {
    NoHashBefore(s, i, |s|);
    assert s[i..|s|] == s[i..];
    s[i..]
  }

  /** A part of s that ends before the first '#' of s holds none. */
  lemma NoHashBefore(s: string, i: nat, h: nat)
    requires i <= h <= |s|
    requires forall k: nat :: k < h ==> !MatchAt(s, "#", k)
    ensures !Contains(s[i..h], "#")
  {
    var r := s[i..h];
    forall k: nat | k < |r|
      ensures !MatchAt(r, "#", k)
    {
      assert !MatchAt(s, "#", i + k);
      assert r[k..k + 1] == [r[k]] && s[i + k..i + k + 1] == [s[i + k]] && r[k] == s[i + k];
    }
    ContainsIff(r, "#");
  }

  // ---------------------------------------------------------------- the record of a block

  datatype IfaceCfg = IfaceCfg(typ: string, ifName: string, macvLan: string, protos: string, mode: string,
                               port: string, enable: string, linkEnable: string, bondMembers: string)

  /** Every normalised field of the record holds a value its parameter accepts. */
  predicate Normalised(c: IfaceCfg) {
    Accepted(MacvLanParam, c.macvLan) && Accepted(ProtosParam, c.protos) && Accepted(PortParam, c.port) &&
    Accepted(EnableParam, c.enable) && Accepted(LinkEnableParam, c.linkEnable) &&
    Accepted(BondMembersParam, c.bondMembers)
  }

  /**
   * scapi_fillDefaultStruct: every field but the type and the name gets its default;
   * the result is normalised.
   */
  function FillDefaults(c: IfaceCfg): (r: IfaceCfg)
    ensures r.typ == c.typ && r.ifName == c.ifName && Normalised(r)
    ensures r.mode == Default(ModeParam)
  {
    DefaultAccepted(MacvLanParam);
    DefaultAccepted(ProtosParam);
    DefaultAccepted(PortParam);
    DefaultAccepted(EnableParam);
    DefaultAccepted(BondMembersParam);
    c.(macvLan := Default(MacvLanParam), protos := Default(ProtosParam), mode := Default(ModeParam),
       port := Default(PortParam), enable := Default(EnableParam), linkEnable := Default(LinkEnableParam),
       bondMembers := Default(BondMembersParam))
  }

  /**
   * The reader's state: the record being filled, the type and name update flags
   * (never reset between blocks), and whether the wanted name was seen.
   */
  datatype Reader = Reader(cfg: IfaceCfg, typeSet: bool, nameSet: bool, nameMatch: bool)

  predicate IsWanOrLan(v: string) {
    CaseEq(v, "WAN") || CaseEq(v, "LAN")
  }

  /** What the flags promise about the record. */
  predicate FlagsHold(st: Reader) {
    Normalised(st.cfg) &&
    (st.typeSet ==> IsWanOrLan(st.cfg.typ)) &&
    (st.nameSet ==> st.cfg.ifName != [])
  }

  /**
   * One assignment. A type must be WAN or LAN in some letter case, a name non-empty,
   * else the flag is cleared and the field kept; an empty protos, mode or port keeps
   * the field; the other values are normalised, empty or not. A name equal to the
   * wanted one sets the match.
   */
  function Assign1(st: Reader, f: Field, v: string, want: Option<string>): (r: Reader)
    requires FlagsHold(st)
    ensures FlagsHold(r)
    ensures r.nameMatch <==> st.nameMatch || (f.IfNameField? && v != [] && want == Some(v))
    ensures f.TypeField? ==> (r.typeSet <==> v != [] && IsWanOrLan(v)) && r.cfg.ifName == st.cfg.ifName
    ensures f.IfNameField? ==> r.nameSet == (v != []) && r.cfg.typ == st.cfg.typ
    ensures !f.TypeField? && !f.IfNameField? ==>
              r.typeSet == st.typeSet && r.nameSet == st.nameSet &&
              r.cfg.typ == st.cfg.typ && r.cfg.ifName == st.cfg.ifName
  {
    var c := st.cfg;
    match f
    case TypeField =>
      if v != [] && IsWanOrLan(v) then st.(cfg := c.(typ := v), typeSet := true) else st.(typeSet := false)
    case IfNameField =>
      if v != [] then st.(cfg := c.(ifName := v), nameSet := true, nameMatch := st.nameMatch || want == Some(v))
      else st.(nameSet := false)
    case MacvLanField => st.(cfg := c.(macvLan := ValidateParameter(MacvLanParam, v)))
    case ProtosField => if v != [] then st.(cfg := c.(protos := ValidateParameter(ProtosParam, v))) else st
    case ModeField => if v != [] then st.(cfg := c.(mode := v)) else st
    case PortField => if v != [] then st.(cfg := c.(port := ValidateParameter(PortParam, v))) else st
    case EnableField => st.(cfg := c.(enable := ValidateParameter(EnableParam, v)))
    case LinkEnableField => st.(cfg := c.(linkEnable := ValidateParameter(LinkEnableParam, v)))
    case BondMembersField => st.(cfg := c.(bondMembers := ValidateParameter(BondMembersParam, v)))
  }

  // ---------------------------------------------------------------- the whole file

  /** The flags argument: ONLY_LAN_INTERFACE, ONLY_WAN_INTERFACE, BOTH_INTERFACES, or another value. */
  datatype Scope = OnlyLan | OnlyWan | BothIfaces | OtherFlags

  /**
   * The filter at the end of a block: without a wanted name, the scope decides, by a
   * case-sensitive comparison of the type; with one, the match does.
   */
  predicate Selected(st: Reader, scope: Scope, want: Option<string>) {
    if want.None? then
      (scope.OnlyLan? && st.cfg.typ == "LAN") || (scope.OnlyWan? && st.cfg.typ == "WAN") || scope.BothIfaces?
    else st.nameMatch
  }

  /** How a read ends: UGW_SUCCESS, or UGW_FAILURE when the file cannot be opened. */
  datatype Status = ReadOk | OpenFailed

  datatype ListResult = ListResult(status: Status, records: seq<IfaceCfg>)

  /** What every listed record satisfies, for a read with the given scope and wanted name. */
  predicate Listed(c: IfaceCfg, scope: Scope, want: Option<string>) {
    Normalised(c) && IsWanOrLan(c.typ) && c.ifName != [] &&
    (want.None? && scope.OnlyLan? ==> c.typ == "LAN") &&
    (want.None? && scope.OnlyWan? ==> c.typ == "WAN")
  }

  predicate AllListed(rs: seq<IfaceCfg>, scope: Scope, want: Option<string>) {
    forall j :: 0 <= j < |rs| ==> Listed(rs[j], scope, want)
  }

  /**
   * The end of a block: the record is listed when the filter selects it and both the
   * type and the name flags are set.
   */
  function CloseBlock(st: Reader, acc: seq<IfaceCfg>, scope: Scope, want: Option<string>): (r: seq<IfaceCfg>)
    requires FlagsHold(st)
    ensures r == acc || r == acc + [st.cfg]
    ensures r != acc ==> Listed(st.cfg, scope, want) && (want.Some? ==> st.nameMatch)
    ensures r != acc <==> Selected(st, scope, want) && st.nameSet && st.typeSet
    ensures AllListed(acc, scope, want) ==> AllListed(r, scope, want)
  {
    if Selected(st, scope, want) && st.nameSet && st.typeSet then acc + [st.cfg] else acc
  }

  /**
   * The read loop from line i, outside a block (inBlock false: lines until one holding
   * '{' are skipped) or inside one (lines until one holding '}' are read). At the end
   * of a block the record is listed or not (CloseBlock), then reset, and the read
   * stops when the wanted name was seen. An aborted line ends the read with the
   * records listed so far.
   */
  function ReadFrom(k: KeyNames, lines: seq<string>, i: nat, inBlock: bool, st: Reader, acc: seq<IfaceCfg>,
                    scope: Scope, want: Option<string>, fixed: bool): (r: seq<IfaceCfg>)
    requires i <= |lines| && FlagsHold(st)
    requires want.Some? ==> acc == []
    requires AllListed(acc, scope, want)
    decreases |lines| - i, if inBlock then 1 else 0
    ensures acc <= r
    ensures AllListed(r, scope, want)
    ensures want.Some? ==> |r| <= 1
    ensures scope.OtherFlags? && want.None? ==> r == acc
  {
    if !inBlock then
      if i == |lines| then acc
      else ReadFrom(k, lines, i + 1, Contains(lines[i], "{"), st, acc, scope, want, fixed)
    else if i == |lines| || Contains(lines[i], "}") then
      var acc' := CloseBlock(st, acc, scope, want);
      if st.nameMatch then acc'
      else ReadFrom(k, lines, if i == |lines| then i else i + 1, false, st.(cfg := FillDefaults(st.cfg)), acc',
                    scope, want, fixed)
    else
      var e := ParseLine(k, lines[i], fixed);
      if e.Abort? then acc
      else ReadFrom(k, lines, i + 1, true, if e.Assign? then Assign1(st, e.field, e.value, want) else st, acc,
                    scope, want, fixed)
  }

  /** The record scapi_getInterfaceList starts from: empty type and name, defaults elsewhere. */
  function Initial(): (r: Reader)
    ensures FlagsHold(r) && !r.typeSet && !r.nameSet && !r.nameMatch
  {
    Reader(FillDefaults(IfaceCfg([], [], [], [], [], [], [], [], [])), false, false, false)
  }

  /**
   * scapi_getInterfaceList over the file's lines (None when it cannot be opened). Every
   * record listed is normalised, has a non-empty name and a type that is WAN or LAN
   * in some letter case, and matches the scope exactly; a wanted name lists at most
   * one record.
   */
  function GetInterfaceList(k: KeyNames, file: Option<seq<string>>, scope: Scope, want: Option<string>,
                            fixed: bool): (r: ListResult)
    ensures r.status == OpenFailed <==> file.None?
    ensures r.status == OpenFailed ==> r.records == []
    ensures forall j :: 0 <= j < |r.records| ==> Listed(r.records[j], scope, want)
    ensures want.Some? ==> |r.records| <= 1
    ensures scope.OtherFlags? && want.None? ==> r.records == []
  {
    match file
    case None => ListResult(OpenFailed, [])
    case Some(lines) => ListResult(ReadOk, ReadFrom(k, lines, 0, false, Initial(), [], scope, want, fixed))
  }

  // ---------------------------------------------------------------- properties

  /** Text that holds none of the characters the reader looks for. */
  predicate Bare(s: string) {
    forall k :: 0 <= k < |s| ==> s[k] != '=' && s[k] != '#' && s[k] != '}' && !Deleted(s[k])
  }

  /** What Bare text is not. */
  lemma BareFacts(s: string)
    requires Bare(s)
    ensures '=' !in s && '#' !in s && '}' !in s && Strip(s) == s
  {
    StripSpec(s);
  }

  /** strstr for one character finds its first occurrence. */
  lemma FirstCharIndex(s: string, c: char, i: nat)
    requires i < |s| && s[i] == c && forall k :: 0 <= k < i ==> s[k] != c
    ensures IndexOf(s, [c]) == Some(i)
  {
    assert s[i..i + 1] == [c];
    assert MatchAt(s, [c], i);
    forall k: nat | k < i
      ensures !MatchAt(s, [c], k)
    {
      assert s[k..k + 1] == [s[k]];
    }
  }

  lemma NoChar(s: string, c: char)
    requires forall k :: 0 <= k < |s| ==> s[k] != c
    ensures !Contains(s, [c])
  {
    forall k: nat | k < |s|
      ensures !MatchAt(s, [c], k)
    {
      assert s[k..k + 1] == [s[k]];
    }
    ContainsIff(s, [c]);
  }

  /** A '#' before the first '=' or right after it makes the line a comment. */
  lemma CommentLine(k: KeyNames, raw: string, fixed: bool, e: nat, h: nat)
    requires IndexOf(Strip(raw), "=") == Some(e) && IndexOf(Strip(raw), "#") == Some(h)
    requires h < e || h == e + 1
    ensures ParseLine(k, raw, fixed) == Ignored
  {
  }

  /** The characters of "key=value#comment", located. */
  lemma CommentedLineChars(key: string, value: string, comment: string)
    requires Bare(key) && Bare(value) && Bare(comment)
    ensures var line := key + "=" + value + "#" + comment;
            var e, h := |key|, |key| + 1 + |value|;
            h < |line| && line[e] == '=' && line[h] == '#' && line[..e] == key && line[e + 1..h] == value &&
            (forall j :: 0 <= j < |line| ==> !Deleted(line[j]) && line[j] != '}') &&
            (forall j :: 0 <= j < e ==> line[j] != '=') &&
            (forall j :: 0 <= j < h ==> line[j] != '#')
  {
    var line := key + "=" + value + "#" + comment;
    var e, h := |key|, |key| + 1 + |value|;
    forall j | 0 <= j < |line|
      ensures !Deleted(line[j]) && line[j] != '}'
      ensures j < e ==> line[j] != '='
      ensures j < h ==> line[j] != '#'
    {
      if j < e {
        assert line[j] == key[j];
      } else if j == e {
      } else if j < h {
        assert line[j] == value[j - e - 1];
      } else if j > h {
        assert line[j] == comment[j - h - 1];
      }
    }
    assert line[..e] == key;
    assert line[e + 1..h] == value;
  }

  /**
   * "key=value#comment" with a known key: the code as written ends the read at this
   * line; the corrected reader takes the value up to the '#'.
   */
  lemma CommentedValue(k: KeyNames, key: string, value: string, comment: string, fixed: bool)
    requires Bare(key) && Bare(value) && Bare(comment) && value != []
    requires MatchKey(k, key, 0).Some?
    ensures ParseLine(k, key + "=" + value + "#" + comment, fixed) ==
              if fixed then Assign(MatchKey(k, key, 0).value, FitValue(value)) else Abort
  {
    CommentedShape(key, value, comment);
    ParseCommented(k, key + "=" + value + "#" + comment, |key|, |key| + 1 + |value|, key, value, fixed);
  }

  /** Where the '=' and the first '#' of "key=value#comment" are, and what stripping leaves. */
  lemma CommentedShape(key: string, value: string, comment: string)
    requires Bare(key) && Bare(value) && Bare(comment)
    ensures var line := key + "=" + value + "#" + comment;
            && Strip(line) == line
            && IndexOf(line, "=") == Some(|key|)
            && IndexOf(line, "#") == Some(|key| + 1 + |value|)
            && line[..|key|] == key
            && line[|key| + 1..|key| + 1 + |value|] == value
  {
    BareFacts(key);
    BareFacts(value);
    BareFacts(comment);
    StripShape(key, value, comment);
    IndexShape(key, value, comment);
    Parts(key, "=", value + "#" + comment);
    Parts(key + "=", value, "#" + comment);
  }

  lemma StripShape(key: string, value: string, comment: string)
    requires Strip(key) == key && Strip(value) == value && Strip(comment) == comment
    ensures Strip(key + "=" + value + "#" + comment) == key + "=" + value + "#" + comment
  {
    StripOne('=');
    StripOne('#');
    StripAppend(key, "=");
    StripAppend(key + "=", value);
    StripAppend(key + "=" + value, "#");
    StripAppend(key + "=" + value + "#", comment);
  }

  lemma IndexShape(key: string, value: string, comment: string)
    requires '=' !in key && '#' !in key && '#' !in value
    ensures IndexOf(key + "=" + value + "#" + comment, "=") == Some(|key|)
    ensures IndexOf(key + "=" + value + "#" + comment, "#") == Some(|key| + 1 + |value|)
  {
    var line := key + "=" + value + "#" + comment;
    assert line == key + "=" + (value + "#" + comment);
    IndexOfChar(key, '=', value + "#" + comment);
    IndexOfChar(key + "=" + value, '#', comment);
  }

  /** A kept character is its own stripping. */
  lemma StripOne(c: char)
    requires !Deleted(c)
    ensures Strip([c]) == [c]
  {
    StripCons(c, []);
    assert [c] + [] == [c];
  }

  /** The first two parts of a three-part concatenation, as slices. */
  lemma Parts(a: string, b: string, c: string)
    ensures (a + b + c)[..|a|] == a && (a + b + c)[|a|..|a| + |b|] == b
  {
  }

  /** A kept character stays in front. */
  lemma StripCons(c: char, s: string)
    requires !Deleted(c)
    ensures Strip([c] + s) == [c] + Strip(s)
  {
    assert ([c] + s)[0] == c && ([c] + s)[1..] == s;
  }

  /** Stripping works piecewise. */
  lemma {:induction false} StripAppend(a: string, b: string)
    ensures Strip(a + b) == Strip(a) + Strip(b)
  {
    if a != [] {
      assert (a + b)[0] == a[0] && (a + b)[1..] == a[1..] + b;
      StripAppend(a[1..], b);
    } else {
      assert a + b == b;
    }
  }

  /** The first c of a + [c] + b, when a holds none, is at |a|. */
  lemma IndexOfChar(a: string, c: char, b: string)
    requires c !in a
    ensures IndexOf(a + [c] + b, [c]) == Some(|a|)
  {
    var s := a + [c] + b;
    assert forall k :: 0 <= k < |a| ==> s[k] == a[k];
    FirstCharIndex(s, c, |a|);
  }

  /** ParseLine of a stripped line whose '=' comes before its first '#', with a value between. */
  lemma ParseCommented(k: KeyNames, s: string, e: nat, h: nat, key: string, value: string, fixed: bool)
    requires Strip(s) == s && IndexOf(s, "=") == Some(e) && IndexOf(s, "#") == Some(h)
    requires e + 1 < h <= |s| && s[..e] == key && s[e + 1..h] == value && MatchKey(k, key, 0).Some?
    ensures ParseLine(k, s, fixed) ==
              if fixed then Assign(MatchKey(k, key, 0).value, FitValue(value)) else Abort
  {
  }

  /** As written, a commented value ends the read: a block that begins with one lists nothing. */
  lemma CommentEndsRead(k: KeyNames, key: string, value: string, comment: string, rest: seq<string>,
                        scope: Scope, want: Option<string>)
    requires Bare(key) && Bare(value) && Bare(comment) && value != []
    requires MatchKey(k, key, 0).Some?
    ensures GetInterfaceList(k, Some(["{", key + "=" + value + "#" + comment] + rest), scope, want, false) ==
              ListResult(ReadOk, [])
  {
    var line := key + "=" + value + "#" + comment;
    var lines := ["{", line] + rest;
    assert MatchAt("{", "{", 0);
    ContainsIff("{", "{");
    CommentedLineChars(key, value, comment);
    NoChar(line, '}');
    CommentedValue(k, key, value, comment, false);
    assert ReadFrom(k, lines, 0, false, Initial(), [], scope, want, false) ==
           ReadFrom(k, lines, 1, true, Initial(), [], scope, want, false);
  }

  /** A line of tabs, carriage returns and vertical tabs only: it holds no '}'. */
  lemma BlankFacts(blank: string)
    requires Strip(blank) == []
    ensures !Contains(blank, "}")
  {
    StripCounts(blank);
    assert multiset(Strip(blank))['}'] == 0;
    forall j | 0 <= j < |blank|
      ensures blank[j] != '}'
    {
      assert blank[j] in multiset(blank);
    }
    NoChar(blank, '}');
  }

  /**
   * As written, a line inside a block that strips to nothing ends the read: the block
   * it stands in is never listed, and neither is anything after it.
   */
  lemma BlankLineEndsRead(k: KeyNames, lines: seq<string>, i: nat, st: Reader, acc: seq<IfaceCfg>,
                          scope: Scope, want: Option<string>)
    requires i < |lines| && Strip(lines[i]) == []
    requires FlagsHold(st) && (want.Some? ==> acc == []) && AllListed(acc, scope, want)
    ensures ReadFrom(k, lines, i, true, st, acc, scope, want, false) == acc
  {
    BlankFacts(lines[i]);
  }

  /** As written, a file whose first block opens with a blank line lists nothing. */
  lemma BlankFirstLineListsNothing(k: KeyNames, blank: string, rest: seq<string>, scope: Scope,
                                   want: Option<string>)
    requires Strip(blank) == []
    ensures GetInterfaceList(k, Some(["{", blank] + rest), scope, want, false) == ListResult(ReadOk, [])
  {
    var lines := ["{", blank] + rest;
    assert MatchAt("{", "{", 0);
    ContainsIff("{", "{");
    assert ReadFrom(k, lines, 0, false, Initial(), [], scope, want, false) ==
           ReadFrom(k, lines, 1, true, Initial(), [], scope, want, false);
    BlankLineEndsRead(k, lines, 1, Initial(), [], scope, want);
  }

  /**
   * Corrected, a line inside a block that strips to nothing is skipped: the read goes
   * on from the next line with the record and the list unchanged.
   */
  lemma BlankLineSkipped(k: KeyNames, lines: seq<string>, i: nat, st: Reader, acc: seq<IfaceCfg>,
                         scope: Scope, want: Option<string>)
    requires i < |lines| && Strip(lines[i]) == []
    requires FlagsHold(st) && (want.Some? ==> acc == []) && AllListed(acc, scope, want)
    ensures ReadFrom(k, lines, i, true, st, acc, scope, want, true) ==
            ReadFrom(k, lines, i + 1, true, st, acc, scope, want, true)
  {
    BlankFacts(lines[i]);
  }

  /** Corrected, the commented value is read as the text before the '#'. */
  lemma CommentedValueRead(k: KeyNames, key: string, value: string, comment: string)
    requires Bare(key) && Bare(value) && Bare(comment) && value != [] && |value| < ValueBufLen
    requires MatchKey(k, key, 0).Some?
    ensures ParseLine(k, key + "=" + value + "#" + comment, true) == Assign(MatchKey(k, key, 0).value, value)
  {
    CommentedValue(k, key, value, comment, true);
  }

  /**
   * The type is accepted in any letter case but filtered case-sensitively: "lan" sets
   * the type, yet ONLY_LAN_INTERFACE does not select the block.
   */
  lemma LowerCaseLanFiltered(st: Reader)
    requires FlagsHold(st)
    ensures var r := Assign1(st, TypeField, "lan", None);
            r.typeSet && r.cfg.typ == "lan" && !Selected(r, OnlyLan, None)
  {
    assert CaseEq("lan", "LAN");
  }

  /**
   * The flags outlive the block: once a block set both, an empty block that follows is
   * listed again with the same type and name.
   */
  lemma EmptyBlockRepeats(k: KeyNames, st: Reader, acc: seq<IfaceCfg>, fixed: bool)
    requires FlagsHold(st) && st.typeSet && st.nameSet && !st.nameMatch && AllListed(acc, BothIfaces, None)
    ensures ReadFrom(k, ["{", "}"], 0, false, st, acc, BothIfaces, None, fixed) == acc + [st.cfg]
  {
    assert MatchAt("{", "{", 0) && MatchAt("}", "}", 0);
    ContainsIff("{", "{");
    ContainsIff("}", "}");
  }
}
