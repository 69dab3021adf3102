/**
 * The procd front end (scapi_procdSpawn.c): a service description becomes one
 * "ubus call service set|delete '{...}'" command line, which is then spawned.
 *
 * The spawn itself is not modelled: its return value and the child's exit status are
 * parameters. The sizes of the command buffers come from a header that is not part of
 * this model; the builder is modelled as if every piece fits.
 */
module Procd {
  import opened Wrappers
  import opened CString

  /** EXIT_SUCCESS and -EXIT_FAILURE. */
  const ExitSuccess: int := 0
  const ExitFailure: int := -1

  /** A respawn, nice-free or list field that was never set. */
  const Unset: int := -1

  /** One node of a ProcdParamList: a name and a value. */
  datatype ProcdParam = ProcdParam(name: string, value: string)

  /**
   * ProcdObj: the service name, the command line, the respawn switch and its three
   * values, the nice value, the configuration file, the network device, and the env,
   * limits, data and trigger lists (None for a NULL list pointer).
   */
  datatype ProcdObj = ProcdObj(serviceName: string, command: string,
                               respawn: bool, threshold: int, timeout: int, retry: int,
                               nice: int, confFile: string, netdev: string,
                               env: Option<seq<ProcdParam>>, limits: Option<seq<ProcdParam>>,
                               data: Option<seq<ProcdParam>>, triggers: Option<seq<ProcdParam>>)

  /** scapi_initializeProcdObj: everything zero or empty, the three respawn values -1. */
  function InitializeProcdObj(): ProcdObj {
    ProcdObj([], [], false, Unset, Unset, Unset, 0, [], [], None, None, None, None)
  }

  // ---------------------------------------------------------------- text helpers

  function Quote(s: string): string {
    "\"" + s + "\""
  }

  function Quoted(items: seq<string>): (r: seq<string>)
    ensures |r| == |items| && forall i :: 0 <= i < |items| ==> r[i] == Quote(items[i])
  {
    if items == [] then [] else [Quote(items[0])] + Quoted(items[1..])
  }

  /** The items separated by sep: the reference form of the command's arrays and tables. */
  function Join(items: seq<string>, sep: string): string {
    if |items| == 0 then []
    else if |items| == 1 then items[0]
    else items[0] + sep + Join(items[1..], sep)
  }

  /** The items each followed by ',': how the code writes an array before trimming it. */
  function Acc(items: seq<string>): string {
    if items == [] then [] else items[0] + "," + Acc(items[1..])
  }

  /** The trailing-comma removal the code applies after each array or table. */
  function TrimComma(s: string): (r: string)
    ensures |s| > 0 && s[|s| - 1] == ',' ==> r + "," == s
    ensures !(|s| > 0 && s[|s| - 1] == ',') ==> r == s
  {
    if |s| > 0 && s[|s| - 1] == ',' then s[..|s| - 1] else s
  }

  /** Items written with a comma each end in one comma more than their join. */
  lemma {:induction false} AccJoin(items: seq<string>)
    requires items != []
    ensures Acc(items) == Join(items, ",") + ","
  {
    if |items| > 1 {
      AccJoin(items[1..]);
    }
  }

  /** Trimming the comma of p + Acc(items) leaves p followed by the join, when p does not end in ','. */
  lemma TrimAcc(p: string, items: seq<string>)
    requires p == [] || p[|p| - 1] != ','
    ensures TrimComma(p + Acc(items)) == p + Join(items, ",")
  {
    if items == [] {
      assert p + Acc(items) == p;
    } else {
      AccJoin(items);
      assert p + Acc(items) == (p + Join(items, ",")) + ",";
    }
  }

  /** A last item written without its comma completes the join. */
  lemma {:induction false} AccLast(items: seq<string>, last: string)
    ensures Acc(items) + last == Join(items + [last], ",")
  {
    if items != [] {
      AccLast(items[1..], last);
      assert (items + [last])[1..] == items[1..] + [last];
    }
  }

  // ---------------------------------------------------------------- the command array

  /** The words strtok_s finds in the command line, splitting on blanks. */
  function Tokens(s: string): (r: seq<string>)
    decreases |s|
    ensures forall i :: 0 <= i < |r| ==> r[i] != [] && ' ' !in r[i]
  {
    match StrTok(s, {' '})
    case None => []
    case Some(t) =>
      assert forall k :: 0 <= k < |t.token| ==> t.token[k] != ' ';
      [t.token] + Tokens(t.rest)
  }

  /** A word: non-empty, without blanks. */
  predicate Word(w: string) {
    w != [] && forall k :: 0 <= k < |w| ==> w[k] != ' '
  }

  /** Splitting words joined by single blanks gives the words back. */
  lemma {:induction false} TokensJoin(ws: seq<string>)
    requires forall i :: 0 <= i < |ws| ==> Word(ws[i])
    ensures Tokens(Join(ws, " ")) == ws
  {
    if |ws| == 1 {
      StrTokWhole(ws[0], {' '});
      assert StrTok([], {' '}).None?;
    } else if |ws| > 1 {
      StrTokDelimited(ws[0], ' ', Join(ws[1..], " "), {' '});
      assert Join(ws, " ") == ws[0] + [' '] + Join(ws[1..], " ");
      TokensJoin(ws[1..]);
    }
  }

  /**
   * The "command" array: each word of the command line quoted, separated by commas,
   * with no comma after the last.
   */
  const CommandOpen: string := "\"command\": [ "

  function CommandArray(cmd: string, command: string): (r: string)
    ensures r == cmd + CommandOpen + Join(Quoted(Tokens(command)), ",") + " ]" + ","
  {
    var items := Quoted(Tokens(command));
    TrimAcc([], items);
    assert [] + Acc(items) == Acc(items);
    cmd + CommandOpen + TrimComma(Acc(items)) + " ]" + ","
  }

  // ---------------------------------------------------------------- respawn and lists

  const RespawnOpen: string := "\"respawn\": [ "

  /** The respawn values that are set (not -1), in the order threshold, timeout, retry, as quoted decimals. */
  function RespawnItems(o: ProcdObj): seq<string> {
    (if o.threshold != Unset then [Quote(IntToDec(o.threshold))] else []) +
    (if o.timeout != Unset then [Quote(IntToDec(o.timeout))] else []) +
    (if o.retry != Unset then [Quote(IntToDec(o.retry))] else [])
  }

  /** Items written with commas, then a last one without, trim to their join. */
  lemma TrimAccLast(p: string, items: seq<string>, last: string)
    requires last != [] && last[|last| - 1] != ','
    ensures TrimComma(p + Acc(items) + last) == p + Join(items + [last], ",")
  {
    AccLast(items, last);
    assert p + Acc(items) + last == p + (Acc(items) + last);
  }

  /** The values the code writes with a comma after them: threshold and timeout, when set. */
  function RespawnFirst(o: ProcdObj): seq<string> {
    (if o.threshold != Unset then [Quote(IntToDec(o.threshold))] else []) +
    (if o.timeout != Unset then [Quote(IntToDec(o.timeout))] else [])
  }

  /**
   * The "respawn" array: the values that are not -1, each quoted, in order, separated
   * by commas.
   */
  function RespawnPart(cmd: string, o: ProcdObj): (r: string)
    ensures r == cmd + RespawnOpen + Join(RespawnItems(o), ",") + "],"
  {
    var p := cmd + RespawnOpen;
    var first := RespawnFirst(o);
    if o.retry != Unset then
      var q := Quote(IntToDec(o.retry));
      TrimAccLast(p, first, q);
      TrimComma(p + Acc(first) + q) + "],"
    else
      TrimAcc(p, first);
      assert RespawnItems(o) == first + [];
      TrimComma(p + Acc(first)) + "],"
  }

  /** "name": "value" of one list node. */
  function Pair(p: ProcdParam): string {
    Quote(p.name) + ": " + Quote(p.value)
  }

  function Pairs(ps: seq<ProcdParam>): (r: seq<string>)
    ensures |r| == |ps| && forall i :: 0 <= i < |ps| ==> r[i] == Pair(ps[i])
  {
    if ps == [] then [] else [Pair(ps[0])] + Pairs(ps[1..])
  }

  /** An env, limits or data table: the pairs in list order, separated by commas. */
  function ListPart(cmd: string, key: string, ps: Option<seq<ProcdParam>>): (r: string)
    ensures ps.None? ==> r == cmd
    ensures ps.Some? ==> r == cmd + Quote(key) + ": { " + Join(Pairs(ps.value), ",") + " },"
  {
    match ps
    case None => cmd
    case Some(l) =>
      var p := cmd + Quote(key) + ": { ";
      TrimAcc(p, Pairs(l));
      TrimComma(p + Acc(Pairs(l))) + " },"
  }

  /** One trigger: reload the service's init script when the named package changes. */
  function Trigger(service: string, p: ProcdParam): string {
    "[ \"config.change\", [ \"if\", [ \"eq\", \"package\", " + Quote(p.value) + " ], [ \"run_script\", " +
    Quote("\\/etc\\/init.d\\/" + service) + ", \"reload\" ] ] ]"
  }

  function Triggers(service: string, ts: seq<ProcdParam>): (r: seq<string>)
    ensures |r| == |ts| && forall i :: 0 <= i < |ts| ==> r[i] == Trigger(service, ts[i])
  {
    if ts == [] then [] else [Trigger(service, ts[0])] + Triggers(service, ts[1..])
  }

  /** The "triggers" array: one entry per trigger node, in list order, separated by commas. */
  function TriggersPart(cmd: string, service: string, ts: seq<ProcdParam>): (r: string)
    ensures r == cmd + "\"triggers\": [ " + Join(Triggers(service, ts), ",") + " ]"
  {
    var p := cmd + "\"triggers\": [ ";
    TrimAcc(p, Triggers(service, ts));
    TrimComma(p + Acc(Triggers(service, ts))) + " ]"
  }

  // ---------------------------------------------------------------- the command

  /** The nice value is sent only when it is non-zero and within [-20, 20). */
  predicate NiceSent(n: int) {
    n != 0 && -20 <= n < 20
  }


  /** The options between the command array and the end of the instance, in the code's order. */
  function Options(c: string, o: ProcdObj): string {
    var c5 := if o.respawn then RespawnPart(c, o) else c;
    var c6 := if NiceSent(o.nice) then c5 + "\"nice\": " + IntToDec(o.nice) + "," else c5;
    var c7 := if o.confFile != [] then c6 + "\"file\": [ " + Quote(o.confFile) + " ]," else c6;
    var c8 := if o.netdev != [] then c7 + "\"netdev\": [ " + Quote(o.netdev) + " ]," else c7;
    ListPart(ListPart(ListPart(c8, "env", o.env), "limits", o.limits), "data", o.data)
  }

  /** The opening of every command: the method and the service name. */
  function Head(service: string, verb: string): string {
    "ubus call service " + verb + " '{" + "\"name\": " + Quote(service) + ", "
  }

  const InstancesOpen: string := "\"instances\": { \"instance1\": { "

  /** The body of a set: the script, the instance with its command and options, the triggers. */
  function Instance(o: ProcdObj, c1: string): string {
    var c2 := if o.triggers.Some? then c1 + "\"script\": " + Quote(o.serviceName) + ", " else c1;
    var c3 := c2 + InstancesOpen;
    var c4 := if o.command != [] then CommandArray(c3, o.command) else c3;
    var c12 := TrimComma(Options(c4, o)) + " } }" + ",";
    if o.triggers.Some? then TriggersPart(c12, o.serviceName, o.triggers.value) else c12
  }

  /**
   * scapi_invokeUbusCmd's command line for a method, or None when it refuses: the
   * service name is required for every method, the command line for "set". A delete
   * names the service only; otherwise the instance carries the command array and the
   * options that are set, and the triggers follow.
   */
  function UbusCommand(o: ProcdObj, verb: string): (r: Option<string>)
    ensures r.None? <==> o.serviceName == [] || (verb == "set" && o.command == [])
  {
    var c1 := Head(o.serviceName, verb);
    if o.serviceName == [] then None
    else if verb == "delete" then Some(c1 + "}'")
    else if o.command == [] && verb == "set" then None
    else Some(TrimComma(Instance(o, c1)) + "}'")
  }

  /** A delete names the service and nothing else. */
  lemma DeleteNamesServiceOnly(o: ProcdObj)
    requires o.serviceName != []
    ensures UbusCommand(o, "delete") == Some("ubus call service delete '{\"name\": " + Quote(o.serviceName) + ", }'")
  {
    var q := Quote(o.serviceName);
    assert Head(o.serviceName, "delete") + "}'" == "ubus call service delete '{\"name\": " + q + ", }'";
  }

  // ---------------------------------------------------------------- spawning

  /** The method a procd action asks for: start sets the service, stop deletes it. */
  function MethodOf(action: string): (r: Option<string>)
    ensures r == Some("set") <==> action == "start"
    ensures r == Some("delete") <==> action == "stop"
    ensures r.None? <==> action != "start" && action != "stop"
  {
    if action == "start" then Some("set")
    else if action == "stop" then Some("delete")
    else None
  }

  /** What a procd call returns, the command it spawned, and the caller's object afterwards. */
  datatype Spawned = Spawned(code: int, sent: Option<string>, obj: ProcdObj)

  /**
   * The command line is split in place: strtok_s writes a NUL after the first word, so
   * the caller's command field is cut down to its first word whenever the command array
   * is built. With fixed = true the split works on a copy and the object is left alone.
   */
  function AfterSplit(o: ProcdObj, verb: string, fixed: bool): (r: ProcdObj)
    ensures r.(command := o.command) == o
    ensures fixed || o.serviceName == [] || verb == "delete" || o.command == [] ==> r == o
  {
    if fixed || o.serviceName == [] || verb == "delete" || o.command == [] then o
    else o.(command := TruncAtToken(o.command, {' '}))
  }

  /**
   * scapi_procdSpawn: map the action to a method, build the command and spawn it. The
   * spawn's own return value and the child's exit status are parameters; a failed spawn
   * reports its return value, a spawned command that exits non-zero reports its status.
   */
  function ProcdSpawn(action: string, o: ProcdObj, spawnRet: int, childStatus: int, fixed: bool): (r: Spawned)
    ensures MethodOf(action).None? ==> r == Spawned(ExitFailure, None, o)
    ensures MethodOf(action).Some? ==> r.sent == UbusCommand(o, MethodOf(action).value)
    ensures r.sent.None? ==> r.code == ExitFailure
    ensures r.sent.Some? ==> r.code == (if spawnRet != ExitSuccess then spawnRet else childStatus)
    ensures r.code == ExitSuccess <==> r.sent.Some? && spawnRet == ExitSuccess && childStatus == ExitSuccess
  {
    match MethodOf(action)
    case None => Spawned(ExitFailure, None, o)
    case Some(m) =>
      var obj := AfterSplit(o, m, fixed);
      match UbusCommand(o, m)
      case None => Spawned(ExitFailure, None, obj)
      case Some(cmd) =>
        Spawned(if spawnRet != ExitSuccess then spawnRet else childStatus, Some(cmd), obj)
  }

  // ---------------------------------------------------------------- parameter lists

  /**
   * scapi_setProcdParamList: append a node to a list, or None (a NULL node) for a NULL
   * name, a name that does not fit nameCap, an empty name (sprintf_s reports writing
   * nothing), a NULL value or a value that does not fit valueCap. An empty value is
   * accepted. The capacities come from a header that is not part of this model.
   */
  function SetProcdParamList(list: seq<ProcdParam>, name: Option<string>, value: Option<string>,
                             nameCap: nat, valueCap: nat): (r: Option<seq<ProcdParam>>)
    ensures r.Some? <==> name.Some? && 0 < |name.value| < nameCap && value.Some? && |value.value| < valueCap
    ensures r.Some? ==> |r.value| == |list| + 1 && r.value[..|list|] == list
    ensures r.Some? ==> r.value[|list|] == ProcdParam(name.value, value.value)
  {
    if name.None? || |name.value| >= nameCap then None
    else if |name.value| == 0 then None
    else if value.None? || |value.value| >= valueCap then None
    else Some(list + [ProcdParam(name.value, value.value)])
  }

  /** Whether a pair is accepted by SetProcdParamList. */
  predicate Fits(p: ProcdParam, nameCap: nat, valueCap: nat) {
    0 < |p.name| < nameCap && |p.value| < valueCap
  }

  /** Adding each pair in turn, stopping at the first refused one. */
  function AddAll(list: seq<ProcdParam>, ps: seq<ProcdParam>, nameCap: nat, valueCap: nat): Option<seq<ProcdParam>>
    decreases |ps|
  {
    if ps == [] then Some(list)
    else match SetProcdParamList(list, Some(ps[0].name), Some(ps[0].value), nameCap, valueCap)
      case None => None
      case Some(l) => AddAll(l, ps[1..], nameCap, valueCap)
  }

  /** Pairs that all fit end up in the list in the order they were added, after the old ones. */
  lemma {:induction false} AddAllKeepsOrder(list: seq<ProcdParam>, ps: seq<ProcdParam>, nameCap: nat, valueCap: nat)
    requires forall i :: 0 <= i < |ps| ==> Fits(ps[i], nameCap, valueCap)
    ensures AddAll(list, ps, nameCap, valueCap) == Some(list + ps)
    decreases |ps|
  {
    if ps != [] {
      var l := list + [ps[0]];
      assert Fits(ps[0], nameCap, valueCap);
      assert SetProcdParamList(list, Some(ps[0].name), Some(ps[0].value), nameCap, valueCap) == Some(l);
      AddAllKeepsOrder(l, ps[1..], nameCap, valueCap);
      assert l + ps[1..] == list + ps by {
        assert ps == [ps[0]] + ps[1..];
      }
    } else {
      assert list + ps == list;
    }
  }

  /** A list built from pairs that fit is written into its table in that order. */
  lemma ListPartOrder(cmd: string, key: string, ps: seq<ProcdParam>, nameCap: nat, valueCap: nat)
    requires forall i :: 0 <= i < |ps| ==> Fits(ps[i], nameCap, valueCap)
    ensures AddAll([], ps, nameCap, valueCap).Some?
    ensures ListPart(cmd, key, AddAll([], ps, nameCap, valueCap)) ==
            cmd + Quote(key) + ": { " + Join(Pairs(ps), ",") + " },"
  {
    AddAllKeepsOrder([], ps, nameCap, valueCap);
    assert [] + ps == ps;
  }

  // ---------------------------------------------------------------- properties

  /** The command a freshly initialised object sends once a name and a command are set. */
  function MinimalSet(service: string, words: seq<string>): string {
    Head(service, "set") + InstancesOpen + CommandOpen + Join(Quoted(words), ",") + " ]" + " } }" + "}'"
  }

  /** A command that ends in ",": trimming removes that comma and nothing else. */
  lemma TrimSuffix(a: string, b: string)
    requires b != [] && b[|b| - 1] == ','
    ensures TrimComma(a + b) == a + b[..|b| - 1]
  {
    assert (a + b)[..|a + b| - 1] == a + b[..|b| - 1];
  }

  /** With none of the options set, Options adds nothing. */
  lemma NoOptions(c: string, o: ProcdObj)
    requires !o.respawn && o.nice == 0 && o.confFile == [] && o.netdev == []
    requires o.env.None? && o.limits.None? && o.data.None?
    ensures Options(c, o) == c
  {
  }

  /** The instance of an object with a command and nothing else set. */
  lemma FreshInstance(o: ProcdObj, c1: string, words: seq<string>)
    requires o.triggers.None? && !o.respawn && o.nice == 0 && o.confFile == [] && o.netdev == []
    requires o.env.None? && o.limits.None? && o.data.None?
    requires words != [] && forall i :: 0 <= i < |words| ==> Word(words[i])
    requires o.command == Join(words, " ")
    ensures o.command != []
    ensures Instance(o, c1) == c1 + InstancesOpen + CommandOpen + Join(Quoted(words), ",") + " ]" + " } }" + ","
  {
    JoinFirst(words, " ");
    var c4 := CommandArray(c1 + InstancesOpen, o.command);
    NoOptions(c4, o);
    CommandOfWords(c1 + InstancesOpen, words);
    TrimLast(c1 + InstancesOpen + CommandOpen + Join(Quoted(words), ",") + " ]");
  }

  /** The command array of a command made of words. */
  lemma CommandOfWords(c: string, words: seq<string>)
    requires forall i :: 0 <= i < |words| ==> Word(words[i])
    ensures CommandArray(c, Join(words, " ")) == c + CommandOpen + Join(Quoted(words), ",") + " ]" + ","
  {
    TokensJoin(words);
  }

  /** Trimming removes exactly one final comma. */
  lemma TrimLast(a: string)
    ensures TrimComma(a + ",") == a
  {
    assert (a + ",")[..|a|] == a;
  }

  /**
   * An initialised object given a service name and a command of blank-separated words
   * sends only the name and the command array, the words quoted and in order: no
   * respawn, nice, file, netdev, table or trigger field.
   */
  lemma FreshObjectSet(service: string, words: seq<string>)
    requires service != [] && words != []
    requires forall i :: 0 <= i < |words| ==> Word(words[i])
    ensures UbusCommand(InitializeProcdObj().(serviceName := service, command := Join(words, " ")), "set")
            == Some(MinimalSet(service, words))
  {
    var o := InitializeProcdObj().(serviceName := service, command := Join(words, " "));
    PlainObjectSet(o, words);
  }

  /** An object with a command and none of the options or triggers set sends the minimal set. */
  lemma PlainObjectSet(o: ProcdObj, words: seq<string>)
    requires o.triggers.None? && !o.respawn && o.nice == 0 && o.confFile == [] && o.netdev == []
    requires o.env.None? && o.limits.None? && o.data.None?
    requires o.serviceName != [] && words != [] && forall i :: 0 <= i < |words| ==> Word(words[i])
    requires o.command == Join(words, " ")
    ensures UbusCommand(o, "set") == Some(MinimalSet(o.serviceName, words))
  {
    var c1 := Head(o.serviceName, "set");
    FreshInstance(o, c1, words);
    SetShape(o);
    TrimLast(c1 + InstancesOpen + CommandOpen + Join(Quoted(words), ",") + " ]" + " } }");
  }

  /** A set with a service name and a command sends the instance, its final comma trimmed. */
  lemma SetShape(o: ProcdObj)
    requires o.serviceName != [] && o.command != []
    ensures UbusCommand(o, "set") == Some(TrimComma(Instance(o, Head(o.serviceName, "set"))) + "}'")
  {
  }

  /** The first word of a joined list starts the join. */
  lemma JoinFirst(words: seq<string>, sep: string)
    requires words != [] && Word(words[0])
    ensures Join(words, sep) != []
  {
    if |words| > 1 {
      assert Join(words, sep) == words[0] + sep + Join(words[1..], sep);
    }
  }

  /** The respawn array of an object with all three values set lists them in order. */
  lemma RespawnAllSet(cmd: string, o: ProcdObj)
    requires o.threshold != Unset && o.timeout != Unset && o.retry != Unset
    ensures RespawnPart(cmd, o) == cmd + RespawnOpen + (Quote(IntToDec(o.threshold)) + "," +
              Quote(IntToDec(o.timeout)) + "," + Quote(IntToDec(o.retry))) + "],"
  {
    var t, u, v := Quote(IntToDec(o.threshold)), Quote(IntToDec(o.timeout)), Quote(IntToDec(o.retry));
    assert RespawnItems(o) == [t, u, v];
    JoinThree(t, u, v);
  }

  lemma JoinThree(t: string, u: string, v: string)
    ensures Join([t, u, v], ",") == t + "," + u + "," + v
  {
    assert [t, u, v][1..] == [u, v] && [u, v][1..] == [v];
    assert Join([u, v], ",") == u + "," + v;
  }

  /** The respawn array of an object with no value set is empty. */
  lemma RespawnNoneSet(cmd: string, o: ProcdObj)
    requires o.threshold == Unset && o.timeout == Unset && o.retry == Unset
    ensures RespawnPart(cmd, o) == cmd + RespawnOpen + "],"
  {
    assert RespawnItems(o) == [];
  }

  /** The first blank of two blank-separated words is where strtok_s cuts the buffer. */
  lemma TruncTwoWords(w1: string, w2: string)
    requires Word(w1)
    ensures TruncAtToken(w1 + " " + w2, {' '}) == w1
  {
    var s := w1 + " " + w2;
    assert s[0] == w1[0];
    assert s[|w1|] == ' ';
    assert Scan(s, {' '}, 0, false) == 0;
    assert Scan(s, {' '}, 0, true) == |w1|;
    assert s[..|w1|] == w1;
  }

  /**
   * Starting a service whose command has two words, as written, cuts the caller's
   * command to the first word; a second start with the same object then sends a
   * command array with that word alone.
   */
  lemma RestartLosesArguments(service: string, w1: string, w2: string, ret: int, status: int)
    requires service != [] && Word(w1) && Word(w2)
    ensures var first := ProcdSpawn("start", InitializeProcdObj().(serviceName := service, command := w1 + " " + w2), ret, status, false);
            first.sent == Some(MinimalSet(service, [w1, w2])) &&
            ProcdSpawn("start", first.obj, ret, status, false).sent == Some(MinimalSet(service, [w1]))
  {
    var o := InitializeProcdObj().(serviceName := service, command := w1 + " " + w2);
    assert Join([w1, w2], " ") == w1 + " " + w2;
    FreshObjectSet(service, [w1, w2]);
    TruncTwoWords(w1, w2);
    var first := ProcdSpawn("start", o, ret, status, false);
    assert first.obj == o.(command := w1);
    assert Join([w1], " ") == w1;
    FreshObjectSet(service, [w1]);
    assert o.(command := w1) == InitializeProcdObj().(serviceName := service, command := Join([w1], " "));
  }

  /** With the split on a copy, a repeated start sends the same command again. */
  lemma RestartKeepsArguments(action: string, o: ProcdObj, ret: int, status: int)
    ensures var first := ProcdSpawn(action, o, ret, status, true);
            first.obj == o && ProcdSpawn(action, first.obj, ret, status, true) == first
  {
  }

  /**
   * The nice value is the only option written for an object whose other options are
   * off, and it is written exactly when it is non-zero and within [-20, 20).
   */
  lemma NiceOnly(c: string, o: ProcdObj)
    requires !o.respawn && o.confFile == [] && o.netdev == []
    requires o.env.None? && o.limits.None? && o.data.None?
    ensures NiceSent(o.nice) ==> Options(c, o) == c + "\"nice\": " + IntToDec(o.nice) + ","
    ensures !NiceSent(o.nice) ==> Options(c, o) == c
  {
  }
}
