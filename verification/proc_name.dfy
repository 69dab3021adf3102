/**
 * scapi_get_process_name (scapi_get_process_name.c): the command name of a process,
 * read from the first line of /proc/<pid>/stat, where it stands in parentheses after
 * the pid.
 *
 * The contents of the stat file are a parameter (None when it cannot be opened). The
 * result is the text of the shared 16-byte buffer, or the failure string.
 */
module ProcName {
  import opened Wrappers
  import opened CString

  /** What the function returns on every failure. */
  const Fail: string := "INVAL PROCESS"

  /** sizeof(cBuff): fgets reads at most one character less. */
  const LineBufLen: nat := 128
  /** sizeof(process_name). */
  const NameBufLen: nat := 16

  /** The stat file's path for a pid. */
  function StatPath(pid: int): string {
    "/proc/" + IntToDec(pid) + "/stat"
  }

  /** The position of the first c in s, if any: strchr. */
  function FirstIndex(s: string, c: char): (r: Option<nat>)
    ensures r.Some? ==> r.value < |s| && s[r.value] == c && c !in s[..r.value]
    ensures r.None? ==> c !in s
  {
    if |s| == 0 then None
    else if s[0] == c then Some(0)
    else match FirstIndex(s[1..], c)
      case None => None
      case Some(i) =>
        assert s[..i + 1] == [s[0]] + s[1..][..i];
        Some(i + 1)
  }

  /** The position of the last c in s, if any: strrchr. */
  function LastIndex(s: string, c: char): (r: Option<nat>)
    ensures r.Some? ==> r.value < |s| && s[r.value] == c && c !in s[r.value + 1..]
    ensures r.None? ==> c !in s
  {
    if |s| == 0 then None
    else if s[|s| - 1] == c then Some(|s| - 1)
    else match LastIndex(s[..|s| - 1], c)
      case None => None
      case Some(i) =>
        assert s[i + 1..] == s[..|s| - 1][i + 1..] + [s[|s| - 1]];
        Some(i)
  }

  /**
   * The buffer fgets fills from the file: up to and including the first newline, at
   * most LineBufLen - 1 characters; None for an empty file.
   */
  function FirstLine(content: string): (r: Option<string>)
    ensures r.None? <==> content == []
    ensures r.Some? ==> r.value <= content && 0 < |r.value| < LineBufLen
    ensures r.Some? && '\n' !in r.value ==> |r.value| == |content| || |r.value| == LineBufLen - 1
  {
    if content == [] then None
    else
      var n := match FirstIndex(content, '\n') case Some(i) => i + 1 case None => |content|;
      var m := if n < LineBufLen - 1 then n else LineBufLen - 1;
      assert '\n' !in content[..m] ==> n == |content| || m == LineBufLen - 1;
      Some(content[..m])
  }

  /** The ')' that ends the name: the first one of the line as written, the last one corrected. */
  function Close(line: string, fixed: bool): Option<nat> {
    if fixed then LastIndex(line, ')') else FirstIndex(line, ')')
  }

  /**
   * The name cut out of a stat line: from after the first '(' to the first ')', where
   * the code writes its NUL. When that ')' comes before the '(', the NUL lands before
   * the name and the name runs to the end of the line. With fixed = true the name ends
   * at the last ')' of the line.
   */
  function Between(line: string, fixed: bool): (r: Option<string>)
    ensures FirstIndex(line, '(').None? || Close(line, fixed).None? ==> r.None?
    ensures r.Some? ==> '(' in line && ')' in line
    ensures r.Some? ==> |r.value| < |line|
  {
    match FirstIndex(line, '(')
    case None => None
    case Some(s) =>
      match Close(line, fixed)
      case None => None
      case Some(e) =>
        if e > s then Some(line[s + 1..e]) else Some(line[s + 1..])
  }

  /**
   * scapi_get_process_name: read the first line of /proc/<pid>/stat and return the
   * name between the parentheses, or Fail when the file cannot be read, a parenthesis is
   * missing, or the name is empty or does not fit the 16-byte buffer.
   */
  function GetProcessName(stat: Option<string>, fixed: bool): (r: string)
    ensures r == Fail || 0 < |r| < NameBufLen
    ensures stat.None? || stat == Some([]) ==> r == Fail
    ensures r != Fail ==> stat.Some? && FirstLine(stat.value).Some? && Between(FirstLine(stat.value).value, fixed) == Some(r)
  {
    if stat.None? then Fail
    else match FirstLine(stat.value)
      case None => Fail
      case Some(line) =>
        match Between(line, fixed)
        case None => Fail
        case Some(name) => if 0 < |name| < NameBufLen then name else Fail
  }

  // ---------------------------------------------------------------- properties

  /** The first line of /proc/<pid>/stat: the pid, the name in parentheses, the other fields. */
  function StatLine(pid: string, comm: string, rest: string): string {
    pid + " (" + comm + ") " + rest + "\n"
  }

  /** The pid field: the decimal text of the pid, which holds no parenthesis or newline. */
  predicate PidField(pid: string) {
    '(' !in pid && ')' !in pid && '\n' !in pid
  }

  /** The kernel writes the pid in decimal. */
  lemma DecimalPidField(n: nat)
    ensures PidField(NatToDec(n))
  {
    var d := NatToDec(n);
    assert forall k :: 0 <= k < |d| ==> IsDigit(d[k]);
  }

  /** The stat path fits the 128-byte buffer for every 32-bit pid. */
  lemma StatPathFits(pid: int)
    requires -0x8000_0000 <= pid < 0x8000_0000
    ensures |StatPath(pid)| < LineBufLen
  {
    DecLength(if pid < 0 then -pid else pid, 10);
  }

  /** A number below 10^k takes at most k digits. */
  lemma {:induction false} DecLength(n: nat, k: nat)
    requires n < Pow10(k)
    ensures |NatToDec(n)| <= if k == 0 then 1 else k
    decreases k
  {
    if k > 1 && n >= 10 {
      assert n / 10 < Pow10(k - 1);
      DecLength(n / 10, k - 1);
    }
  }

  function Pow10(k: nat): (r: nat)
    ensures r >= 1
  {
    if k == 0 then 1 else 10 * Pow10(k - 1)
  }

  /** A name that is not empty, fits the buffer and has no parenthesis of its own. */
  predicate PlainName(comm: string) {
    0 < |comm| < NameBufLen && '(' !in comm && ')' !in comm
  }

  /** GetProcessName once the line and both parentheses are located. */
  lemma NameAt(content: string, line: string, s: nat, e: nat, fixed: bool)
    requires FirstLine(content) == Some(line)
    requires FirstIndex(line, '(') == Some(s)
    requires Close(line, fixed) == Some(e)
    requires s + 1 < e < s + 1 + NameBufLen
    ensures GetProcessName(Some(content), fixed) == line[s + 1..e]
  {
  }

  /** The parts of a stat line: where its parentheses and newline are. */
  lemma StatLineShape(pid: string, comm: string, rest: string)
    requires PidField(pid)
    requires '\n' !in comm && '\n' !in rest && '(' !in comm
    ensures var line := StatLine(pid, comm, rest);
            var h := |pid| + 2;
            && |line| == h + |comm| + |rest| + 3
            && line[|line| - 1] == '\n' && '\n' !in line[..|line| - 1]
            && line[h - 1] == '(' && '(' !in line[..h - 1] && ')' !in line[..h - 1]
            && line[h..h + |comm|] == comm
            && line[h + |comm|] == ')'
            && line[h + |comm| + 1..] == " " + rest + "\n"
  {
    var line := StatLine(pid, comm, rest);
    var h := |pid| + 2;
    assert line[..|line| - 1] == pid + " (" + comm + ") " + rest;
    assert line[..h - 1] == pid + " ";
  }

  /**
   * fgets reads a stat line up to its newline or its first 127 characters, whichever
   * comes first, whatever follows the line.
   */
  lemma StatFirstLine(pid: string, comm: string, rest: string, more: string) returns (m: nat)
    requires PidField(pid)
    requires '(' !in comm && '\n' !in comm && '\n' !in rest
    ensures var line := StatLine(pid, comm, rest);
            && m == (if |line| < LineBufLen then |line| else LineBufLen - 1)
            && FirstLine(line + more) == Some(line[..m])
  {
    var line := StatLine(pid, comm, rest);
    var c := line + more;
    StatLineShape(pid, comm, rest);
    assert c[..|line| - 1] == line[..|line| - 1];
    FirstIndexIs(c, '\n', |line| - 1);
    m := if |line| < LineBufLen then |line| else LineBufLen - 1;
    assert c[..m] == line[..m];
  }

  /** strchr finds the same c in a prefix that reaches past it. */
  lemma FirstIndexPrefix(s: string, c: char, m: nat)
    requires FirstIndex(s, c).Some? && FirstIndex(s, c).value < m <= |s|
    ensures FirstIndex(s[..m], c) == FirstIndex(s, c)
  {
    var x := FirstIndex(s, c).value;
    assert s[..m][..x] == s[..x];
    FirstIndexIs(s[..m], c, x);
  }

  /** strrchr finds the same c in a prefix that reaches past it. */
  lemma LastIndexPrefix(s: string, c: char, m: nat)
    requires LastIndex(s, c).Some? && LastIndex(s, c).value < m <= |s|
    ensures LastIndex(s[..m], c) == LastIndex(s, c)
  {
    var x := LastIndex(s, c).value;
    var t := s[..m][x + 1..];
    forall k | 0 <= k < |t|
      ensures t[k] != c
    {
      assert t[k] == s[x + 1..][k];
    }
    LastIndexIs(s[..m], c, x);
  }

  /** Both readings find the same closing ')' in a prefix that reaches past it. */
  lemma ClosePrefix(s: string, fixed: bool, m: nat)
    requires Close(s, fixed).Some? && Close(s, fixed).value < m <= |s|
    ensures Close(s[..m], fixed) == Close(s, fixed)
  {
    if fixed {
      LastIndexPrefix(s, ')', m);
    } else {
      FirstIndexPrefix(s, ')', m);
    }
  }

  /**
   * The name read from a stat line whose first line is located: from after the '('
   * to the closing ')' at e, when fgets read past that ')'.
   */
  lemma NameInPrefix(pid: string, comm: string, rest: string, more: string, fixed: bool, e: nat, m: nat)
    requires PidField(pid)
    requires '(' !in comm && '\n' !in comm && '\n' !in rest
    requires |pid| + 2 < e < m <= |StatLine(pid, comm, rest)| && e < |pid| + 2 + NameBufLen
    requires FirstLine(StatLine(pid, comm, rest) + more) == Some(StatLine(pid, comm, rest)[..m])
    requires Close(StatLine(pid, comm, rest), fixed) == Some(e)
    ensures GetProcessName(Some(StatLine(pid, comm, rest) + more), fixed) == StatLine(pid, comm, rest)[|pid| + 2..e]
  {
    var line := StatLine(pid, comm, rest);
    var h := |pid| + 2;
    OpenParen(pid, comm, rest);
    FirstIndexPrefix(line, '(', m);
    ClosePrefix(line, fixed, m);
    assert line[..m][h..e] == line[h..e];
    NameAt(line + more, line[..m], h - 1, e, fixed);
  }

  /** The '(' of a stat line is the one after the pid. */
  lemma OpenParen(pid: string, comm: string, rest: string)
    requires PidField(pid)
    requires '(' !in comm && '\n' !in comm && '\n' !in rest
    ensures FirstIndex(StatLine(pid, comm, rest), '(') == Some(|pid| + 1)
  {
    StatLineShape(pid, comm, rest);
    FirstIndexIs(StatLine(pid, comm, rest), '(', |pid| + 1);
  }

  /** The first ')' of a stat line: the first one in the name, or the one closing it. */
  lemma FirstClose(pid: string, comm: string, rest: string, j: nat)
    requires PidField(pid)
    requires '(' !in comm && '\n' !in comm && '\n' !in rest
    requires j <= |comm| && ')' !in comm[..j] && (j < |comm| ==> comm[j] == ')')
    ensures FirstIndex(StatLine(pid, comm, rest), ')') == Some(|pid| + 2 + j)
  {
    var line := StatLine(pid, comm, rest);
    var h := |pid| + 2;
    StatLineShape(pid, comm, rest);
    if j < |comm| {
      assert line[h..h + |comm|][j] == line[h + j];
    }
    assert line[..h + j] == line[..h - 1] + [line[h - 1]] + line[h..h + |comm|][..j];
    FirstIndexIs(line, ')', h + j);
  }

  /** The last ')' of a stat line whose other fields hold none is the one closing the name. */
  lemma LastClose(pid: string, comm: string, rest: string)
    requires PidField(pid)
    requires '(' !in comm && '\n' !in comm && '\n' !in rest && ')' !in rest
    ensures LastIndex(StatLine(pid, comm, rest), ')') == Some(|pid| + 2 + |comm|)
  {
    var line := StatLine(pid, comm, rest);
    var h := |pid| + 2;
    StatLineShape(pid, comm, rest);
    assert ')' !in line[h + |comm| + 1..];
    LastIndexIs(line, ')', h + |comm|);
  }

  /** The name field of a stat line. */
  lemma NameField(pid: string, comm: string, rest: string, j: nat)
    requires PidField(pid)
    requires '(' !in comm && '\n' !in comm && '\n' !in rest && j <= |comm|
    ensures var h := |pid| + 2;
            StatLine(pid, comm, rest)[h..h + j] == comm[..j]
  {
    var h := |pid| + 2;
    StatLineShape(pid, comm, rest);
    assert StatLine(pid, comm, rest)[h..h + j] == StatLine(pid, comm, rest)[h..h + |comm|][..j];
  }

  /**
   * In a short stat line whose name has no parenthesis or newline, the first line is
   * read whole and the text between the parentheses is the name.
   */
  lemma StatLineName(pid: string, comm: string, rest: string, more: string, fixed: bool)
    requires PidField(pid)
    requires '(' !in comm && ')' !in comm && '\n' !in comm && ')' !in rest && '\n' !in rest
    requires |StatLine(pid, comm, rest)| < LineBufLen
    ensures FirstLine(StatLine(pid, comm, rest) + more) == Some(StatLine(pid, comm, rest))
    ensures Between(StatLine(pid, comm, rest), fixed) == Some(comm)
  {
    var line := StatLine(pid, comm, rest);
    var h := |pid| + 2;
    var m := StatFirstLine(pid, comm, rest, more);
    assert line[..m] == line;
    assert FirstIndex(line, '(') == Some(h - 1) by {
      OpenParen(pid, comm, rest);
    }
    CloseAt(pid, comm, rest, fixed);
    assert line[h..h + |comm|] == comm by {
      NameField(pid, comm, rest, |comm|);
      assert comm[..|comm|] == comm;
    }
    BetweenAt(line, h - 1, h + |comm|, fixed);
  }

  /** In a stat line without other parentheses, both readings close the name at the same ')'. */
  lemma CloseAt(pid: string, comm: string, rest: string, fixed: bool)
    requires PidField(pid)
    requires '(' !in comm && ')' !in comm && '\n' !in comm && ')' !in rest && '\n' !in rest
    ensures Close(StatLine(pid, comm, rest), fixed) == Some(|pid| + 2 + |comm|)
  {
    if fixed {
      LastClose(pid, comm, rest);
    } else {
      assert comm[..|comm|] == comm;
      FirstClose(pid, comm, rest, |comm|);
    }
  }

  /** Between once both parentheses are located, the '(' first. */
  lemma BetweenAt(line: string, s: nat, e: nat, fixed: bool)
    requires FirstIndex(line, '(') == Some(s) && Close(line, fixed) == Some(e) && s < e
    ensures Between(line, fixed) == Some(line[s + 1..e])
  {
  }

  /**
   * The name written between parentheses in a stat line is read back, when it has no
   * parenthesis of its own, fits the 16-byte buffer with its NUL, and its ')' lies
   * within the 127 characters fgets reads, however long the line is.
   */
  lemma NameRoundTrip(pid: string, comm: string, rest: string, more: string, fixed: bool)
    requires PidField(pid)
    requires PlainName(comm) && '\n' !in comm && ')' !in rest && '\n' !in rest
    requires |pid| + |comm| + 3 < LineBufLen
    ensures GetProcessName(Some(StatLine(pid, comm, rest) + more), fixed) == comm
  {
    var line := StatLine(pid, comm, rest);
    var h := |pid| + 2;
    var m := StatFirstLine(pid, comm, rest, more);
    CloseAt(pid, comm, rest, fixed);
    NameInPrefix(pid, comm, rest, more, fixed, h + |comm|, m);
    NameField(pid, comm, rest, |comm|);
    assert comm[..|comm|] == comm;
  }

  /**
   * An empty name, or one of 16 characters or more, is INVAL PROCESS, whatever the
   * length of the line.
   */
  lemma NameOutsideBufferFails(pid: string, comm: string, rest: string, more: string, fixed: bool)
    requires PidField(pid)
    requires '(' !in comm && ')' !in comm && '\n' !in comm && ')' !in rest && '\n' !in rest
    requires |comm| == 0 || |comm| >= NameBufLen
    ensures GetProcessName(Some(StatLine(pid, comm, rest) + more), fixed) == Fail
  {
    var m := StatFirstLine(pid, comm, rest, more);
    if m <= |pid| + 2 + |comm| {
      CutBeforeClose(pid, comm, rest, more, fixed, m);
    } else {
      WholeNameInPrefix(pid, comm, rest, fixed, m);
    }
  }

  /** A first line cut off before the ')' that ends the name holds no ')' at all: INVAL PROCESS. */
  lemma CutBeforeClose(pid: string, comm: string, rest: string, more: string, fixed: bool, m: nat)
    requires PidField(pid)
    requires '(' !in comm && ')' !in comm && '\n' !in comm && '\n' !in rest
    requires m <= |pid| + 2 + |comm| && m <= |StatLine(pid, comm, rest)|
    requires FirstLine(StatLine(pid, comm, rest) + more) == Some(StatLine(pid, comm, rest)[..m])
    ensures GetProcessName(Some(StatLine(pid, comm, rest) + more), fixed) == Fail
  {
    var line := StatLine(pid, comm, rest);
    var h := |pid| + 2;
    StatLineShape(pid, comm, rest);
    assert line[..h + |comm|] == line[..h - 1] + [line[h - 1]] + line[h..h + |comm|];
    assert line[..m] == line[..h + |comm|][..m];
    MissingParenFails(line + more, fixed);
  }

  /** A prefix of a stat line that reaches past the name's ')' holds the whole name between its parentheses. */
  lemma WholeNameInPrefix(pid: string, comm: string, rest: string, fixed: bool, m: nat)
    requires PidField(pid)
    requires '(' !in comm && ')' !in comm && '\n' !in comm && ')' !in rest && '\n' !in rest
    requires |pid| + 2 + |comm| < m <= |StatLine(pid, comm, rest)|
    ensures Between(StatLine(pid, comm, rest)[..m], fixed) == Some(comm)
  {
    var line := StatLine(pid, comm, rest);
    var h := |pid| + 2;
    CloseAt(pid, comm, rest, fixed);
    OpenParen(pid, comm, rest);
    FirstIndexPrefix(line, '(', m);
    ClosePrefix(line, fixed, m);
    BetweenAt(line[..m], h - 1, h + |comm|, fixed);
    NameField(pid, comm, rest, |comm|);
    assert comm[..|comm|] == comm;
    assert line[..m][h..h + |comm|] == line[h..h + |comm|];
  }

  /** A first line without '(' or without ')' is INVAL PROCESS, whatever follows it. */
  lemma MissingParenFails(content: string, fixed: bool)
    requires FirstLine(content).Some?
    requires '(' !in FirstLine(content).value || ')' !in FirstLine(content).value
    ensures GetProcessName(Some(content), fixed) == Fail
  {
  }

  /** Only the first line is read: what follows a complete short line does not matter. */
  lemma FirstLineOnly(line: string, more: string, fixed: bool)
    requires 0 < |line| < LineBufLen && line[|line| - 1] == '\n' && '\n' !in line[..|line| - 1]
    ensures GetProcessName(Some(line + more), fixed) == GetProcessName(Some(line), fixed)
  {
    FirstLineOf(line, more);
    FirstLineOf(line, []);
    assert line + [] == line;
  }

  /** FirstLine of a short line followed by anything is that line. */
  lemma FirstLineOf(line: string, more: string)
    requires 0 < |line| < LineBufLen && line[|line| - 1] == '\n' && '\n' !in line[..|line| - 1]
    ensures FirstLine(line + more) == Some(line)
  {
    var c := line + more;
    assert c[..|line| - 1] == line[..|line| - 1];
    FirstIndexIs(c, '\n', |line| - 1);
    assert c[..|line|] == line;
  }

  /** Where strchr finds the first c. */
  lemma {:induction false} FirstIndexIs(s: string, c: char, i: nat)
    requires i < |s| && s[i] == c && c !in s[..i]
    ensures FirstIndex(s, c) == Some(i)
  {
    if i > 0 {
      assert s[..i][0] == s[0];
      assert s[1..][..i - 1] == s[..i][1..];
      FirstIndexIs(s[1..], c, i - 1);
    }
  }

  /** Where strrchr finds the last c. */
  lemma {:induction false} LastIndexIs(s: string, c: char, i: nat)
    requires i < |s| && s[i] == c && c !in s[i + 1..]
    ensures LastIndex(s, c) == Some(i)
  {
    if i < |s| - 1 {
      assert s[i + 1..][|s| - i - 2] == s[|s| - 1];
      assert s[..|s| - 1][i + 1..] == s[i + 1..|s| - 1];
      LastIndexIs(s[..|s| - 1], c, i);
    }
  }

  /**
   * As written: a command name containing ')' is cut at its first ')', because the
   * name is taken to the first ')' of the line ("1 (a)b) S 1" gives "a").
   */
  lemma ParenInNameCut(pid: string, a: string, b: string, rest: string, more: string)
    requires PidField(pid)
    requires PlainName(a) && '\n' !in a && '(' !in b && '\n' !in b && ')' !in rest && '\n' !in rest
    requires |pid| + |a| + 3 < LineBufLen
    ensures GetProcessName(Some(StatLine(pid, a + ")" + b, rest) + more), false) == a
  {
    var comm := a + ")" + b;
    assert comm[..|a|] == a && comm[|a|] == ')';
    NameToFirstClose(pid, comm, rest, more, |a|);
  }

  /** As written, the name read is the text of the name field up to its first ')'. */
  lemma NameToFirstClose(pid: string, comm: string, rest: string, more: string, j: nat)
    requires PidField(pid)
    requires '(' !in comm && '\n' !in comm && '\n' !in rest
    requires 0 < j < NameBufLen && j <= |comm| && ')' !in comm[..j] && (j < |comm| ==> comm[j] == ')')
    requires |pid| + j + 3 < LineBufLen
    ensures GetProcessName(Some(StatLine(pid, comm, rest) + more), false) == comm[..j]
  {
    var h := |pid| + 2;
    var m := StatFirstLine(pid, comm, rest, more);
    StatLineShape(pid, comm, rest);
    FirstClose(pid, comm, rest, j);
    NameInPrefix(pid, comm, rest, more, false, h + j, m);
    NameField(pid, comm, rest, j);
  }

  /** Corrected: taking the name to the last ')' of the line reads a name holding ')' back whole. */
  lemma ParenInNameKept(pid: string, a: string, b: string, rest: string, more: string)
    requires PidField(pid)
    requires 0 < |a + ")" + b| < NameBufLen
    requires '(' !in a && '\n' !in a && '(' !in b && '\n' !in b && ')' !in rest && '\n' !in rest
    requires |pid| + |a + ")" + b| + 3 < LineBufLen
    ensures GetProcessName(Some(StatLine(pid, a + ")" + b, rest) + more), true) == a + ")" + b
  {
    NameToLastClose(pid, a + ")" + b, rest, more);
  }

  /** Corrected, the name read is the whole name field, whatever parentheses it holds after the first. */
  lemma NameToLastClose(pid: string, comm: string, rest: string, more: string)
    requires PidField(pid)
    requires 0 < |comm| < NameBufLen && '(' !in comm && '\n' !in comm && ')' !in rest && '\n' !in rest
    requires |pid| + |comm| + 3 < LineBufLen
    ensures GetProcessName(Some(StatLine(pid, comm, rest) + more), true) == comm
  {
    var h := |pid| + 2;
    var m := StatFirstLine(pid, comm, rest, more);
    StatLineShape(pid, comm, rest);
    LastClose(pid, comm, rest);
    NameInPrefix(pid, comm, rest, more, true, h + |comm|, m);
    NameField(pid, comm, rest, |comm|);
    assert comm[..|comm|] == comm;
  }
}
