/**
 * scapi_insmod (scapi_insmod.c): normalise a kernel-module path and build the
 * "insmod <module> [<options>]" command line handed to system(), plus the
 * error-message table scapi_moderror.
 *
 * The file system enters as two parameters: the set of paths stat() succeeds on and
 * glob()'s path vector for a pattern (None for a NULL vector). Allocation failures and
 * the exit status of system() are not modelled; the latter is ignored by the code.
 */
module Insmod {
  import opened Wrappers
  import opened CString

  /** Linux errno values used by the code. */
  const ENOENT: int := 2
  const ESRCH: int := 3
  const ENOEXEC: int := 8
  const EINVAL: int := 22

  const ExitSuccess: int := 0
  /** The code returns +EXIT_FAILURE (not its negation) when a sprintf_s fails. */
  const ExitFailure: int := 1

  /** DEFAULT_BUF_SIZE: the bound every strnlen_s in scapi_insmod uses. */
  const BufSize: nat := 1024
  /** DEFAULT_MODULES_DIR. */
  const ModulesDir: string := "/lib/modules/*/"
  const Suffix: string := ".ko"

  /** strnlen_s(s, BufSize). */
  function StrnLen(s: string): (r: nat)
    ensures r <= |s| && r <= BufSize
    ensures r == |s| || r == BufSize
  {
    if |s| < BufSize then |s| else BufSize
  }

  /**
   * sprintf_s(buf, dmax, ...) producing out succeeds in the code's sense (a result
   * above zero): the text is non-empty and leaves room for its terminating NUL.
   */
  predicate Written(out: string, dmax: nat) {
    0 < |out| < dmax
  }

  /** What stat() and glob() see. */
  datatype ModuleFs = ModuleFs(exists_: set<string>, glob: string -> Option<seq<string>>)

  /** The return code and the command line handed to system(), if one was. */
  datatype InsmodResult = InsmodResult(code: int, command: Option<string>)

  // ---------------------------------------------------------------- normalisation

  /** Whether the path, as strcmp sees it from strnlen_s's end, already carries ".ko". */
  predicate HasSuffix(path: string) {
    var n := StrnLen(path);
    n > |Suffix| && path[n - |Suffix|..] == Suffix
  }

  /**
   * The name with ".ko" ensured: a path that has it is duplicated; any other is
   * copied into a buffer of strnlen_s + 4 and ".ko" written after strnlen_s of the
   * copy. Failure (ExitFailure) when the copy does not fit.
   */
  function WithSuffix(path: string): (r: Result<string, int>)
    requires path != []
    ensures HasSuffix(path) ==> r == Success(path)
    ensures r.Failure? ==> r.error == ExitFailure && |path| >= StrnLen(path) + 4
    ensures r.Success? ==> |r.value| > |Suffix| && r.value[|r.value| - |Suffix|..] == Suffix
    ensures |path| < BufSize && !HasSuffix(path) ==> r == Success(path + Suffix)
  {
    if HasSuffix(path) then Success(path)
    else if !Written(path, StrnLen(path) + 4) then Failure(ExitFailure)
    else
      assert |path| < BufSize ==> path[..StrnLen(path)] == path;
      Success(path[..StrnLen(path)] + Suffix)
  }

  /**
   * A name with no wildcard that stat() cannot find is looked for under the default
   * modules directory: ModulesDir is put in front of it.
   */
  function WithModulesDir(name: string, fs: ModuleFs): (r: Result<string, int>)
    ensures ('*' in name || name in fs.exists_) ==> r == Success(name)
    ensures r.Success? ==> r.value == name || r.value == ModulesDir + name
    ensures r.Failure? ==> r.error == ExitFailure
    ensures !('*' in name) && name !in fs.exists_ && |name| < BufSize ==> r == Success(ModulesDir + name)
  {
    if '*' in name || name in fs.exists_ then Success(name)
    else
      var full := ModulesDir + name;
      if Written(full, StrnLen(name) + StrnLen(ModulesDir) + 2) then Success(full)
      else Failure(ExitFailure)
  }

  /**
   * glob() the name: a NULL path vector is -EINVAL; the first match, when there is one,
   * replaces the name; an empty vector keeps it.
   */
  function FirstMatch(name: string, fs: ModuleFs): (r: Result<string, int>)
    ensures fs.glob(name).None? <==> r == Failure(-EINVAL)
    ensures fs.glob(name) == Some([]) ==> r == Success(name)
    ensures r.Success? && fs.glob(name).Some? && fs.glob(name).value != [] ==> r.value == fs.glob(name).value[0]
    ensures r.Failure? ==> r.error == -EINVAL || r.error == ExitFailure
    ensures r.Success? && name != [] ==> r.value != []
  {
    match fs.glob(name)
    case None => Failure(-EINVAL)
    case Some(paths) =>
      if paths == [] then Success(name)
      else if Written(paths[0], StrnLen(paths[0]) + 2) then Success(paths[0])
      else Failure(ExitFailure)
  }

  /**
   * The argument of insmod: the module name alone, or the name, a blank and the
   * options, each written in turn into a buffer of both lengths plus three.
   */
  function Argument(name: string, options: Option<string>): (r: Result<string, int>)
    requires name != []
    ensures options.None? ==> r == Success(name)
    ensures options == Some([]) ==> r == Failure(ExitFailure)
    ensures r.Success? && options.Some? ==> r.value == name + " " + options.value
  {
    match options
    case None => Success(name)
    case Some(opt) =>
      var dmax := StrnLen(name) + StrnLen(opt) + 3;
      if !Written(name, dmax) || !Written(opt, dmax) then Failure(ExitFailure)
      else Success(name + " " + opt)
  }

  /**
   * scapi_insmod: validate the path, ensure ".ko", fall back to the modules directory,
   * take the first glob match, and run "insmod <argument>". Once the command line is
   * built the result is EXIT_SUCCESS, whatever the command does.
   */
  function ScapiInsmod(path: Option<string>, options: Option<string>, fs: ModuleFs): (r: InsmodResult)
    ensures path.None? || path == Some([]) ==> r == InsmodResult(-EINVAL, None)
    ensures r.command.Some? <==> r.code == ExitSuccess
    ensures r.command.Some? ==> "insmod " <= r.command.value
    ensures r.code != ExitSuccess ==> r.code == -EINVAL || r.code == ExitFailure
  {
    if path.None? || path.value == [] then InsmodResult(-EINVAL, None)
    else
      match WithSuffix(path.value)
      case Failure(e) => InsmodResult(e, None)
      case Success(n1) =>
        match WithModulesDir(n1, fs)
        case Failure(e) => InsmodResult(e, None)
        case Success(n2) =>
          match FirstMatch(n2, fs)
          case Failure(e) => InsmodResult(e, None)
          case Success(n3) =>
            match Argument(n3, options)
            case Failure(e) => InsmodResult(e, None)
            case Success(arg) =>
              var cmd := "insmod " + arg;
              if Written(cmd, BufSize) then InsmodResult(ExitSuccess, Some(cmd))
              else InsmodResult(ExitFailure, None)
  }

  // ---------------------------------------------------------------- messages

  /**
   * scapi_moderror: four errno values have fixed messages; any other is described by
   * strerror, a parameter here.
   */
  function ModError(err: int, strerror: int -> string): (r: string)
    ensures err == ENOEXEC ==> r == "Invalid module format"
    ensures err == ENOENT ==> r == "Unknown symbol in module"
    ensures err == ESRCH ==> r == "Module has wrong symbol version"
    ensures err == EINVAL ==> r == "Invalid parameters"
    ensures err !in {ENOEXEC, ENOENT, ESRCH, EINVAL} ==> r == strerror(err)
  {
    if err == ENOEXEC then "Invalid module format"
    else if err == ENOENT then "Unknown symbol in module"
    else if err == ESRCH then "Module has wrong symbol version"
    else if err == EINVAL then "Invalid parameters"
    else strerror(err)
  }

  /** The fixed messages tell the four errors apart: each names one errno. */
  lemma ModErrorFixedDistinct(a: int, b: int, strerror: int -> string)
    requires a in {ENOEXEC, ENOENT, ESRCH, EINVAL} && b in {ENOEXEC, ENOENT, ESRCH, EINVAL}
    ensures ModError(a, strerror) == ModError(b, strerror) <==> a == b
  {
    var msgs := ["Invalid module format", "Unknown symbol in module", "Module has wrong symbol version", "Invalid parameters"];
    assert msgs[0][0] == 'I' && msgs[1][0] == 'U' && msgs[2][0] == 'M';
    assert msgs[0][1] == 'n' && msgs[3][1] == 'n' && msgs[0][2] == 'v' && msgs[3][2] == 'v';
    assert |msgs[0]| != |msgs[3]|;
  }

  // ---------------------------------------------------------------- properties

  /** ".ko" alone is not long enough to count as a suffix, so it becomes ".ko.ko". */
  lemma BareSuffixDoubled()
    ensures WithSuffix(".ko") == Success(".ko.ko")
  {
    assert !HasSuffix(".ko");
    assert ".ko"[..StrnLen(".ko")] + Suffix == ".ko.ko";
  }

  /** Adding the suffix twice is adding it once. */
  lemma WithSuffixIdempotent(path: string)
    requires path != [] && |path| + |Suffix| < BufSize
    ensures WithSuffix(path).Success?
    ensures WithSuffix(WithSuffix(path).value) == WithSuffix(path)
  {
    var n := WithSuffix(path).value;
    assert |n| < BufSize;
    assert HasSuffix(n);
  }

  /**
   * A short path without a wildcard, found after adding ".ko" and matched by glob as
   * itself, gives "insmod <path>.ko" (or "insmod <path>" when it ends in ".ko"), with
   * the options after a blank when given; the result is success.
   */
  lemma InsmodCommandShape(path: string, options: Option<string>, fs: ModuleFs)
    requires path != [] && |path| + 12 < BufSize && '*' !in path
    requires options.Some? ==> options.value != [] && |path| + |options.value| + 12 < BufSize
    requires var n := if HasSuffix(path) then path else path + Suffix;
             n in fs.exists_ && fs.glob(n) == Some([n])
    ensures var n := if HasSuffix(path) then path else path + Suffix;
            ScapiInsmod(Some(path), options, fs) ==
            InsmodResult(ExitSuccess, Some("insmod " + n + (if options.Some? then " " + options.value else "")))
  {
    var n := if HasSuffix(path) then path else path + Suffix;
    assert WithSuffix(path) == Success(n);
    assert '*' !in n by {
      assert forall k :: 0 <= k < |Suffix| ==> Suffix[k] != '*';
    }
    assert WithModulesDir(n, fs) == Success(n);
    assert FirstMatch(n, fs) == Success(n);
    if options.Some? {
      assert Argument(n, options) == Success(n + " " + options.value);
      assert "insmod " + (n + " " + options.value) == "insmod " + n + (" " + options.value);
    } else {
      assert "insmod " + n + "" == "insmod " + n;
    }
  }

  /** A name stat() cannot find and without a wildcard is globbed under ModulesDir. */
  lemma MissingModuleSearched(path: string, fs: ModuleFs)
    requires path != [] && |path| + 3 < BufSize && '*' !in path && HasSuffix(path)
    requires path !in fs.exists_
    ensures fs.glob(ModulesDir + path).None? ==> ScapiInsmod(Some(path), None, fs) == InsmodResult(-EINVAL, None)
    ensures fs.glob(ModulesDir + path) == Some([]) && |ModulesDir + path| + 7 < BufSize ==>
              ScapiInsmod(Some(path), None, fs) == InsmodResult(ExitSuccess, Some("insmod " + ModulesDir + path))
  {
    assert WithSuffix(path) == Success(path);
    assert WithModulesDir(path, fs) == Success(ModulesDir + path);
    assert "insmod " + (ModulesDir + path) == "insmod " + ModulesDir + path;
  }
}
