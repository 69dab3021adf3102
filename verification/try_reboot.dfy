/**
 * try_reboot (utils/try_reboot.c): ask init for a normal reboot, wait a delay taken
 * from the command line, then force a kernel reboot and finally fault init.
 *
 * The program's effects are an event trace: what it prints, the signals it sends, its
 * one-second sleeps and the reboot call. Each effect is recorded as requested; a
 * reboot that takes the system down cuts the real trace short.
 */
module TryReboot {
  import opened CString

  /** DFL_REBOOT_WAIT_SEC, MIN_REBOOT_WAIT_SEC, MAX_REBOOT_WAIT_SEC. */
  const DefaultWait: nat := 20
  const MinWait: nat := 1
  const MaxWait: nat := 60

  const Two32: nat := 0x1_0000_0000
  const SIGSEGV: int := 11
  const SIGTERM: int := 15
  /** The pid of init. */
  const Init: int := 1

  /** How long the program keeps waiting after the forced reboot and after faulting init. */
  const AfterReboot: nat := 5
  const AfterFault: nat := 3

  datatype Event =
    | Print(text: string)
    | Sync
    | Kill(pid: int, sig: int)
    | Sleep
    | Reboot

  datatype Outcome = Outcome(code: int, events: seq<Event>)

  /** Whether argv[1] asks for help: "-h…" or "--h…", read as a C string. */
  predicate IsHelp(arg: string) {
    CharAt(arg, 0) == '-' && ((CharAt(arg, 1) == '-' && CharAt(arg, 2) == 'h') || CharAt(arg, 1) == 'h')
  }

  function Usage(prog: string): string {
    "Usage:- " + prog + " <wait time in seconds after normal reboot>\n"
  }

  /** The delay before clamping: atoi of the argument stored in an unsigned int, or the default. */
  function RawDelay(argv: seq<string>): (r: nat)
    ensures r < Two32
    ensures |argv| <= 1 ==> r == DefaultWait
    ensures |argv| > 1 && 0 <= Atoi(argv[1]) < Two32 ==> r == Atoi(argv[1])
    ensures |argv| > 1 && -(Two32 as int) <= Atoi(argv[1]) < 0 ==> r as int == Two32 as int + Atoi(argv[1])
  {
    if |argv| > 1 then Atoi(argv[1]) % Two32 else DefaultWait
  }

  /** The delay brought into [MinWait, MaxWait], with the message printed when it moves. */
  function Clamp(d: nat): (r: (nat, seq<Event>))
    ensures MinWait <= r.0 <= MaxWait
    ensures MinWait <= d <= MaxWait <==> r.0 == d
    ensures r.1 == [] <==> r.0 == d
    ensures d > MaxWait ==> r.0 == MaxWait && r.1 == [Print("Setting to max delay 60\n")]
    ensures d < MinWait ==> r.0 == MinWait && r.1 == [Print("Setting to min delay 1\n")]
  {
    if d > MaxWait then (MaxWait, [Print("Setting to max delay 60\n")])
    else if d < MinWait then (MinWait, [Print("Setting to min delay 1\n")])
    else (d, [])
  }

  /** n one-second sleeps. */
  function Sleeps(n: nat): (r: seq<Event>)
    ensures |r| == n && forall k :: 0 <= k < n ==> r[k] == Sleep
  {
    if n == 0 then [] else [Sleep] + Sleeps(n - 1)
  }

  /** The polite request and the wait: sync, SIGTERM to init, the delay, the notice and one more second. */
  function Polite(delay: nat): seq<Event> {
    [Sync, Kill(Init, SIGTERM)] + Sleeps(delay)
    + [Print("System not responding for reboot! Attempting a force reboot..\n\n"), Sleep]
  }

  /** The forced reboot and the wait after it. */
  function Forced(): seq<Event> {
    [Reboot] + Sleeps(AfterReboot)
  }

  /** Faulting init, the last wait and the closing message. */
  function Fault(): seq<Event> {
    [Kill(Init, SIGSEGV)] + Sleeps(AfterFault) + [Print("System halted! Please do a hard reboot.\n")]
  }

  /** What follows the clamping. */
  function Escalate(delay: nat): seq<Event> {
    Polite(delay) + Forced() + Fault()
  }

  /**
   * main(argc, argv): with a help argument print the usage and stop; otherwise clamp
   * the delay and escalate. The exit code is 0 either way.
   */
  function Run(argv: seq<string>): (r: Outcome)
    ensures r.code == 0
    ensures |argv| > 1 && IsHelp(argv[1]) ==> r.events == [Print(Usage(argv[0]))]
    ensures !(|argv| > 1 && IsHelp(argv[1])) ==> Reboot in r.events
  {
    if |argv| > 1 && IsHelp(argv[1]) then Outcome(0, [Print(Usage(argv[0]))])
    else
      var c := Clamp(RawDelay(argv));
      var es := Escalate(c.0);
      assert es[|Polite(c.0)|] == Reboot;
      Outcome(0, c.1 + es)
  }

  // ---------------------------------------------------------------- trace reading

  /** The number of one-second sleeps in a trace. */
  function Slept(es: seq<Event>): nat {
    if es == [] then 0 else (if es[0] == Sleep then 1 else 0) + Slept(es[1..])
  }

  /** The position of the first occurrence of e, or |es| when there is none. */
  function Find(es: seq<Event>, e: Event): (r: nat)
    ensures r <= |es| && e !in es[..r]
    ensures r < |es| ==> es[r] == e
  {
    if es == [] then 0
    else if es[0] == e then 0
    else
      var k := Find(es[1..], e);
      assert es[..k + 1] == [es[0]] + es[1..][..k];
      k + 1
  }

  /** The delay Main waits for, when it does not stop at the usage text. */
  function Delay(argv: seq<string>): nat {
    Clamp(RawDelay(argv)).0
  }

  // ---------------------------------------------------------------- properties

  lemma {:induction false} SleptAppend(a: seq<Event>, b: seq<Event>)
    ensures Slept(a + b) == Slept(a) + Slept(b)
  {
    if a != [] {
      assert (a + b)[1..] == a[1..] + b;
      SleptAppend(a[1..], b);
    } else {
      assert a + b == b;
    }
  }

  lemma {:induction false} SleptSleeps(n: nat)
    ensures Slept(Sleeps(n)) == n
  {
    if n > 0 {
      assert Sleeps(n)[1..] == Sleeps(n - 1);
      SleptSleeps(n - 1);
    }
  }

  /** With no argument the wait is DFL_REBOOT_WAIT_SEC, twenty seconds. */
  lemma NoArgumentWaitsDefault(prog: string)
    ensures Delay([prog]) == 20
    ensures Run([prog]) == Outcome(0, Escalate(20))
  {
  }

  /** "-h" and "--h" (and anything starting so) print the usage and do nothing else. */
  lemma HelpPrintsUsageOnly(prog: string, arg: string, rest: seq<string>)
    requires (|arg| >= 2 && arg[..2] == "-h") || (|arg| >= 3 && arg[..3] == "--h")
    ensures Run([prog, arg] + rest) == Outcome(0, [Print(Usage(prog))])
    ensures Reboot !in Run([prog, arg] + rest).events
  {
    assert arg[0] == '-';
    assert (|arg| >= 2 && arg[1] == 'h') || (|arg| >= 3 && arg[1] == '-' && arg[2] == 'h');
    assert ([prog, arg] + rest)[1] == arg;
  }

  /** The clamp keeps a delay in range and is idempotent. */
  lemma ClampIdempotent(d: nat)
    ensures Clamp(Clamp(d).0) == (Clamp(d).0, [])
  {
  }

  /** A negative argument wraps through the unsigned conversion and is clamped to 60. */
  lemma NegativeWaitsMax(prog: string, arg: string)
    requires -(Two32 as int) + MaxWait < Atoi(arg) < 0 && !IsHelp(arg)
    ensures Delay([prog, arg]) == MaxWait
    ensures Run([prog, arg]).events[0] == Print("Setting to max delay 60\n")
  {
  }

  /** A non-numeric argument reads as 0 and is clamped to 1. */
  lemma NonNumericWaitsMin(prog: string, arg: string)
    requires arg != [] && !IsDigit(arg[0]) && !IsSpace(arg[0]) && arg[0] != '-' && arg[0] != '+'
    ensures Delay([prog, arg]) == MinWait
    ensures Run([prog, arg]).events[0] == Print("Setting to min delay 1\n")
  {
    assert SkipSpaces(arg) == arg;
  }

  /** A numeric argument within [1, 60] is the delay, without a message. */
  lemma InRangeWaitsAsGiven(prog: string, n: nat)
    requires MinWait <= n <= MaxWait
    ensures Delay([prog, NatToDec(n)]) == n
    ensures Run([prog, NatToDec(n)]) == Outcome(0, Escalate(n))
  {
    AtoiIntToDec(n);
    assert !IsHelp(NatToDec(n)) by {
      assert IsDigit(NatToDec(n)[0]);
    }
  }

  /**
   * The forced reboot comes after SIGTERM to init and after delay + 1 seconds of sleep;
   * SIGSEGV to init comes after five more.
   */
  lemma EscalationOrder(argv: seq<string>)
    requires !(|argv| > 1 && IsHelp(argv[1]))
    ensures var es := Run(argv).events;
            var i := Find(es, Reboot);
            var j := Find(es, Kill(Init, SIGSEGV));
            && i < j < |es|
            && Kill(Init, SIGTERM) in es[..i]
            && Slept(es[..i]) == Delay(argv) + 1
            && Slept(es[i..j]) == AfterReboot
  {
    var c := Clamp(RawDelay(argv));
    assert Run(argv).events == c.1 + Escalate(c.0);
    EscalationAfter(c.1, c.0);
  }

  /** EscalationOrder for the trace after any clamping messages. */
  lemma EscalationAfter(msgs: seq<Event>, d: nat)
    requires forall k :: 0 <= k < |msgs| ==> msgs[k].Print?
    ensures var es := msgs + Escalate(d);
            var i := Find(es, Reboot);
            var j := Find(es, Kill(Init, SIGSEGV));
            && i < j < |es|
            && Kill(Init, SIGTERM) in es[..i]
            && Slept(es[..i]) == d + 1
            && Slept(es[i..j]) == AfterReboot
  {
    var pre := msgs + Polite(d);
    assert msgs + Escalate(d) == pre + Forced() + Fault();
    assert Kill(Init, SIGTERM) in pre by {
      assert pre[|msgs| + 1] == Kill(Init, SIGTERM);
    }
    PhasesApart(msgs, d);
    assert Slept(pre) == d + 1 by {
      SleptAppend(msgs, Polite(d));
      SleptPolite(d);
      SleptPrints(msgs);
    }
    assert Slept(Forced()) == AfterReboot by {
      SleptAppend([Reboot], Sleeps(AfterReboot));
      SleptSleeps(AfterReboot);
    }
    PhaseOrder(pre, Forced(), Fault(), d);
  }

  /** The order of the three phases, from what each phase holds. */
  lemma PhaseOrder(pre: seq<Event>, mid: seq<Event>, post: seq<Event>, d: nat)
    requires mid != [] && mid[0] == Reboot && post != [] && post[0] == Kill(Init, SIGSEGV)
    requires Reboot !in pre && Kill(Init, SIGSEGV) !in pre + mid
    requires Kill(Init, SIGTERM) in pre && Slept(pre) == d + 1 && Slept(mid) == AfterReboot
    ensures var es := pre + mid + post;
            var i := Find(es, Reboot);
            var j := Find(es, Kill(Init, SIGSEGV));
            && i < j < |es|
            && Kill(Init, SIGTERM) in es[..i]
            && Slept(es[..i]) == d + 1
            && Slept(es[i..j]) == AfterReboot
  {
    TraceOrder(pre, mid, post);
  }

  lemma {:induction false} SleptPrints(msgs: seq<Event>)
    requires forall k :: 0 <= k < |msgs| ==> msgs[k].Print?
    ensures Slept(msgs) == 0
  {
    if msgs != [] {
      SleptPrints(msgs[1..]);
    }
  }

  /** Neither the polite phase nor the forced one holds a reboot or a fault before its place. */
  lemma PhasesApart(msgs: seq<Event>, d: nat)
    requires forall k :: 0 <= k < |msgs| ==> msgs[k].Print?
    ensures Reboot !in msgs + Polite(d)
    ensures Kill(Init, SIGSEGV) !in msgs + Polite(d) + Forced()
  {
    var es := msgs + Polite(d) + Forced();
    forall k | 0 <= k < |es|
      ensures es[k] != Kill(Init, SIGSEGV) && (k < |msgs| + |Polite(d)| ==> es[k] != Reboot)
    {
      if k < |msgs| {
      } else if k < |msgs| + 2 {
      } else if k < |msgs| + 2 + d {
        assert es[k] == Sleeps(d)[k - |msgs| - 2];
      } else if k < |msgs| + |Polite(d)| {
      } else {
        assert es[k] == Forced()[k - |msgs| - |Polite(d)|];
      }
    }
    assert msgs + Polite(d) == es[..|msgs| + |Polite(d)|];
  }

  /** In pre + mid + post, the first Reboot opens mid and the first SIGSEGV opens post. */
  lemma TraceOrder(pre: seq<Event>, mid: seq<Event>, post: seq<Event>)
    requires mid != [] && mid[0] == Reboot && post != [] && post[0] == Kill(Init, SIGSEGV)
    requires Reboot !in pre && Kill(Init, SIGSEGV) !in pre + mid
    ensures var es := pre + mid + post;
            && Find(es, Reboot) == |pre| && Find(es, Kill(Init, SIGSEGV)) == |pre| + |mid|
            && es[..|pre|] == pre && es[|pre|..|pre| + |mid|] == mid
  {
    var es := pre + mid + post;
    assert es[..|pre|] == pre && es[..|pre| + |mid|] == pre + mid;
    FindAt(es, Reboot, |pre|);
    FindAt(es, Kill(Init, SIGSEGV), |pre| + |mid|);
  }

  /** The polite phase sleeps the delay and one second more. */
  lemma SleptPolite(d: nat)
    ensures Slept(Polite(d)) == d + 1
  {
    var notice := Print("System not responding for reboot! Attempting a force reboot..\n\n");
    SleptAppend([Sync, Kill(Init, SIGTERM)] + Sleeps(d), [notice, Sleep]);
    SleptAppend([Sync, Kill(Init, SIGTERM)], Sleeps(d));
    SleptSleeps(d);
    assert [notice, Sleep][1..] == [Sleep] && [Sleep][1..] == [];
    assert [Sync, Kill(Init, SIGTERM)][1..] == [Kill(Init, SIGTERM)] && [Kill(Init, SIGTERM)][1..] == [];
  }

  /** Find locates the first occurrence. */
  lemma {:induction false} FindAt(es: seq<Event>, e: Event, i: nat)
    requires i < |es| && es[i] == e && e !in es[..i]
    ensures Find(es, e) == i
  {
    if i > 0 {
      assert es[..i][0] == es[0];
      assert es[1..][..i - 1] == es[..i][1..];
      FindAt(es[1..], e, i - 1);
    }
  }
}
