/**
 * scapi_dumplease (scapi_dumpleases.c): read a udhcpd lease file and report the
 * leases that have not expired, in file order, with the seconds each has left.
 *
 * The file is given already split into its header (the time it was written) and its
 * whole records; the clock is a parameter, and so is the errno of a failed open.
 * Memory allocation is not modelled.
 */
module Leases {
  import opened Wrappers
  import opened CString

  const ExitSuccess: int := 0
  const ExitFailure: int := -1

  /** The unsigned 32-bit range: the lease's expiry as ntohl reads it, and `unsigned expires`. */
  const TwoTo32: int := 0x1_0000_0000
  type U32 = x: int | 0 <= x < TwoTo32

  /** Buffer sizes of dump_lease_info's ipaddr and hostname. */
  const IpBufLen: nat := 16
  const HostBufLen: nat := 20

  const Unknown: string := "unknown"

  /** A byte of a MAC or IPv4 address. */
  type Byte = x: int | 0 <= x < 256

  /**
   * One struct dyn_lease: the client's MAC, its address (four bytes in network order),
   * the hostname buffer, and the lease time left when the file was written.
   */
  datatype Lease = Lease(mac: seq<Byte>, nip: seq<Byte>, hostname: string, expires: U32)

  /** The lease file: the int64 time it was written, then its whole records. */
  datatype LeaseFile = LeaseFile(writtenAt: int, records: seq<Lease>)

  /** One dump_lease_info entry. */
  datatype LeaseInfo = LeaseInfo(mac: seq<Byte>, ipaddr: string, hostname: string, remaining: int)

  /** The return code, and the entries the caller may read (the first *no_entry of them). */
  datatype LeaseDump = LeaseDump(code: int, entries: seq<LeaseInfo>)

  // ---------------------------------------------------------------- one record

  /** A byte in decimal takes at most three digits. */
  lemma ByteDigits(b: Byte)
    ensures |NatToDec(b)| <= 3
  {
    if b >= 10 {
      assert NatToDec(b) == NatToDec(b / 10) + ["0123456789"[b % 10]];
      if b / 10 >= 10 {
        assert NatToDec(b / 10) == NatToDec(b / 100) + ["0123456789"[(b / 10) % 10]];
      }
    }
  }

  /** inet_ntoa: the four bytes of the address in dotted decimal. */
  function Dotted(nip: seq<Byte>): (r: string)
    requires |nip| == 4
    ensures |r| < IpBufLen
  {
    ByteDigits(nip[0]); ByteDigits(nip[1]); ByteDigits(nip[2]); ByteDigits(nip[3]);
    NatToDec(nip[0]) + "." + NatToDec(nip[1]) + "." + NatToDec(nip[2]) + "." + NatToDec(nip[3])
  }

  /** The name reported for a lease: its hostname, or "unknown" when that is empty. */
  function HostName(raw: string): string
  {
    if CStr(raw) != [] then CStr(raw) else Unknown
  }

  /** Whether the hostname copy fits its 20-byte field (the file promises a terminated name). */
  predicate HostFits(l: Lease) {
    |HostName(l.hostname)| < HostBufLen
  }

  /** The absolute expiry of a lease: its relative time plus the time the file was written. */
  function ExpiresAt(l: Lease, writtenAt: int): int {
    l.expires + writtenAt
  }

  /** A lease is live when it expires strictly after now. */
  predicate Live(l: Lease, writtenAt: int, now: int) {
    ExpiresAt(l, writtenAt) > now
  }

  /** `unsigned expires = expires_abs - curr`: the difference taken modulo 2^32. */
  function Remaining(l: Lease, writtenAt: int, now: int): U32 {
    (ExpiresAt(l, writtenAt) - now) % TwoTo32
  }

  /** The entry written for a live lease. */
  function Info(l: Lease, writtenAt: int, now: int): LeaseInfo
    requires |l.nip| == 4
  {
    LeaseInfo(l.mac, Dotted(l.nip), HostName(l.hostname), Remaining(l, writtenAt, now))
  }

  /** A record as the file holds it: a four-byte address and a six-byte MAC. */
  predicate WellFormed(l: Lease) {
    |l.nip| == 4 && |l.mac| == 6
  }

  // ---------------------------------------------------------------- the reference fold

  /** The entries for a run of records: the live ones, in file order. */
  function Report(recs: seq<Lease>, writtenAt: int, now: int): seq<LeaseInfo>
    requires forall k :: 0 <= k < |recs| ==> WellFormed(recs[k])
  {
    if recs == [] then []
    else
      var last := recs[|recs| - 1];
      assert WellFormed(last);
      Report(recs[..|recs| - 1], writtenAt, now) +
      (if Live(last, writtenAt, now) then [Info(last, writtenAt, now)] else [])
  }

  /** The number of live leases among the records. */
  function LiveCount(recs: seq<Lease>, writtenAt: int, now: int): nat {
    if recs == [] then 0
    else LiveCount(recs[..|recs| - 1], writtenAt, now) + (if Live(recs[|recs| - 1], writtenAt, now) then 1 else 0)
  }

  /** The index of the first record at or after i whose hostname does not fit, if any. */
  function FirstBadFrom(recs: seq<Lease>, i: nat): (r: Option<nat>)
    requires i <= |recs|
    decreases |recs| - i
    ensures r.None? ==> forall k :: i <= k < |recs| ==> HostFits(recs[k])
    ensures r.Some? ==> i <= r.value < |recs| && !HostFits(recs[r.value])
    ensures r.Some? ==> forall k :: i <= k < r.value ==> HostFits(recs[k])
  {
    if i == |recs| then None
    else if !HostFits(recs[i]) then Some(i)
    else FirstBadFrom(recs, i + 1)
  }

  /** The index of the first record whose hostname does not fit, if any. */
  function FirstBad(recs: seq<Lease>): Option<nat> {
    FirstBadFrom(recs, 0)
  }

  /** time(NULL) against the header: a file written in the future counts as written now. */
  function Clamp(writtenAt: int, now: int): (r: int)
    ensures r <= now && r <= writtenAt && (r == now || r == writtenAt)
  {
    if now < writtenAt then now else writtenAt
  }

  // ---------------------------------------------------------------- scapi_dumplease

  /** The file an empty or missing name stands for. */
  function LeasePath(file: Option<string>, defaultFile: string): string {
    if file.None? || file.value == [] then defaultFile else file.value
  }

  /**
   * What scapi_dumplease promises: -errno for a file that cannot be opened; otherwise
   * the live leases in file order, measured against the clamped write time, up to the
   * first record whose hostname does not fit, which ends the read with -EXIT_FAILURE.
   */
  function Expected(path: string, disk: map<string, LeaseFile>, now: int, openErr: int): LeaseDump
    requires forall p :: p in disk ==> forall k :: 0 <= k < |disk[p].records| ==> WellFormed(disk[p].records[k])
  {
    if path !in disk then LeaseDump(-openErr, [])
    else
      var lf := disk[path];
      var w := Clamp(lf.writtenAt, now);
      match FirstBad(lf.records)
      case None => LeaseDump(ExitSuccess, Report(lf.records, w, now))
      case Some(k) =>
        assert k <= |lf.records|;
        LeaseDump(ExitFailure, Report(lf.records[..k], w, now))
  }

  /**
   * scapi_dumplease: an empty name selects the default lease file; a file that cannot be
   * opened returns -errno. Every record's hostname is copied first, and one that does
   * not fit ends the read with -EXIT_FAILURE, keeping the entries found so far; an
   * expired record's slot is taken by the next record, so the entries are the live
   * leases in file order.
   */
  method ScapiDumpLease(file: Option<string>, defaultFile: string, disk: map<string, LeaseFile>,
                        now: int, openErr: int) returns (r: LeaseDump)
    requires forall p :: p in disk ==> forall k :: 0 <= k < |disk[p].records| ==> WellFormed(disk[p].records[k])
    ensures r == Expected(LeasePath(file, defaultFile), disk, now, openErr)
  {
    var path := LeasePath(file, defaultFile);
    if path !in disk {
      return LeaseDump(-openErr, []);
    }
    var lf := disk[path];
    var w := lf.writtenAt;
    if now < w {
      w := now;
    }
    r := ReadRecords(lf.records, w, now);
  }

  /**
   * The record loop of scapi_dumplease, with the write time already clamped: the live
   * leases in order up to the first hostname that does not fit. The hostname copy comes
   * before the expiry test, so an expired record with an oversized name still stops the
   * read; an expired record's slot is reused by the next one.
   */
  method ReadRecords(recs: seq<Lease>, w: int, now: int) returns (r: LeaseDump)
    requires forall k :: 0 <= k < |recs| ==> WellFormed(recs[k])
    requires w <= now
    ensures FirstBad(recs).None? ==> r == LeaseDump(ExitSuccess, Report(recs, w, now))
    ensures FirstBad(recs).Some? ==> r == LeaseDump(ExitFailure, Report(recs[..FirstBad(recs).value], w, now))
  {
    var out: seq<LeaseInfo> := [];
    var i := 0;
    while i < |recs| && HostFits(recs[i])
      invariant 0 <= i <= |recs|
      invariant forall k :: 0 <= k < i ==> HostFits(recs[k])
      invariant out == Report(recs[..i], w, now)
    {
      var l := recs[i];
      ReportStep(recs, i, w, now);
      var expiresAbs := l.expires + w;
      if expiresAbs > now {
        out := out + [Info(l, w, now)];
      }
      i := i + 1;
    }
    FirstBadAt(recs, i);
    if i < |recs| {
      r := LeaseDump(ExitFailure, out);
    } else {
      assert recs[..i] == recs;
      r := LeaseDump(ExitSuccess, out);
    }
  }

  /** Where the scan for an oversized hostname stops. */
  lemma {:induction false} FirstBadAt(recs: seq<Lease>, i: nat)
    requires i <= |recs| && forall k :: 0 <= k < i ==> HostFits(recs[k])
    requires i < |recs| ==> !HostFits(recs[i])
    ensures FirstBad(recs) == if i < |recs| then Some(i) else None
  {
    var j := 0;
    while j < i
      invariant j <= i && FirstBadFrom(recs, j) == FirstBadFrom(recs, 0)
    {
      j := j + 1;
    }
  }

  /** The report of one more record. */
  lemma ReportStep(recs: seq<Lease>, i: nat, w: int, now: int)
    requires forall k :: 0 <= k < |recs| ==> WellFormed(recs[k])
    requires i < |recs|
    ensures Report(recs[..i + 1], w, now) ==
            Report(recs[..i], w, now) + (if Live(recs[i], w, now) then [Info(recs[i], w, now)] else [])
  {
    assert recs[..i + 1][..i] == recs[..i];
    assert recs[..i + 1][i] == recs[i];
  }

  // ---------------------------------------------------------------- properties

  /**
   * After clamping, the unsigned difference never wraps: a live lease has exactly
   * expires + written_at - now seconds left, more than zero and at most its expiry.
   */
  lemma RemainingExact(l: Lease, writtenAt: int, now: int)
    requires writtenAt <= now && Live(l, writtenAt, now)
    ensures Remaining(l, writtenAt, now) == ExpiresAt(l, writtenAt) - now
    ensures 0 < Remaining(l, writtenAt, now) <= l.expires
  {
  }

  /** Each reported lease is a live record of the file, with its exact time left. */
  lemma {:induction false} ReportSound(recs: seq<Lease>, writtenAt: int, now: int)
    requires forall k :: 0 <= k < |recs| ==> WellFormed(recs[k])
    requires writtenAt <= now
    ensures |Report(recs, writtenAt, now)| == LiveCount(recs, writtenAt, now)
    ensures forall e :: e in Report(recs, writtenAt, now) ==>
              exists k :: 0 <= k < |recs| && Live(recs[k], writtenAt, now) && e == Info(recs[k], writtenAt, now) &&
                          e.remaining == ExpiresAt(recs[k], writtenAt) - now
  {
    if recs != [] {
      var init := recs[..|recs| - 1];
      var last := recs[|recs| - 1];
      ReportSound(init, writtenAt, now);
      forall e | e in Report(recs, writtenAt, now)
        ensures exists k :: 0 <= k < |recs| && Live(recs[k], writtenAt, now) && e == Info(recs[k], writtenAt, now) &&
                            e.remaining == ExpiresAt(recs[k], writtenAt) - now
      {
        if e in Report(init, writtenAt, now) {
          var k :| 0 <= k < |init| && Live(init[k], writtenAt, now) && e == Info(init[k], writtenAt, now) &&
                   e.remaining == ExpiresAt(init[k], writtenAt) - now;
          assert recs[k] == init[k];
        } else {
          RemainingExact(last, writtenAt, now);
          assert recs[|recs| - 1] == last;
        }
      }
    }
  }

  /** The report of a file split in two is the report of the first part, then of the second. */
  lemma {:induction false} ReportAppend(a: seq<Lease>, b: seq<Lease>, writtenAt: int, now: int)
    requires forall k :: 0 <= k < |a| ==> WellFormed(a[k])
    requires forall k :: 0 <= k < |b| ==> WellFormed(b[k])
    ensures forall k :: 0 <= k < |a + b| ==> WellFormed((a + b)[k])
    ensures Report(a + b, writtenAt, now) == Report(a, writtenAt, now) + Report(b, writtenAt, now)
    decreases |b|
  {
    assert forall k :: 0 <= k < |a + b| ==> WellFormed((a + b)[k]) by {
      forall k | 0 <= k < |a + b|
        ensures WellFormed((a + b)[k])
      {
        if k < |a| { assert (a + b)[k] == a[k]; } else { assert (a + b)[k] == b[k - |a|]; }
      }
    }
    if b == [] {
      assert a + b == a;
    } else {
      var b0 := b[..|b| - 1];
      assert (a + b)[..|a + b| - 1] == a + b0;
      assert (a + b)[|a + b| - 1] == b[|b| - 1];
      ReportAppend(a, b0, writtenAt, now);
    }
  }

  /** Expired records contribute nothing: dropping them leaves the report unchanged. */
  lemma ExpiredDropped(a: seq<Lease>, l: Lease, b: seq<Lease>, writtenAt: int, now: int)
    requires forall k :: 0 <= k < |a| ==> WellFormed(a[k])
    requires forall k :: 0 <= k < |b| ==> WellFormed(b[k])
    requires WellFormed(l) && !Live(l, writtenAt, now)
    ensures forall k :: 0 <= k < |a + [l] + b| ==> WellFormed((a + [l] + b)[k])
    ensures Report(a + [l] + b, writtenAt, now) == Report(a + b, writtenAt, now)
  {
    ReportAppend(a, [l], writtenAt, now);
    assert Report([l], writtenAt, now) == [] by {
      assert [l][..0] == [];
    }
    ReportAppend(a + [l], b, writtenAt, now);
    ReportAppend(a, b, writtenAt, now);
  }

  /** A lease file written in the future reports each live lease with its full expiry left. */
  lemma FutureFileFullTime(l: Lease, writtenAt: int, now: int)
    requires now < writtenAt && l.expires > 0
    ensures Live(l, Clamp(writtenAt, now), now)
    ensures Remaining(l, Clamp(writtenAt, now), now) == l.expires
  {
  }

  /** A live record whose hostname is empty is reported as "unknown", with its exact time left. */
  lemma EmptyHostUnknown(l: Lease, writtenAt: int, now: int)
    requires WellFormed(l) && CStr(l.hostname) == [] && writtenAt <= now && Live(l, writtenAt, now)
    ensures Report([l], writtenAt, now) ==
            [LeaseInfo(l.mac, Dotted(l.nip), "unknown", ExpiresAt(l, writtenAt) - now)]
  {
    RemainingExact(l, writtenAt, now);
    assert [l][..0] == [];
  }
}
