/**
 * `BrowserClient::teardown`: read the PID registry, force-kill every
 * recorded process whose id is not 0, in the order geckodriver, Xvfb,
 * x11vnc, then remove the registry file.
 *
 * The operating system is an oracle: a `kill -9` of the i-th process in
 * registry order returns `statuses[i]`, and the removal of the file returns
 * `removeSucceeds`.  What teardown does is recorded as a trace of effects
 * (kill requests, then the removal) and a log report per process.
 */
module TeardownController {
  import opened Wrappers
  import opened PidRegistry

  /**
   * What running `kill -9 <pid>` gave back: the exit status of the `kill`
   * process (`code` is None when it was ended by a signal), or an error
   * starting it at all.
   */
  datatype KillStatus = Exited(code: Option<int>) | SpawnError

  /** A request teardown makes of the operating system. */
  datatype Effect = Kill(proc: Proc, pid: u32) | RemoveRegistry

  /** The line teardown logs about one process. */
  datatype Report =
    | Killed(proc: Proc, pid: u32)
    | KillFailed(proc: Proc, pid: u32, code: Option<int>)
    | KillNotRun(proc: Proc)
    | SkippedZero(proc: Proc)

  /** The kill request for `proc`, or none when its recorded id is 0. */
  function KillIfRecorded(p: Pids, proc: Proc): seq<Effect> {
    if PidOf(p, proc) != 0 then [Kill(proc, PidOf(p, proc))] else []
  }

  /**
   * The kill requests for `procs`, in that order: never more than one per
   * listed process, and each a kill of a non-zero id.
   */
  function KillRequests(p: Pids, procs: seq<Proc>): (ks: seq<Effect>)
    ensures |ks| <= |procs|
    ensures forall k :: 0 <= k < |ks| ==> ks[k].Kill? && ks[k].pid != 0
  {
    if procs == [] then [] else KillIfRecorded(p, procs[0]) + KillRequests(p, procs[1..])
  }

  /**
   * Kill requests go exactly to the listed processes whose recorded id is
   * not 0, each with its recorded id; the removal is never among them.
   */
  lemma {:induction false} KillRequestsExact(p: Pids, procs: seq<Proc>)
    ensures forall e :: e in KillRequests(p, procs) ==>
      e.Kill? && e.proc in procs && e.pid == PidOf(p, e.proc) && e.pid != 0
    ensures forall proc :: proc in procs && PidOf(p, proc) != 0 ==> Kill(proc, PidOf(p, proc)) in KillRequests(p, procs)
  {
    if procs != [] {
      KillRequestsExact(p, procs[1..]);
      forall proc | proc in procs && PidOf(p, proc) != 0
        ensures Kill(proc, PidOf(p, proc)) in KillRequests(p, procs)
      {
        if proc != procs[0] {
          assert proc in procs[1..];
        }
      }
    }
  }

  /**
   * When no process is listed twice, as in the registry order, no process
   * is killed twice either.
   */
  lemma {:induction false} KillRequestsDistinct(p: Pids, procs: seq<Proc>)
    requires forall i, j :: 0 <= i < j < |procs| ==> procs[i] != procs[j]
    ensures forall i, j :: 0 <= i < j < |KillRequests(p, procs)| ==>
      KillRequests(p, procs)[i].proc != KillRequests(p, procs)[j].proc
  {
    if procs != [] {
      var head, tail := KillIfRecorded(p, procs[0]), KillRequests(p, procs[1..]);
      var ks := KillRequests(p, procs);
      assert ks == head + tail;
      KillRequestsDistinct(p, procs[1..]);
      KillRequestsExact(p, procs[1..]);
      forall i, j | 0 <= i < j < |ks|
        ensures ks[i].proc != ks[j].proc
      {
        assert ks[j] == tail[j - |head|];
        if i < |head| {
          assert tail[j - |head|] in tail;
          assert procs[0] !in procs[1..];
        } else {
          assert ks[i] == tail[i - |head|];
        }
      }
    }
  }

  /** The registry order lists each process once, so teardown kills each at most once. */
  lemma RegistryOrderKillsOnce(p: Pids)
    ensures forall i, j :: 0 <= i < j < |KillRequests(p, RegistryOrder)| ==>
      KillRequests(p, RegistryOrder)[i].proc != KillRequests(p, RegistryOrder)[j].proc
  {
    KillRequestsDistinct(p, RegistryOrder);
  }

  /** The log line for a kill of `proc` that returned `status`; only exit code 0 is success. */
  function KillReport(proc: Proc, pid: u32, status: KillStatus): (rep: Report)
    ensures rep.proc == proc
    ensures rep.Killed? <==> status == Exited(Some(0))
    ensures rep.KillNotRun? <==> status.SpawnError?
    ensures rep.KillFailed? <==> status.Exited? && status.code != Some(0)
    ensures rep.Killed? || rep.KillFailed? ==> rep.pid == pid
    ensures rep.KillFailed? ==> rep.code == status.code
  {
    if status.SpawnError? then KillNotRun(proc)
    else if status.code == Some(0) then Killed(proc, pid)
    else KillFailed(proc, pid, status.code)
  }

  /** The log line for `proc`: a skip when its id is 0, otherwise the outcome of its kill. */
  function ProcessReport(p: Pids, proc: Proc, status: KillStatus): (rep: Report)
    ensures rep.proc == proc
    ensures rep.SkippedZero? <==> PidOf(p, proc) == 0
    ensures PidOf(p, proc) != 0 ==> rep == KillReport(proc, PidOf(p, proc), status)
  {
    if PidOf(p, proc) == 0 then SkippedZero(proc) else KillReport(proc, PidOf(p, proc), status)
  }

  /**
   * The log lines for `procs`, one per process in that order, where
   * `statuses[j]` is what killing `procs[j]` returns if it is killed.
   */
  function KillReports(p: Pids, procs: seq<Proc>, statuses: seq<KillStatus>): (rs: seq<Report>)
    requires |statuses| >= |procs|
    ensures |rs| == |procs|
    ensures forall j :: 0 <= j < |procs| ==>
      && rs[j].proc == procs[j]
      && (rs[j].SkippedZero? <==> PidOf(p, procs[j]) == 0)
      && (PidOf(p, procs[j]) != 0 ==> rs[j] == KillReport(procs[j], PidOf(p, procs[j]), statuses[j]))
  {
    seq(|procs|, j requires 0 <= j < |procs| => ProcessReport(p, procs[j], statuses[j]))
  }

  /**
   * The line teardown logs for the j-th process of the registry when its id
   * is not 0: done exactly when `kill` exited with 0, failed with the exit
   * code exactly when it exited otherwise, not run exactly when `kill`
   * could not be started; done and failed lines carry the recorded pid.
   */
  lemma KillOutcomeLogged(p: Pids, statuses: seq<KillStatus>, j: nat)
    requires |statuses| >= |RegistryOrder| && j < |RegistryOrder|
    requires PidOf(p, RegistryOrder[j]) != 0
    ensures var rep := KillReports(p, RegistryOrder, statuses)[j];
      && rep.proc == RegistryOrder[j]
      && (rep.Killed? <==> statuses[j] == Exited(Some(0)))
      && (rep.KillFailed? <==> statuses[j].Exited? && statuses[j].code != Some(0))
      && (rep.KillNotRun? <==> statuses[j].SpawnError?)
      && (rep.Killed? || rep.KillFailed? ==> rep.pid == PidOf(p, RegistryOrder[j]))
      && (rep.KillFailed? ==> rep.code == statuses[j].code)
  {
  }

  /** A kill that did not exit with 0 is logged as failed or not run, never as done and never as a skip. */
  lemma KillFailureLogged(p: Pids, statuses: seq<KillStatus>, j: nat)
    requires |statuses| >= |RegistryOrder| && j < |RegistryOrder|
    requires PidOf(p, RegistryOrder[j]) != 0 && statuses[j] != Exited(Some(0))
    ensures var rep := KillReports(p, RegistryOrder, statuses)[j];
      && rep.proc == RegistryOrder[j]
      && (rep.KillFailed? || rep.KillNotRun?)
      && (rep.KillFailed? ==> rep.pid == PidOf(p, RegistryOrder[j]))
  {
    KillOutcomeLogged(p, statuses, j);
  }

  /**
   * Teardown.  A missing registry or an entry that is not a `u32` ends it
   * with an error before anything is killed or removed.  Otherwise every
   * kill is requested whatever the earlier kills returned, the removal is
   * requested last, its outcome is dropped, and teardown succeeds.
   */
  method Teardown(registry: Option<string>, statuses: seq<KillStatus>, removeSucceeds: bool)
    returns (r: Result<(), RegistryError>, effects: seq<Effect>, reports: seq<Report>)
    requires |statuses| >= |RegistryOrder|
    ensures registry.None? ==> r == Failure(RegistryNotFound) && effects == [] && reports == []
    ensures registry.Some? && ReadRegistry(registry.value).Failure? ==>
      r == Failure(ReadRegistry(registry.value).error) && effects == [] && reports == []
    ensures registry.Some? && ReadRegistry(registry.value).Success? ==>
      && r == Success(())
      && effects == KillRequests(ReadRegistry(registry.value).value, RegistryOrder) + [RemoveRegistry]
      && reports == KillReports(ReadRegistry(registry.value).value, RegistryOrder, statuses)
  {
    effects, reports := [], [];
    if registry.None? {
      return Failure(RegistryNotFound), effects, reports;
    }
    var lines := Lines(registry.value);
    var driver := ParseU32(Entry(lines, 0));
    if driver.None? {
      return Failure(InvalidPid(Geckodriver)), effects, reports;
    }
    var xvfb := ParseU32(Entry(lines, 1));
    if xvfb.None? {
      return Failure(InvalidPid(Xvfb)), effects, reports;
    }
    var x11vnc := ParseU32(Entry(lines, 2));
    if x11vnc.None? {
      return Failure(InvalidPid(X11vnc)), effects, reports;
    }
    var pids := Pids(driver.value, xvfb.value, x11vnc.value);

    effects, reports := KillRecorded(pids, RegistryOrder, statuses);
    // `fs::remove_file(..).ok()`: whether the removal worked is not looked at.
    effects := effects + [RemoveRegistry];
    r := Success(());
  }

  /**
   * The `for` loop of teardown: one pass per process in registry order,
   * requesting a kill for each non-zero id and logging its outcome; a
   * failed kill does not stop the loop.
   */
  method KillRecorded(pids: Pids, procs: seq<Proc>, statuses: seq<KillStatus>)
    returns (effects: seq<Effect>, reports: seq<Report>)
    requires |statuses| >= |procs|
    ensures effects == KillRequests(pids, procs)
    ensures reports == KillReports(pids, procs, statuses)
  {
    effects, reports := [], [];
    for i := 0 to |procs|
      invariant effects + KillRequests(pids, procs[i..]) == KillRequests(pids, procs)
      invariant |reports| == i
      invariant forall j :: 0 <= j < i ==> reports[j] == ProcessReport(pids, procs[j], statuses[j])
    {
      var proc := procs[i];
      var pid := PidOf(pids, proc);
      assert procs[i..][1..] == procs[i + 1..];
      assert KillRequests(pids, procs[i..]) == KillIfRecorded(pids, proc) + KillRequests(pids, procs[i + 1..]);
      if pid != 0 {
        effects := effects + [Kill(proc, pid)];
        reports := reports + [KillReport(proc, pid, statuses[i])];
      } else {
        reports := reports + [SkippedZero(proc)];
      }
    }
    assert procs[|procs|..] == [];
  }

  /** Exactly one kill per non-zero id, in the order geckodriver, Xvfb, x11vnc. */
  lemma KillOrder(p: Pids)
    ensures KillRequests(p, RegistryOrder)
         == KillIfRecorded(p, Geckodriver) + KillIfRecorded(p, Xvfb) + KillIfRecorded(p, X11vnc)
  {
    assert [X11vnc][1..] == [];
    assert KillRequests(p, [X11vnc]) == KillIfRecorded(p, X11vnc) + [];
    assert [Xvfb, X11vnc][1..] == [X11vnc];
    assert KillRequests(p, [Xvfb, X11vnc]) == KillIfRecorded(p, Xvfb) + KillRequests(p, [X11vnc]);
    assert RegistryOrder[1..] == [Xvfb, X11vnc];
  }

  /**
   * Tearing down what `build` registered: when all three ids are non-zero,
   * the kills go to geckodriver, Xvfb and x11vnc with exactly the recorded
   * ids, in that order.
   */
  lemma TeardownOfWrittenRegistry(p: Pids)
    requires p.driver != 0 && p.xvfb != 0 && p.x11vnc != 0
    ensures ReadRegistry(FormatRegistry(p)) == Success(p)
    ensures KillRequests(p, RegistryOrder) == [Kill(Geckodriver, p.driver), Kill(Xvfb, p.xvfb), Kill(X11vnc, p.x11vnc)]
  {
    RegistryRoundTrip(p);
    KillOrder(p);
  }

  /** The registry "101\n202\n303\n" makes teardown kill 101, 202 and 303 in that order. */
  lemma ExampleTeardown()
    ensures ReadRegistry("101\n202\n303\n") == Success(Pids(101, 202, 303))
    ensures KillRequests(Pids(101, 202, 303), RegistryOrder)
         == [Kill(Geckodriver, 101), Kill(Xvfb, 202), Kill(X11vnc, 303)]
  {
    ReadsExampleRegistry();
    KillOrder(Pids(101, 202, 303));
  }

  /** An empty registry reads as three zero ids: no kill is requested, only skips are logged. */
  lemma EmptyRegistryKillsNothing(statuses: seq<KillStatus>)
    requires |statuses| >= |RegistryOrder|
    ensures ReadRegistry("") == Success(Pids(0, 0, 0))
    ensures KillRequests(Pids(0, 0, 0), RegistryOrder) == []
    ensures KillReports(Pids(0, 0, 0), RegistryOrder, statuses)
         == [SkippedZero(Geckodriver), SkippedZero(Xvfb), SkippedZero(X11vnc)]
  {
  }
}
