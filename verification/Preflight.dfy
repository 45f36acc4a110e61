/** The checks a server passes before it opens anything durable. */
module Preflight {
  import opened Wrappers
  import opened Filesystem
  import opened Layout

  datatype Status = Pass | Warn | Fail

  datatype Check = Check(name: string, status: Status, remedy: Option<string>)

  datatype Report = Report(status: Status, checks: seq<Check>)

  predicate AtMost(a: Status, b: Status) {
    a == b || a.Pass? || b.Fail?
  }

  /** The worst of the outcomes: some check has it, none is worse; a pass when nothing was checked. */
  method Worst(checks: seq<Check>) returns (status: Status)
    ensures forall c :: c in checks ==> AtMost(c.status, status)
    ensures status == Pass || exists c :: c in checks && c.status == status
  {
    status := Pass;
    for i := 0 to |checks|
      invariant forall k :: 0 <= k < i ==> AtMost(checks[k].status, status)
      invariant status == Pass || exists k :: 0 <= k < i && checks[k].status == status
    {
      if !AtMost(checks[i].status, status) {
        status := checks[i].status;
      }
    }
  }

  predicate HasFailures(r: Report) {
    r.status == Fail
  }

  function RestoreMarkerCheck(t: Tree): Check {
    if [RESTORE_MARKER] in t then Check("restore_state", Fail, Some("run the restore again"))
    else Check("restore_state", Pass, None)
  }

  /**
   * `startup_checks`: the machine's own probes, then the restore marker.  The
   * gate opens exactly when no probe failed and no restore is unfinished.
   */
  method StartupChecks(mode: Check, directories: seq<Check>, temporary: Check, t: Tree) returns (r: Report)
    ensures r.checks == [mode] + directories + [temporary, RestoreMarkerCheck(t)]
    ensures !HasFailures(r) <==>
            && mode.status != Fail && temporary.status != Fail && [RESTORE_MARKER] !in t
            && forall c :: c in directories ==> c.status != Fail
  {
    var checks := [mode];
    checks := checks + directories;
    checks := checks + [temporary];
    checks := checks + [RestoreMarkerCheck(t)];
    assert checks == [mode] + directories + [temporary, RestoreMarkerCheck(t)];
    assert forall c :: c in checks <==> c == mode || c in directories || c == temporary || c == RestoreMarkerCheck(t);
    var status := Worst(checks);
    r := Report(status, checks);
  }

  /** `existing_ancestor`: the nearest directory upwards that is there. */
  method ExistingAncestor(t: Tree, path: Path) returns (r: Option<Path>)
    ensures r.Some? ==> r.value <= path && r.value in t && forall q :: r.value < q <= path ==> q !in t
    ensures r.None? <==> forall q :: q <= path ==> q !in t
  {
    var candidate := path;
    assert path[..|path|] == path;
    while true
      invariant candidate <= path && forall q :: candidate < q <= path ==> q !in t
      decreases |candidate|
    {
      if candidate in t {
        return Some(candidate);
      }
      if candidate == [] {
        forall q | q <= path ensures q !in t {
          assert q == [] || [] < q;
        }
        return None;
      }
      ghost var lower := candidate;
      candidate := candidate[..|candidate| - 1];
      forall q | candidate < q <= path ensures q !in t {
        assert |q| >= |lower|;
        assert q == path[..|q|] && lower == path[..|lower|];
        assert q == lower || lower < q;
      }
    }
  }
}
