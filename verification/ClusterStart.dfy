/** The start-up sequence of a cluster node, as the program runs it. */
module ClusterStart {
  import opened Wrappers
  import opened Filesystem
  import opened PayloadSample
  import opened ClusterGuard
  import opened ClusterRestarts

  /** The node's durable files.  `fuse` is how many more writes the process survives. */
  class NodeFiles {
    ghost const base: Node
    ghost var log: seq<Write>
    const data: Tree
    var identity: Stored<Identity>
    var credential: Stored<Credential>
    var consensus: Stored<Consensus>
    var fuse: nat

    function Now(): Node
      reads this
    {
      Node(identity, credential, consensus, data)
    }

    ghost predicate Valid()
      reads this
    {
      Now() == PerformAll(base, log)
    }

    constructor (n: Node, lifetime: nat)
      ensures Valid() && base == n && Now() == n && log == [] && fuse == lifetime
    {
      base, data, log, fuse := n, n.data, [], lifetime;
      identity, credential, consensus := n.identity, n.credential, n.consensus;
    }

    method Do(w: Write) returns (ok: bool)
      requires Valid()
      modifies this
      ensures Valid()
      ensures ok ==> log == old(log) + [w] && Now() == Perform(old(Now()), w)
      ensures !ok ==> log == old(log) && Now() == old(Now())
    {
      if fuse == 0 {
        return false;
      }
      PerformConcat(base, log, [w]);
      PerformOne(Now(), w);
      var next := Perform(Now(), w);
      identity, credential, consensus := next.identity, next.credential, next.consensus;
      log, fuse, ok := log + [w], fuse - 1, true;
    }
  }

  /** How a start ended: up, refused for a reason, or cut off by a failure underneath. */
  datatype Outcome = Up | Refused(reason: Reason) | Interrupted

  /** The log grew by the plan's writes, all of them unless cut off, and the plan's verdict was given. */
  ghost predicate Kept(before: seq<Write>, now: seq<Write>, plan: Plan, outcome: Outcome) {
    && before <= now <= before + plan.writes
    && (!outcome.Interrupted? ==> now == before + plan.writes)
    && (outcome.Up? ==> plan.refused.None?)
    && (outcome.Refused? ==> plan.refused == Some(outcome.reason))
  }

  /** `start` plus the part of a plan already made. */
  ghost predicate Made(start: seq<Write>, now: seq<Write>, done: seq<Write>) {
    now == start + done
  }

  // ------------------------------------------------------------------ identity

  /** `NodeIdentity::bind`: a bound identity accepts only its own cluster and member. */
  function Bind(i: Identity, cluster: ClusterId, member: nat): (r: Option<Identity>)
    ensures r.Some? ==> r.value == Identity(i.node, Some(cluster), Some(member))
    ensures r.None? <==> i.cluster.Some? && (i.cluster.value != cluster || (i.member.Some? && i.member.value != member))
  {
    match i.cluster
    case Some(existing) =>
      if existing != cluster then None
      else if i.member.Some? && i.member.value != member then None
      else Some(i.(member := Some(member)))
    case None => Some(Identity(i.node, Some(cluster), Some(member)))
  }

  // -------------------------------------------------------------------- guard

  /** `refuse_to_invent_authority`. */
  method RefuseToInventAuthority(os: System, files: NodeFiles, seeds: Seeds, cluster: ClusterId, k: Consensus)
    returns (refused: Option<Reason>)
    requires Lawful(os) && WellFormed(files.data)
    ensures refused == if k.recorded.Some? && k.recorded.value != cluster then Some(ClusterIdentityMismatch)
                       else if k.recorded.None? && seeds.Alone? && Sampled(files.data, 1) > 0
                       then Some(WouldFormSecondCluster)
                       else None
  {
    if k.recorded.Some? && k.recorded.value != cluster {
      return Some(ClusterIdentityMismatch);
    }
    if k.recorded.None? && seeds.Alone? {
      var payloads := StoredPayloadSample(os, files.data, 1);
      if payloads > 0 {
        return Some(WouldFormSecondCluster);
      }
    }
    refused := None;
  }

  /** `bootstrap_cluster`: become the only member, then record the cluster unless one is recorded. */
  method BootstrapCluster(files: NodeFiles, cluster: ClusterId, credential: Credential, ghost start: seq<Write>,
                          ghost before: seq<Write>) returns (outcome: Outcome)
    requires files.Valid() && files.consensus.Whole? && Made(start, files.log, before)
    modifies files
    ensures files.Valid()
    ensures Kept(start, files.log, BootstrapPlan(before, cluster, credential, old(files.consensus.value)), outcome)
  {
    ghost var member := if files.consensus.value.initialized then [] else [InitializeMember];
    var recorded := files.consensus.value.recorded;
    assert before + [] == before;
    if !files.consensus.value.initialized {
      var ok := files.Do(InitializeMember);
      if !ok {
        return Interrupted;
      }
    }
    assert files.log == start + (before + member);
    if recorded.Some? {
      return Up;
    }
    if credential.record.None? {
      return Refused(CredentialRecordMissing);
    }
    var ok := files.Do(InitializeCluster(cluster));
    if !ok {
      return Interrupted;
    }
    assert files.log == start + (before + member + [InitializeCluster(cluster)]);
    outcome := Up;
  }

  /** With a bound identity: open the consensus state, pass the guard, bootstrap when alone. */
  method Resume(os: System, files: NodeFiles, seeds: Seeds, identity: Identity, credential: Option<Credential>,
                ghost n: Node, ghost start: seq<Write>, ghost before: seq<Write>) returns (outcome: Outcome)
    requires Lawful(os) && WellFormed(files.data) && files.Valid() && Made(start, files.log, before)
    requires files.consensus == n.consensus && files.data == n.data
    modifies files
    ensures files.Valid()
    ensures Kept(start, files.log, ResumePlan(n, seeds, before, identity, credential), outcome)
  {
    if identity.member.None? || identity.cluster.None? {
      return Refused(MissingMemberId);
    }
    if credential.None? {
      return Refused(MissingNodeCredential);
    }
    if files.consensus.Corrupt? {
      return Refused(ConsensusUnreadable);
    }
    ghost var open := if n.consensus.Absent? then [CreateConsensus] else [];
    assert before + [] == before;
    if files.consensus.Absent? {
      var ok := files.Do(CreateConsensus);
      if !ok {
        return Interrupted;
      }
    }
    assert files.log == start + (before + open);
    outcome := GuardAndBootstrap(os, files, seeds, identity.cluster.value, credential.value, n, start, before + open);
  }

  method GuardAndBootstrap(os: System, files: NodeFiles, seeds: Seeds, cluster: ClusterId, credential: Credential,
                           ghost n: Node, ghost start: seq<Write>, ghost before: seq<Write>) returns (outcome: Outcome)
    requires Lawful(os) && WellFormed(files.data) && files.Valid() && Made(start, files.log, before)
    requires files.consensus == Whole(Opened(n)) && files.data == n.data
    modifies files
    ensures files.Valid()
    ensures Kept(start, files.log, GuardPlan(n, seeds, before, cluster, credential), outcome)
  {
    var refused := RefuseToInventAuthority(os, files, seeds, cluster, files.consensus.value);
    if refused.Some? {
      return Refused(refused.value);
    }
    if seeds.Seeded? {
      return Up;
    }
    outcome := BootstrapCluster(files, cluster, credential, start, before);
  }

  // ---------------------------------------------------------------- initialize

  /** Binds an identity that is not bound yet and saves the credential that goes with it. */
  method TakeUpCluster(files: NodeFiles, held: Identity, seeds: Seeds, cluster: ClusterId, ghost start: seq<Write>,
                       ghost before: seq<Write>) returns (r: Option<(Identity, Credential)>)
    requires files.Valid() && held.cluster.None? && seeds != Seeded(None) && Made(start, files.log, before)
    modifies files
    ensures files.Valid() && files.consensus == old(files.consensus)
    ensures var c := if seeds.Alone? then cluster else seeds.joined.value.0;
            var m := if seeds.Alone? then 1 else seeds.joined.value.1;
            var bound := Identity(held.node, Some(c), Some(m));
            var issued := Credential(if seeds.Alone? then Some(held.node) else None);
            var bind := if seeds.Alone? then BindMinted(bound) else BindJoined(bound);
            && start <= files.log <= start + (before + [bind, SaveCredential(issued)])
            && (r.Some? ==>
                  r.value == (bound, issued) && Made(start, files.log, before + [bind, SaveCredential(issued)]))
  {
    var joined := if seeds.Alone? then (cluster, 1) else seeds.joined.value;
    var bound := Bind(held, joined.0, joined.1).value;
    var issued := Credential(if seeds.Alone? then Some(held.node) else None);
    var bind := if seeds.Alone? then BindMinted(bound) else BindJoined(bound);
    assert start + (before + [bind, SaveCredential(issued)]) == files.log + [bind, SaveCredential(issued)];
    var ok := files.Do(bind);
    if !ok {
      return None;
    }
    ok := files.Do(SaveCredential(issued));
    if !ok {
      return None;
    }
    r := Some((bound, issued));
  }

  /**
   * `initialize`, up to the point where nothing durable is decided any more: it
   * keeps to the plan, and if the node comes up it is under its own cluster.
   */
  method Initialize(os: System, files: NodeFiles, seeds: Seeds, node: NodeId, cluster: ClusterId)
    returns (outcome: Outcome)
    requires Lawful(os) && WellFormed(files.data) && files.Valid()
    modifies files
    ensures files.Valid()
    ensures Kept(old(files.log), files.log, StartPlan(old(files.Now()), seeds, node, cluster), outcome)
    ensures outcome.Up? ==> Resumes(files.Now(), seeds) && LeftBy(old(files.Now()), seeds, node, cluster, files.Now())
    ensures outcome.Refused? ==> Because(old(files.Now()), seeds, node, cluster, outcome.reason)
    ensures (exists c :: InitializeCluster(c) in files.log[|old(files.log)|..]) ==> MayForm(old(files.Now()), seeds)
  {
    ghost var start, n := files.log, files.Now();
    outcome := RunStart(os, files, seeds, node, cluster);
    ghost var plan := StartPlan(n, seeds, node, cluster);
    if outcome.Up? {
      PerformConcat(files.base, start, plan.writes);
      ComesUpUnderItsOwnName(n, seeds, node, cluster);
      LeavesExactly(n, seeds, node, cluster);
    } else if outcome.Refused? {
      RefusedExactly(n, seeds, node, cluster, outcome.reason);
    }
    ghost var done := files.log[|start|..];
    assert forall w :: w in done ==> w in plan.writes by {
      assert done <= (start + plan.writes)[|start|..] == plan.writes;
    }
    forall c | InitializeCluster(c) in done ensures MayForm(n, seeds) {
      FormsOnlyWhenFree(n, seeds, node, cluster, c);
    }
  }

  method RunStart(os: System, files: NodeFiles, seeds: Seeds, node: NodeId, cluster: ClusterId)
    returns (outcome: Outcome)
    requires Lawful(os) && WellFormed(files.data) && files.Valid()
    modifies files
    ensures files.Valid()
    ensures Kept(old(files.log), files.log, StartPlan(old(files.Now()), seeds, node, cluster), outcome)
  {
    ghost var start, n := files.log, files.Now();
    if files.identity.Absent? && !files.consensus.Absent? {
      return Refused(IdentityLost);
    }
    if files.identity.Corrupt? {
      return Refused(IdentityUnreadable);
    }
    var held := Held(files.Now(), node);
    ghost var before := if n.identity.Absent? then [CreateIdentity(held)] else [];
    var credential := files.credential;
    ghost var plan := StartPlan(n, seeds, node, cluster);
    if files.identity.Absent? {
      var ok := files.Do(CreateIdentity(held));
      if !ok {
        return Interrupted;
      }
    }
    assert Made(start, files.log, before);
    if credential.Corrupt? {
      return Refused(CredentialMalformed);
    }
    if held.cluster.Some? {
      var issued := if credential.Whole? then Some(credential.value) else None;
      outcome := Resume(os, files, seeds, held, issued, n, start, before);
      return;
    }
    if seeds == Seeded(None) {
      return Refused(JoinFailed);
    }
    outcome := TakeUpAndResume(os, files, held, seeds, cluster, n, start, before);
  }

  method TakeUpAndResume(os: System, files: NodeFiles, held: Identity, seeds: Seeds, cluster: ClusterId, ghost n: Node,
                         ghost start: seq<Write>, ghost before: seq<Write>) returns (outcome: Outcome)
    requires Lawful(os) && WellFormed(files.data) && files.Valid() && Made(start, files.log, before)
    requires held.cluster.None? && seeds != Seeded(None) && files.consensus == n.consensus && files.data == n.data
    modifies files
    ensures files.Valid()
    ensures var c := if seeds.Alone? then cluster else seeds.joined.value.0;
            var m := if seeds.Alone? then 1 else seeds.joined.value.1;
            var bound := Identity(held.node, Some(c), Some(m));
            var issued := Credential(if seeds.Alone? then Some(held.node) else None);
            var bind := if seeds.Alone? then BindMinted(bound) else BindJoined(bound);
            Kept(start, files.log,
                 ResumePlan(n, seeds, before + [bind, SaveCredential(issued)], bound, Some(issued)), outcome)
  {
    ghost var joined := if seeds.Alone? then (cluster, 1) else seeds.joined.value;
    ghost var bound := Identity(held.node, Some(joined.0), Some(joined.1));
    ghost var issued := Credential(if seeds.Alone? then Some(held.node) else None);
    ghost var bind := if seeds.Alone? then BindMinted(bound) else BindJoined(bound);
    ghost var head := before + [bind, SaveCredential(issued)];
    var taken := TakeUpCluster(files, held, seeds, cluster, start, before);
    if taken.None? {
      ghost var tail := ResumeTail(n, seeds, head, bound, Some(issued));
      assert start + (head + tail) == (start + head) + tail;
      return Interrupted;
    }
    outcome := Resume(os, files, seeds, taken.value.0, Some(taken.value.1), n, start, head);
  }
}
