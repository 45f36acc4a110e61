/**
 * Whether a node comes up again: of every state of its files, and after a start
 * that was cut off anywhere, exactly when the next one is not refused.
 */
module ClusterRestarts {
  import opened Wrappers
  import opened Sequences
  import opened PayloadSample
  import opened ClusterGuard

  predicate IsBound(n: Node) {
    n.identity.Whole? && n.identity.value.cluster.Some?
  }

  // --------------------------------------------------------------- any state

  /** The cluster a start goes for: the identity's own, or the one it mints or joins. */
  function Aim(n: Node, seeds: Seeds, node: NodeId, cluster: ClusterId): Option<ClusterId> {
    if Held(n, node).cluster.Some? then Held(n, node).cluster
    else
      match seeds
      case Alone => Some(cluster)
      case Seeded(joined) => if joined.Some? then Some(joined.value.0) else None
  }

  /**
   * A start comes up exactly when it gets past its checks, has a cluster to go
   * for, finds no other one recorded and, with no one to ask and nothing recorded,
   * finds no payload and does not hold a bound identity without a credential
   * issued here.
   */
  lemma ComesUpExactly(n: Node, seeds: Seeds, node: NodeId, cluster: ClusterId)
    ensures StartPlan(n, seeds, node, cluster).refused.None? <==>
            && GetsToGuard(n, node) && Aim(n, seeds, node, cluster).Some?
            && (Opened(n).recorded.Some? ==> Opened(n).recorded == Aim(n, seeds, node, cluster))
            && (seeds.Alone? && Opened(n).recorded.None? ==>
                  !HoldsPayloads(n) && (Held(n, node).cluster.Some? ==> n.credential.value.record.Some?))
  {
  }

  /** Why a start is refused, the first of several reasons that stands in its way. */
  ghost predicate Because(n: Node, seeds: Seeds, node: NodeId, cluster: ClusterId, reason: Reason) {
    var held, k := Held(n, node), Opened(n);
    var bound := held.cluster.Some?;
    var named := !n.identity.Corrupt? && !(n.identity.Absent? && !n.consensus.Absent?);
    var entered := named && !n.credential.Corrupt?;
    var armed := entered && (bound ==> held.member.Some? && n.credential.Whole?) && (!bound ==> seeds != Seeded(None));
    var aim := Aim(n, seeds, node, cluster);
    match reason
    case IdentityLost => n.identity.Absent? && !n.consensus.Absent?
    case IdentityUnreadable => n.identity.Corrupt?
    case CredentialMalformed => named && n.credential.Corrupt?
    case JoinFailed => entered && !bound && seeds == Seeded(None)
    case MissingMemberId => entered && bound && held.member.None?
    case MissingNodeCredential => entered && bound && held.member.Some? && n.credential.Absent?
    case ConsensusUnreadable => armed && n.consensus.Corrupt?
    case ClusterIdentityMismatch => armed && !n.consensus.Corrupt? && k.recorded.Some? && k.recorded != aim
    case WouldFormSecondCluster =>
      armed && !n.consensus.Corrupt? && k.recorded.None? && seeds.Alone? && HoldsPayloads(n)
    case CredentialRecordMissing =>
      && armed && !n.consensus.Corrupt? && k.recorded.None? && seeds.Alone? && !HoldsPayloads(n)
      && bound && n.credential.value.record.None?
  }

  /** The reason a start gives is the one there is. */
  lemma RefusedExactly(n: Node, seeds: Seeds, node: NodeId, cluster: ClusterId, reason: Reason)
    ensures StartPlan(n, seeds, node, cluster).refused == Some(reason) <==> Because(n, seeds, node, cluster, reason)
  {
  }

  /** The member a node is: as its identity says, the first if it mints, or what joining came to. */
  function MemberOf(n: Node, seeds: Seeds, node: NodeId): Option<nat> {
    if Held(n, node).cluster.Some? then Held(n, node).member
    else
      match seeds
      case Alone => Some(1)
      case Seeded(joined) => if joined.Some? then Some(joined.value.1) else None
  }

  /**
   * What a start that comes up leaves: the identity bound to the cluster it went
   * for, the credential it found or was given, and the consensus state opened,
   * with this node in it and a cluster recorded if it had no one to ask.
   */
  ghost predicate LeftBy(n: Node, seeds: Seeds, node: NodeId, cluster: ClusterId, u: Node) {
    var held, k, aim := Held(n, node), Opened(n), Aim(n, seeds, node, cluster);
    && u.data == n.data
    && u.identity == Whole(Identity(held.node, aim, MemberOf(n, seeds, node)))
    && u.credential == (if held.cluster.Some? then n.credential
                        else Whole(Credential(if seeds.Alone? then Some(held.node) else None)))
    && u.consensus == Whole(Consensus(k.initialized || seeds.Alone?, if seeds.Alone? then aim else k.recorded))
  }

  lemma LeavesExactly(n: Node, seeds: Seeds, node: NodeId, cluster: ClusterId)
    requires StartPlan(n, seeds, node, cluster).refused.None?
    ensures LeftBy(n, seeds, node, cluster, PerformAll(n, StartPlan(n, seeds, node, cluster).writes))
  {
    ComesUpExactly(n, seeds, node, cluster);
    var held := Held(n, node);
    if held.cluster.Some? {
      TailLeaves(n, n, seeds, held, n.credential.value);
      var tail := TailOf(n, seeds, held, Some(n.credential.value));
      assert [] + tail == tail;
    } else {
      UnboundPlan(n, seeds, node, cluster);
      var bound, issued := BoundBy(n, seeds, node, cluster), IssuedBy(n, seeds, node);
      var ops := BindOps(n, node, BindOf(seeds, bound), issued);
      BindLeaves(n, seeds, node, cluster);
      PerformConcat(n, ops, TailOf(n, seeds, bound, Some(issued)));
      TailLeaves(n, PerformAll(n, ops), seeds, bound, issued);
    }
  }

  lemma BindLeaves(n: Node, seeds: Seeds, node: NodeId, cluster: ClusterId)
    requires Held(n, node).cluster.None? && seeds != Seeded(None) && !n.identity.Corrupt?
    ensures var bound, issued := BoundBy(n, seeds, node, cluster), IssuedBy(n, seeds, node);
            PerformAll(n, BindOps(n, node, BindOf(seeds, bound), issued)) ==
            n.(identity := Whole(bound), credential := Whole(issued))
  {
    var bound, issued := BoundBy(n, seeds, node, cluster), IssuedBy(n, seeds, node);
    var bind := BindOf(seeds, bound);
    var create := if n.identity.Absent? then [CreateIdentity(Held(n, node))] else [];
    PerformConcat(n, create, [bind, SaveCredential(issued)]);
    var u := PerformAll(n, create);
    assert [bind, SaveCredential(issued)] == [bind] + [SaveCredential(issued)];
    PerformConcat(u, [bind], [SaveCredential(issued)]);
    PerformOne(u, bind);
    PerformOne(Perform(u, bind), SaveCredential(issued));
    if n.identity.Absent? {
      PerformOne(n, CreateIdentity(Held(n, node)));
    }
  }

  /** From the bound identity on: only the consensus state changes. */
  lemma TailLeaves(n: Node, u: Node, seeds: Seeds, identity: Identity, credential: Credential)
    requires u.consensus == n.consensus && ResumePlan(n, seeds, [], identity, Some(credential)).refused.None?
    ensures var k := Opened(n);
            PerformAll(u, TailOf(n, seeds, identity, Some(credential))) ==
            u.(consensus := Whole(Consensus(k.initialized || seeds.Alone?,
                                            if seeds.Alone? then identity.cluster else k.recorded)))
  {
    var k := Opened(n);
    var open := if n.consensus.Absent? then [CreateConsensus] else [];
    var member := if seeds.Seeded? || k.initialized then [] else [InitializeMember];
    var record := if seeds.Seeded? || k.recorded.Some? then [] else [InitializeCluster(identity.cluster.value)];
    var tail := TailOf(n, seeds, identity, Some(credential));
    assert [] + open == open;
    assert tail == open + member + record;
    PerformConcat(u, open + member, record);
    PerformConcat(u, open, member);
    PerformOne(u, CreateConsensus);
    var v := PerformAll(u, open);
    assert v == u.(consensus := Whole(k));
    PerformOne(v, InitializeMember);
    var w := PerformAll(v, member);
    assert w == u.(consensus := Whole(k.(initialized := k.initialized || seeds.Alone?)));
    if record != [] {
      PerformOne(w, InitializeCluster(identity.cluster.value));
    }
  }

  // --------------------------------------------------------- what a start keeps

  /** What a start that is not refused finds, and keeps with every write it makes. */
  ghost predicate Neat(n: Node) {
    && !n.identity.Corrupt? && !n.credential.Corrupt? && !n.consensus.Corrupt?
    && (n.identity.Absent? ==> n.consensus.Absent?)
    && (IsBound(n) ==> n.identity.value.member.Some?)
    && (IsBound(n) && Opened(n).recorded.Some? ==> Opened(n).recorded == n.identity.value.cluster)
  }

  /** A write that keeps it. */
  ghost predicate Tidy(n: Node, w: Write) {
    match w
    case CreateIdentity(i) => n.identity.Absent? && i.cluster.None?
    case BindMinted(i) => CanBind(n, i)
    case BindJoined(i) => CanBind(n, i)
    case CreateConsensus => n.consensus.Absent? && n.identity.Whole?
    case InitializeCluster(c) => IsBound(n) && n.identity.value.cluster == Some(c) && n.consensus.Whole?
    case _ => true
  }

  ghost predicate CanBind(n: Node, i: Identity) {
    && n.identity.Whole? && !IsBound(n) && i.cluster.Some? && i.member.Some?
    && (Opened(n).recorded.Some? ==> Opened(n).recorded == i.cluster)
  }

  ghost predicate TidyAll(n: Node, writes: seq<Write>)
    decreases |writes|
  {
    writes == [] || (Tidy(n, writes[0]) && TidyAll(Perform(n, writes[0]), writes[1..]))
  }

  lemma {:induction false} TidyPrefix(n: Node, writes: seq<Write>, k: nat)
    requires TidyAll(n, writes) && k <= |writes|
    ensures TidyAll(n, writes[..k])
    decreases |writes|
  {
    if k > 0 {
      assert writes[..k][0] == writes[0] && writes[..k][1..] == writes[1..][..k - 1];
      TidyPrefix(Perform(n, writes[0]), writes[1..], k - 1);
    }
  }

  lemma {:induction false} TidyKeepsNeat(n: Node, writes: seq<Write>)
    requires Neat(n) && TidyAll(n, writes)
    ensures Neat(PerformAll(n, writes))
    decreases |writes|
  {
    if writes != [] {
      TidyKeepsNeat(Perform(n, writes[0]), writes[1..]);
    }
  }

  lemma {:induction false} TidyConcat(n: Node, a: seq<Write>, b: seq<Write>)
    requires TidyAll(n, a) && TidyAll(PerformAll(n, a), b)
    ensures TidyAll(n, a + b)
    decreases |a|
  {
    if a == [] {
      assert a + b == b;
    } else {
      assert (a + b)[0] == a[0] && (a + b)[1..] == a[1..] + b;
      TidyConcat(Perform(n, a[0]), a[1..], b);
    }
  }

  lemma TidyOne(n: Node, w: Write)
    requires Tidy(n, w)
    ensures TidyAll(n, [w]) && PerformAll(n, [w]) == Perform(n, w)
  {
    PerformOne(n, w);
    assert [w][1..] == [];
  }

  // ------------------------------------------------------------ the plan is tidy

  lemma BootstrapTidy(n: Node, cluster: ClusterId, credential: Credential)
    requires n.consensus.Whole? && IsBound(n) && n.identity.value.cluster == Some(cluster)
    ensures TidyAll(n, BootstrapPlan([], cluster, credential, n.consensus.value).writes)
  {
    var k := n.consensus.value;
    var member := if k.initialized then [] else [InitializeMember];
    if !k.initialized {
      TidyOne(n, InitializeMember);
    }
    assert [] + member == member;
    if k.recorded.None? && credential.record.Some? {
      TidyOne(PerformAll(n, member), InitializeCluster(cluster));
      TidyConcat(n, member, [InitializeCluster(cluster)]);
    }
  }

  /** What is written after the identity is in order, by itself. */
  ghost function TailOf(n: Node, seeds: Seeds, identity: Identity, credential: Option<Credential>): seq<Write> {
    ResumePlan(n, seeds, [], identity, credential).writes
  }

  lemma TailFollows(n: Node, seeds: Seeds, before: seq<Write>, identity: Identity, credential: Option<Credential>)
    ensures ResumePlan(n, seeds, before, identity, credential).writes == before + TailOf(n, seeds, identity, credential)
  {
  }

  lemma TailTidy(n: Node, u: Node, seeds: Seeds, identity: Identity, credential: Option<Credential>)
    requires u.identity == Whole(identity) && u.consensus == n.consensus
    ensures TidyAll(u, TailOf(n, seeds, identity, credential))
  {
    if identity.member.Some? && identity.cluster.Some? && credential.Some? && !n.consensus.Corrupt? {
      var open := if n.consensus.Absent? then [CreateConsensus] else [];
      var v := PerformAll(u, open);
      if n.consensus.Absent? {
        TidyOne(u, CreateConsensus);
      }
      assert [] + open == open;
      var boot := BootstrapPlan([], identity.cluster.value, credential.value, Opened(n)).writes;
      BootstrapTidy(v, identity.cluster.value, credential.value);
      TidyConcat(u, open, boot);
      assert TailOf(n, seeds, identity, credential) == open
             || TailOf(n, seeds, identity, credential) == open + boot;
    }
  }

  /** Binding and saving, with the identity on file. */
  lemma BindTidy(n: Node, bind: Write, credential: Credential)
    requires (bind.BindMinted? || bind.BindJoined?) && CanBind(n, bind.identity)
    ensures TidyAll(n, [bind, SaveCredential(credential)])
  {
    TidyOne(n, bind);
    TidyOne(Perform(n, bind), SaveCredential(credential));
    TidyConcat(n, [bind], [SaveCredential(credential)]);
    assert [bind] + [SaveCredential(credential)] == [bind, SaveCredential(credential)];
  }

  /** What an unbound node writes first. */
  function BindOps(n: Node, node: NodeId, bind: Write, credential: Credential): seq<Write> {
    (if n.identity.Absent? then [CreateIdentity(Held(n, node))] else []) + [bind, SaveCredential(credential)]
  }

  function BindOf(seeds: Seeds, bound: Identity): Write {
    if seeds.Alone? then BindMinted(bound) else BindJoined(bound)
  }

  /** The identity and the credential an unbound node takes up. */
  function BoundBy(n: Node, seeds: Seeds, node: NodeId, cluster: ClusterId): Identity
    requires seeds != Seeded(None)
  {
    match seeds
    case Alone => Identity(Held(n, node).node, Some(cluster), Some(1))
    case Seeded(joined) => Identity(Held(n, node).node, Some(joined.value.0), Some(joined.value.1))
  }

  function IssuedBy(n: Node, seeds: Seeds, node: NodeId): Credential {
    if seeds.Alone? then Credential(Some(Held(n, node).node)) else Credential(None)
  }

  /** An unbound node's plan: create, bind, save, and then as a bound one. */
  lemma UnboundPlan(n: Node, seeds: Seeds, node: NodeId, cluster: ClusterId)
    requires Held(n, node).cluster.None? && StartPlan(n, seeds, node, cluster).refused.None?
    ensures seeds != Seeded(None)
    ensures var bound, issued := BoundBy(n, seeds, node, cluster), IssuedBy(n, seeds, node);
            StartPlan(n, seeds, node, cluster).writes ==
            BindOps(n, node, BindOf(seeds, bound), issued) + TailOf(n, seeds, bound, Some(issued))
  {
    var bound, issued := BoundBy(n, seeds, node, cluster), IssuedBy(n, seeds, node);
    TailFollows(n, seeds, BindOps(n, node, BindOf(seeds, bound), issued), bound, Some(issued));
  }

  lemma BindOpsTidy(n: Node, node: NodeId, bind: Write, credential: Credential)
    requires Neat(n) && !IsBound(n) && (bind.BindMinted? || bind.BindJoined?)
    requires bind.identity.cluster.Some? && bind.identity.member.Some?
    requires Opened(n).recorded.Some? ==> Opened(n).recorded == bind.identity.cluster
    ensures TidyAll(n, BindOps(n, node, bind, credential))
    ensures var u := PerformAll(n, BindOps(n, node, bind, credential));
            u.identity == Whole(bind.identity) && u.consensus == n.consensus
  {
    var create := CreateIdentity(Held(n, node));
    IdentityWritten(n, Held(n, node), bind, credential);
    assert [create] + [bind, SaveCredential(credential)] == [create, bind, SaveCredential(credential)];
    assert [] + [bind, SaveCredential(credential)] == [bind, SaveCredential(credential)];
    if n.identity.Absent? {
      TidyOne(n, create);
      BindTidy(Perform(n, create), bind, credential);
      TidyConcat(n, [create], [bind, SaveCredential(credential)]);
    } else {
      BindTidy(n, bind, credential);
    }
  }

  /** A start that is not refused found everything neat, and keeps it so write by write. */
  lemma PlanTidy(n: Node, seeds: Seeds, node: NodeId, cluster: ClusterId)
    requires StartPlan(n, seeds, node, cluster).refused.None?
    ensures Neat(n) && TidyAll(n, StartPlan(n, seeds, node, cluster).writes)
  {
    ComesUpExactly(n, seeds, node, cluster);
    var held := Held(n, node);
    if held.cluster.Some? {
      TailFollows(n, seeds, [], held, Some(n.credential.value));
      TailTidy(n, n, seeds, held, Some(n.credential.value));
    } else {
      var bound, issued := BoundBy(n, seeds, node, cluster), IssuedBy(n, seeds, node);
      var bind := BindOf(seeds, bound);
      UnboundPlan(n, seeds, node, cluster);
      BindOpsTidy(n, node, bind, issued);
      var u := PerformAll(n, BindOps(n, node, bind, issued));
      TailTidy(n, u, seeds, bound, Some(issued));
      TidyConcat(n, BindOps(n, node, bind, issued), TailOf(n, seeds, bound, Some(issued)));
    }
  }

  // ----------------------------------------------------------- starting again

  /** Bound, and without the credential it takes to come up. */
  ghost predicate Stuck(n: Node, seeds: Seeds) {
    && IsBound(n)
    && (n.credential.Absent?
        || (&& seeds.Alone? && Opened(n).recorded.None?
            && n.credential.Whole? && n.credential.value.record.None?))
  }

  /** Nothing else in the way: no payloads to be left behind, no record of another cluster. */
  ghost predicate Clear(n: Node, seeds: Seeds, cluster: ClusterId) {
    match seeds
    case Alone =>
      if Opened(n).recorded.None? then !HoldsPayloads(n)
      else IsBound(n) || Opened(n).recorded == Some(cluster)
    case Seeded(joined) =>
      IsBound(n) || (joined.Some? && (Opened(n).recorded.Some? ==> Opened(n).recorded == Some(joined.value.0)))
  }

  lemma NeatRestarts(n: Node, seeds: Seeds, node: NodeId, cluster: ClusterId)
    requires Neat(n)
    ensures StartPlan(n, seeds, node, cluster).refused.None? <==> !Stuck(n, seeds) && Clear(n, seeds, cluster)
  {
    ComesUpExactly(n, seeds, node, cluster);
  }

  /**
   * A start that was not refused is cut off anywhere.  The next one, with or
   * without seeds, comes up exactly when it does not find an identity bound
   * without the credential it takes, nor anything else in the way.
   */
  lemma CutStartRestarts(n: Node, seeds: Seeds, node: NodeId, cluster: ClusterId, k: nat,
                         seeds': Seeds, node': NodeId, cluster': ClusterId)
    requires StartPlan(n, seeds, node, cluster).refused.None? && k <= |StartPlan(n, seeds, node, cluster).writes|
    ensures var u := PerformAll(n, StartPlan(n, seeds, node, cluster).writes[..k]);
            StartPlan(u, seeds', node', cluster').refused.None? <==> !Stuck(u, seeds') && Clear(u, seeds', cluster')
  {
    var writes := StartPlan(n, seeds, node, cluster).writes;
    PlanTidy(n, seeds, node, cluster);
    TidyPrefix(n, writes, k);
    TidyKeepsNeat(n, writes[..k]);
    NeatRestarts(PerformAll(n, writes[..k]), seeds', node', cluster');
  }

  // ------------------------------------------------- told from before, and the cut

  predicate Binds(writes: seq<Write>) {
    exists w :: w in writes && (w.BindMinted? || w.BindJoined?)
  }

  predicate Saves(writes: seq<Write>) {
    exists w :: w in writes && w.SaveCredential?
  }

  lemma {:induction false} Tracked(n: Node, writes: seq<Write>)
    requires TidyAll(n, writes)
    ensures PerformAll(n, writes).data == n.data
    ensures IsBound(PerformAll(n, writes)) <==> IsBound(n) || Binds(writes)
    ensures !Saves(writes) ==> PerformAll(n, writes).credential == n.credential
    ensures !Forms(writes) ==> Opened(PerformAll(n, writes)).recorded == Opened(n).recorded
    ensures Opened(PerformAll(n, writes)).recorded.None? ==> Opened(n).recorded.None?
    decreases |writes|
  {
    if writes != [] {
      var first, rest := writes[0], writes[1..];
      assert forall w :: w in writes <==> w == first || w in rest;
      Tracked(Perform(n, first), rest);
      assert Binds(writes) <==> first.BindMinted? || first.BindJoined? || Binds(rest);
      assert Saves(writes) <==> first.SaveCredential? || Saves(rest);
      assert first.InitializeCluster? ==> InitializeCluster(first.cluster) in writes;
      assert Forms(rest) ==> Forms(writes);
    }
  }

  lemma {:induction false} SavedLast(n: Node, writes: seq<Write>, c: Credential)
    requires forall w :: w in writes && w.SaveCredential? ==> w.credential == c
    requires Saves(writes)
    ensures PerformAll(n, writes).credential == Whole(c)
    decreases |writes|
  {
    var first, rest := writes[0], writes[1..];
    assert forall w :: w in writes <==> w == first || w in rest;
    if Saves(rest) {
      SavedLast(Perform(n, first), rest, c);
    } else {
      NoSave(Perform(n, first), rest);
    }
  }

  lemma {:induction false} NoSave(n: Node, writes: seq<Write>)
    requires !Saves(writes)
    ensures PerformAll(n, writes).credential == n.credential
    decreases |writes|
  {
    if writes != [] {
      assert forall w :: w in writes[1..] ==> w in writes;
      assert writes[0] in writes;
      NoSave(Perform(n, writes[0]), writes[1..]);
    }
  }

  lemma TailIsConsensus(n: Node, seeds: Seeds, identity: Identity, credential: Option<Credential>)
    ensures ConsensusOnly(TailOf(n, seeds, identity, credential))
  {
    var tail := ResumeTail(n, seeds, [], identity, credential);
    assert [] + tail == tail;
  }

  /** A bound node's start neither binds nor saves. */
  lemma BoundCut(n: Node, seeds: Seeds, node: NodeId, cluster: ClusterId, done: seq<Write>)
    requires IsBound(n) && StartPlan(n, seeds, node, cluster).refused.None?
    requires done <= StartPlan(n, seeds, node, cluster).writes
    ensures !Binds(done) && !Saves(done)
  {
    ComesUpExactly(n, seeds, node, cluster);
    var held := Held(n, node);
    TailFollows(n, seeds, [], held, Some(n.credential.value));
    TailIsConsensus(n, seeds, held, Some(n.credential.value));
    assert forall w :: w in done ==> w in StartPlan(n, seeds, node, cluster).writes;
  }

  /** An unbound node's start forms nothing before it has saved, and saves nothing before it has bound. */
  lemma UnboundCut(n: Node, seeds: Seeds, node: NodeId, cluster: ClusterId, done: seq<Write>)
    requires Held(n, node).cluster.None? && StartPlan(n, seeds, node, cluster).refused.None?
    requires done <= StartPlan(n, seeds, node, cluster).writes
    ensures Saves(done) ==> Binds(done)
    ensures !Saves(done) ==> !Forms(done)
    ensures forall w :: w in done && w.SaveCredential? ==> w.credential == IssuedBy(n, seeds, node)
  {
    UnboundPlan(n, seeds, node, cluster);
    var bound, issued := BoundBy(n, seeds, node, cluster), IssuedBy(n, seeds, node);
    TailIsConsensus(n, seeds, bound, Some(issued));
    PartsCut(n, node, BindOf(seeds, bound), issued, TailOf(n, seeds, bound, Some(issued)), done);
  }

  lemma PartsCut(n: Node, node: NodeId, bind: Write, issued: Credential, tail: seq<Write>, done: seq<Write>)
    requires (bind.BindMinted? || bind.BindJoined?) && ConsensusOnly(tail)
    requires done <= BindOps(n, node, bind, issued) + tail
    ensures Saves(done) ==> Binds(done)
    ensures !Saves(done) ==> !Forms(done)
    ensures forall w :: w in done && w.SaveCredential? ==> w.credential == issued
  {
    var head := BindOps(n, node, bind, issued);
    PrefixSplit(done, head, tail);
    if done <= head {
      HeadCut(n, node, bind, issued, done);
    } else {
      HeadCut(n, node, bind, issued, head);
      assert forall w :: w in head ==> w in done;
      assert forall w :: w in done ==> w in head || w in tail;
    }
  }

  lemma HeadCut(n: Node, node: NodeId, bind: Write, issued: Credential, done: seq<Write>)
    requires (bind.BindMinted? || bind.BindJoined?) && done <= BindOps(n, node, bind, issued)
    ensures Saves(done) ==> Binds(done)
    ensures done == BindOps(n, node, bind, issued) ==> Saves(done)
    ensures forall w :: w in done ==> w.CreateIdentity? || w == bind || w == SaveCredential(issued)
  {
    var head := BindOps(n, node, bind, issued);
    var create := if n.identity.Absent? then [CreateIdentity(Held(n, node))] else [];
    assert head == create + [bind, SaveCredential(issued)];
    assert |head| == |create| + 2 && head[|create|] == bind && head[|create| + 1] == SaveCredential(issued);
    assert forall w :: w in done ==> w in head;
    assert |done| > |create| ==> done[|create|] == bind && bind in done;
    assert |done| == |head| ==> done[|create| + 1] == SaveCredential(issued) && SaveCredential(issued) in done;
    assert |done| <= |create| ==> forall w :: w in done ==> w in create;
  }

  /** What the files come to, told from what they were and which writes were made. */
  lemma CutState(n: Node, seeds: Seeds, node: NodeId, cluster: ClusterId, k: nat, done: seq<Write>, u: Node)
    requires StartPlan(n, seeds, node, cluster).refused.None? && k <= |StartPlan(n, seeds, node, cluster).writes|
    requires done == StartPlan(n, seeds, node, cluster).writes[..k] && u == PerformAll(n, done)
    ensures Neat(n) && u.data == n.data && (IsBound(u) <==> IsBound(n) || Binds(done))
    ensures u.credential == if Saves(done) then Whole(IssuedBy(n, seeds, node)) else n.credential
    ensures if IsBound(n) then !Binds(done) && !Saves(done) else Saves(done) ==> Binds(done)
    ensures !IsBound(n) && !Saves(done) ==> Opened(u).recorded == Opened(n).recorded
    ensures Opened(u).recorded.None? ==> Opened(n).recorded.None?
  {
    PlanTidy(n, seeds, node, cluster);
    TidyPrefix(n, StartPlan(n, seeds, node, cluster).writes, k);
    Tracked(n, done);
    if IsBound(n) {
      BoundCut(n, seeds, node, cluster, done);
    } else {
      UnboundCut(n, seeds, node, cluster, done);
      if Saves(done) {
        SavedLast(n, done, IssuedBy(n, seeds, node));
      }
    }
  }

  /** Cut off after binding, before saving. */
  predicate Between(done: seq<Write>) {
    Binds(done) && !Saves(done)
  }

  /** Not the credential a start without seeds takes: none at all or, nothing being recorded, one from a join. */
  ghost predicate AloneNeedsMore(n: Node) {
    || n.credential.Absent?
    || (n.credential.Whole? && n.credential.value.record.None? && Opened(n).recorded.None?)
  }

  /**
   * The same told from what there was before: a first start without seeds, cut
   * off anywhere, is followed by one that comes up exactly unless it was cut off
   * between binding and saving, with no credential on file or, nothing being
   * recorded, one from a join.  (Should a record have got beside an unbound
   * identity, it must be of the cluster that is minted.)
   */
  lemma CutAloneRestarts(n: Node, node: NodeId, cluster: ClusterId, k: nat, node': NodeId, cluster': ClusterId)
    requires StartPlan(n, Alone, node, cluster).refused.None? && k <= |StartPlan(n, Alone, node, cluster).writes|
    ensures Neat(n)
    ensures var done := StartPlan(n, Alone, node, cluster).writes[..k];
            StartPlan(PerformAll(n, done), Alone, node', cluster').refused.None? <==>
            && !(Between(done) && AloneNeedsMore(n))
            && (!IsBound(n) && !Binds(done) && Opened(n).recorded.Some? ==> cluster' == cluster)
  {
    var done := StartPlan(n, Alone, node, cluster).writes[..k];
    CutState(n, Alone, node, cluster, k, done, PerformAll(n, done));
    ComesUpExactly(n, Alone, node, cluster);
    CutStartRestarts(n, Alone, node, cluster, k, Alone, node', cluster');
  }

  /** After a start cut off at `k`, one without seeds comes up. */
  ghost predicate RestartsAfter(n: Node, node: NodeId, cluster: ClusterId, k: nat, node': NodeId, cluster': ClusterId)
    requires k <= |StartPlan(n, Alone, node, cluster).writes|
  {
    StartPlan(PerformAll(n, StartPlan(n, Alone, node, cluster).writes[..k]), Alone, node', cluster').refused.None?
  }

  /** An unbound node's start can be cut off between binding and saving. */
  lemma BetweenIsThere(n: Node, node: NodeId, cluster: ClusterId) returns (k: nat)
    requires !IsBound(n) && StartPlan(n, Alone, node, cluster).refused.None?
    ensures k <= |StartPlan(n, Alone, node, cluster).writes| && Between(StartPlan(n, Alone, node, cluster).writes[..k])
  {
    UnboundPlan(n, Alone, node, cluster);
    var writes := StartPlan(n, Alone, node, cluster).writes;
    k := if n.identity.Absent? then 2 else 1;
    var done := writes[..k];
    assert done[k - 1] == BindMinted(BoundBy(n, Alone, node, cluster)) && done[k - 1] in done;
    assert forall w :: w in done ==> w == writes[0] || w == done[k - 1];
  }

  /**
   * Whether a start without seeds can be run again wherever it is cut off is
   * decided before it: the identity is bound already, or there is an older
   * credential, one issued here unless a cluster is recorded.
   */
  lemma AlwaysRestartsExactly(n: Node, node: NodeId, cluster: ClusterId, node': NodeId, cluster': ClusterId)
    requires StartPlan(n, Alone, node, cluster).refused.None?
    ensures (forall k: nat :: k <= |StartPlan(n, Alone, node, cluster).writes| ==>
                                RestartsAfter(n, node, cluster, k, node', cluster')) <==>
            IsBound(n)
            || (n.credential.Whole? && if Opened(n).recorded.None? then n.credential.value.record.Some?
                                       else cluster' == cluster)
  {
    forall k: nat | k <= |StartPlan(n, Alone, node, cluster).writes|
      ensures RestartsAfter(n, node, cluster, k, node', cluster') <==>
              && !(Between(StartPlan(n, Alone, node, cluster).writes[..k]) && AloneNeedsMore(n))
              && (!IsBound(n) && !Binds(StartPlan(n, Alone, node, cluster).writes[..k]) ==>
                    (Opened(n).recorded.Some? ==> cluster' == cluster))
    {
      CutAloneRestarts(n, node, cluster, k, node', cluster');
    }
    CutAloneRestarts(n, node, cluster, 0, node', cluster');
    if IsBound(n) {
      forall k: nat | k <= |StartPlan(n, Alone, node, cluster).writes|
        ensures RestartsAfter(n, node, cluster, k, node', cluster')
      {
        BoundCut(n, Alone, node, cluster, StartPlan(n, Alone, node, cluster).writes[..k]);
      }
    } else {
      var k := BetweenIsThere(n, node, cluster);
      assert StartPlan(n, Alone, node, cluster).writes[..0] == [];
      assert RestartsAfter(n, node, cluster, k, node', cluster') ==> !AloneNeedsMore(n);
      assert RestartsAfter(n, node, cluster, 0, node', cluster') ==>
             (Opened(n).recorded.Some? ==> cluster' == cluster);
    }
  }

  /** With seeds at both starts, only a missing credential can be in the way of what was cut off there. */
  lemma CutJoinRestarts(n: Node, joined: Option<(ClusterId, nat)>, node: NodeId, cluster: ClusterId, k: nat,
                        joined': Option<(ClusterId, nat)>, node': NodeId, cluster': ClusterId)
    requires StartPlan(n, Seeded(joined), node, cluster).refused.None?
    requires k <= |StartPlan(n, Seeded(joined), node, cluster).writes|
    ensures var done := StartPlan(n, Seeded(joined), node, cluster).writes[..k];
            StartPlan(PerformAll(n, done), Seeded(joined'), node', cluster').refused.None? <==>
            && !(Between(done) && n.credential.Absent?)
            && (!IsBound(n) && !Binds(done) ==>
                  joined'.Some? && (Opened(n).recorded.Some? ==> Opened(n).recorded == Some(joined'.value.0)))
  {
    var done := StartPlan(n, Seeded(joined), node, cluster).writes[..k];
    CutState(n, Seeded(joined), node, cluster, k, done, PerformAll(n, done));
    ComesUpExactly(n, Seeded(joined), node, cluster);
    CutStartRestarts(n, Seeded(joined), node, cluster, k, Seeded(joined'), node', cluster');
  }

  // ------------------------------------------------------------- stuck, in runs

  /** A stuck node's start gets no further than opening the consensus state and joining it. */
  lemma StuckWrites(n: Node, seeds: Seeds, node: NodeId, cluster: ClusterId)
    requires Stuck(n, seeds)
    ensures StartPlan(n, seeds, node, cluster).refused.Some?
    ensures forall w :: w in StartPlan(n, seeds, node, cluster).writes ==> w.CreateConsensus? || w.InitializeMember?
    ensures CreateConsensus in StartPlan(n, seeds, node, cluster).writes ==> n.consensus.Absent?
    ensures n.credential.Absent? ==> StartPlan(n, seeds, node, cluster).writes == []
  {
  }

  lemma {:induction false} StuckStays(n: Node, seeds: Seeds, writes: seq<Write>)
    requires Stuck(n, seeds) && forall w :: w in writes ==> w.CreateConsensus? || w.InitializeMember?
    requires CreateConsensus in writes ==> Opened(n).recorded.None?
    ensures Stuck(PerformAll(n, writes), seeds)
    decreases |writes|
  {
    if writes != [] {
      assert writes[0] in writes && forall w :: w in writes[1..] ==> w in writes;
      StuckStays(Perform(n, writes[0]), seeds, writes[1..]);
    }
  }

  /** Once stuck, a node is refused by every start of its kind, however many there are and wherever they are cut off. */
  lemma {:induction false} StuckStaysDown(worlds: seq<World>, events: seq<Event>, i: nat, j: nat, seeds: Seeds)
    requires IsRun(worlds, events) && i <= j < |worlds| && Stuck(worlds[i].node, seeds)
    requires forall k :: i <= k < j ==> events[k].Start? && events[k].seeds == seeds
    ensures Stuck(worlds[j].node, seeds)
    ensures forall node, cluster :: StartPlan(worlds[j].node, seeds, node, cluster).refused.Some?
  {
    if i < j {
      StuckStaysDown(worlds, events, i, j - 1, seeds);
      StuckStep(worlds[j - 1], events[j - 1], worlds[j], seeds);
    }
    forall node, cluster ensures StartPlan(worlds[j].node, seeds, node, cluster).refused.Some? {
      StuckWrites(worlds[j].node, seeds, node, cluster);
    }
  }

  /** With no credential at all, not even the files change, whatever seeds the starts are given. */
  lemma {:induction false} BoundWithoutCredentialStaysDown(worlds: seq<World>, events: seq<Event>, i: nat, j: nat)
    requires IsRun(worlds, events) && i <= j < |worlds| && IsBound(worlds[i].node) && worlds[i].node.credential.Absent?
    requires forall k :: i <= k < j ==> events[k].Start?
    ensures worlds[j] == worlds[i]
    ensures forall seeds, node, cluster :: StartPlan(worlds[j].node, seeds, node, cluster).refused.Some?
  {
    if i < j {
      BoundWithoutCredentialStaysDown(worlds, events, i, j - 1);
      var e := events[j - 1];
      StuckWrites(worlds[j - 1].node, e.seeds, e.node, e.cluster);
      assert Follows(worlds[j - 1], e, worlds[j]);
    }
    forall seeds, node, cluster ensures StartPlan(worlds[j].node, seeds, node, cluster).refused.Some? {
      StuckWrites(worlds[j].node, seeds, node, cluster);
    }
  }

  lemma StuckStep(w: World, e: Event, w': World, seeds: Seeds)
    requires Follows(w, e, w') && e.Start? && e.seeds == seeds && Stuck(w.node, seeds)
    ensures Stuck(w'.node, seeds)
  {
    var writes := StartPlan(w.node, seeds, e.node, e.cluster).writes;
    var done := writes[..if e.cut < |writes| then e.cut else |writes|];
    StuckWrites(w.node, seeds, e.node, e.cluster);
    assert forall x :: x in done ==> x in writes;
    StuckStays(w.node, seeds, done);
    NoteAllNode(w, done);
  }

  // ---------------------------------------------------------- both ways to be stuck

  function CutShort(): seq<World> {
    [FIRST, World(Node(Whole(Identity(1, Some(10), Some(1))), Absent, Absent, map[]), map[1 := Binding(10, false)],
                  {1})]
  }

  /** A first start cut off between binding and saving leaves no credential: stuck with or without seeds. */
  lemma NoCredentialIsReachable(seeds: Seeds)
    ensures IsRun(CutShort(), [Start(Alone, 1, 10, 2)]) && Stuck(CutShort()[1].node, seeds)
  {
    FirstStart();
    var writes := StartPlan(PRISTINE, Alone, 1, 10).writes;
    assert writes[..2] == [writes[0], writes[1]];
    NoteTwo(FIRST, writes[0], writes[1]);
    assert Follows(CutShort()[0], Start(Alone, 1, 10, 2), CutShort()[1]);
  }

  /** A member that lost its identity and its consensus state, started without seeds, and cut off there. */
  function CutRejoined(): World {
    World(Node(Whole(Identity(3, Some(30), Some(1))), Whole(Credential(None)), Absent, map[]),
          map[2 := Binding(20, true), 3 := Binding(30, false)], {2, 3})
  }

  lemma RejoinedWrites()
    ensures var n := RejoinedWorlds()[4].node;
            && |StartPlan(n, Alone, 3, 30).writes| >= 2
            && StartPlan(n, Alone, 3, 30).writes[..2] ==
               [CreateIdentity(Identity(3, None, None)), BindMinted(Identity(3, Some(30), Some(1)))]
  {
  }

  /**
   * A credential from a join is no help: the start that would have formed another
   * cluster, cut off between binding and saving, leaves a node that is stuck
   * without seeds, though not with them.
   */
  lemma JoinCredentialIsReachable()
    ensures IsRun(RejoinedWorlds() + [CutRejoined()], REJOINED_EVENTS + [Start(Alone, 3, 30, 2)])
    ensures StartPlan(RejoinedWorlds()[4].node, Alone, 3, 30).refused.None?
    ensures Stuck(CutRejoined().node, Alone)
    ensures forall node, cluster ::
              StartPlan(CutRejoined().node, Alone, node, cluster).refused == Some(CredentialRecordMissing)
  {
    var last := RejoinedWorlds()[4];
    JoinedFormsAnother();
    RejoinedWrites();
    NoteTwo(last, CreateIdentity(Identity(3, None, None)), BindMinted(Identity(3, Some(30), Some(1))));
    assert Follows(last, Start(Alone, 3, 30, 2), CutRejoined());
    NothingStored();
    ComesUpExactly(last.node, Alone, 3, 30);
  }

  lemma NothingStored()
    ensures !HoldsPayloads(RejoinedWorlds()[4].node) && !HoldsPayloads(CutRejoined().node)
  {
    assert FilesWithin(map[], [Layout.OBJECTS], DEPTH) == {};
  }
}
