/**
 * Starting a cluster node: the identity file, the credential file, the
 * consensus state and the stored payloads decide whether the node resumes the
 * authority it has, takes up a new one, or refuses.
 */
module ClusterGuard {
  import opened Wrappers
  import opened Filesystem
  import opened PayloadSample

  type NodeId = nat
  type ClusterId = nat

  /** A durable document: missing, unreadable, or read back whole. */
  datatype Stored<T> = Absent | Corrupt | Whole(value: T)

  datatype Identity = Identity(node: NodeId, cluster: Option<ClusterId>, member: Option<nat>)

  /** `record` names the node a locally issued credential is for; one from a join carries none. */
  datatype Credential = Credential(record: Option<NodeId>)

  datatype Consensus = Consensus(initialized: bool, recorded: Option<ClusterId>)

  datatype Node = Node(
    identity: Stored<Identity>, credential: Stored<Credential>, consensus: Stored<Consensus>, data: Tree)

  /** No seeds, or seeds together with what joining through them came to. */
  datatype Seeds = Alone | Seeded(joined: Option<(ClusterId, nat)>)

  /** The durable changes a start makes, in the order it makes them. */
  datatype Write =
    | CreateIdentity(identity: Identity)
    | BindMinted(identity: Identity)
    | BindJoined(identity: Identity)
    | SaveCredential(credential: Credential)
    | CreateConsensus
    | InitializeMember
    | InitializeCluster(cluster: ClusterId)

  datatype Reason =
    | IdentityLost
    | IdentityUnreadable
    | CredentialMalformed
    | JoinFailed
    | MissingMemberId
    | MissingNodeCredential
    | ConsensusUnreadable
    | ClusterIdentityMismatch
    | WouldFormSecondCluster
    | CredentialRecordMissing

  datatype Plan = Plan(writes: seq<Write>, refused: Option<Reason>)

  // ------------------------------------------------------------ what is written

  function Perform(n: Node, w: Write): Node {
    match w
    case CreateIdentity(i) => n.(identity := Whole(i))
    case BindMinted(i) => n.(identity := Whole(i))
    case BindJoined(i) => n.(identity := Whole(i))
    case SaveCredential(c) => n.(credential := Whole(c))
    case CreateConsensus => n.(consensus := Whole(Consensus(false, None)))
    case InitializeMember =>
      if n.consensus.Whole? then n.(consensus := Whole(n.consensus.value.(initialized := true))) else n
    case InitializeCluster(c) =>
      if n.consensus.Whole? then n.(consensus := Whole(n.consensus.value.(recorded := Some(c)))) else n
  }

  function PerformAll(n: Node, writes: seq<Write>): Node
    decreases |writes|
  {
    if writes == [] then n else PerformAll(Perform(n, writes[0]), writes[1..])
  }

  // ------------------------------------------------------------------ the plan

  /** The identity on file, or the fresh one that takes its place. */
  function Held(n: Node, node: NodeId): Identity {
    if n.identity.Whole? then n.identity.value else Identity(node, None, None)
  }

  /** What `recorded` reads as once the consensus state is open. */
  function Opened(n: Node): Consensus {
    if n.consensus.Whole? then n.consensus.value else Consensus(false, None)
  }

  ghost predicate HoldsPayloads(n: Node) {
    Sampled(n.data, 1) > 0
  }

  /** After the guard: form the cluster, if there is none to resume. */
  ghost function BootstrapPlan(before: seq<Write>, cluster: ClusterId, credential: Credential, k: Consensus): Plan {
    var writes := before + if k.initialized then [] else [InitializeMember];
    if k.recorded.Some? then Plan(writes, None)
    else if credential.record.None? then Plan(writes, Some(CredentialRecordMissing))
    else Plan(writes + [InitializeCluster(cluster)], None)
  }

  /** The refusals to invent authority, then the bootstrap. */
  ghost function GuardPlan(n: Node, seeds: Seeds, before: seq<Write>, cluster: ClusterId,
                           credential: Credential): Plan {
    var k := Opened(n);
    if k.recorded.Some? && k.recorded.value != cluster then Plan(before, Some(ClusterIdentityMismatch))
    else if k.recorded.None? && seeds.Alone? && HoldsPayloads(n) then Plan(before, Some(WouldFormSecondCluster))
    else if seeds.Seeded? then Plan(before, None)
    else BootstrapPlan(before, cluster, credential, k)
  }

  /** A bound identity: check what must go with it, open the consensus state, go on to the guard. */
  ghost function ResumePlan(n: Node, seeds: Seeds, before: seq<Write>, identity: Identity,
                            credential: Option<Credential>): Plan {
    if identity.member.None? || identity.cluster.None? then Plan(before, Some(MissingMemberId))
    else if credential.None? then Plan(before, Some(MissingNodeCredential))
    else if n.consensus.Corrupt? then Plan(before, Some(ConsensusUnreadable))
    else
      GuardPlan(n, seeds, before + (if n.consensus.Absent? then [CreateConsensus] else []), identity.cluster.value,
                credential.value)
  }

  /** Everything one start means to write, and whether it then comes up. */
  ghost function StartPlan(n: Node, seeds: Seeds, node: NodeId, cluster: ClusterId): Plan {
    if n.identity.Absent? && !n.consensus.Absent? then Plan([], Some(IdentityLost))
    else if n.identity.Corrupt? then Plan([], Some(IdentityUnreadable))
    else
      var held := Held(n, node);
      var before := if n.identity.Absent? then [CreateIdentity(held)] else [];
      if n.credential.Corrupt? then Plan(before, Some(CredentialMalformed))
      else if held.cluster.Some? then
        ResumePlan(n, seeds, before, held, if n.credential.Whole? then Some(n.credential.value) else None)
      else
        match seeds
        case Alone =>
          var bound, issued := Identity(held.node, Some(cluster), Some(1)), Credential(Some(held.node));
          ResumePlan(n, seeds, before + [BindMinted(bound), SaveCredential(issued)], bound, Some(issued))
        case Seeded(None) => Plan(before, Some(JoinFailed))
        case Seeded(Some(j)) =>
          var bound, issued := Identity(held.node, Some(j.0), Some(j.1)), Credential(None);
          ResumePlan(n, seeds, before + [BindJoined(bound), SaveCredential(issued)], bound, Some(issued))
  }

  // ---------------------------------------------------------- one start, in full

  lemma {:induction false} PerformConcat(n: Node, a: seq<Write>, b: seq<Write>)
    ensures PerformAll(n, a + b) == PerformAll(PerformAll(n, a), b)
    decreases |a|
  {
    if a == [] {
      assert a + b == b;
    } else {
      assert (a + b)[0] == a[0] && (a + b)[1..] == a[1..] + b;
      PerformConcat(Perform(n, a[0]), a[1..], b);
    }
  }

  lemma PerformOne(n: Node, w: Write)
    ensures PerformAll(n, [w]) == Perform(n, w)
  {
    assert [w][1..] == [];
  }

  lemma PerformTwo(n: Node, v: Write, w: Write)
    ensures PerformAll(n, [v, w]) == Perform(Perform(n, v), w)
  {
    assert [v, w] == [v] + [w];
    PerformConcat(n, [v], [w]);
    PerformOne(n, v);
    PerformOne(Perform(n, v), w);
  }

  /** Up, with no one to ask: the recorded cluster is the identity's own. */
  ghost predicate Resumes(n: Node, seeds: Seeds) {
    && n.identity.Whole? && n.identity.value.cluster.Some? && n.consensus.Whole?
    && (n.consensus.value.recorded == n.identity.value.cluster
        || (seeds.Seeded? && n.consensus.value.recorded.None?))
  }

  /** Where `before` leads: an identity bound to `cluster`, and the consensus state open as `k`. */
  ghost predicate Ready(n: Node, before: seq<Write>, cluster: ClusterId, k: Consensus) {
    var u := PerformAll(n, before);
    u.identity.Whole? && u.identity.value.cluster == Some(cluster) && u.consensus == Whole(k)
  }

  lemma BootstrapResumes(n: Node, before: seq<Write>, cluster: ClusterId, credential: Credential, k: Consensus)
    requires Ready(n, before, cluster, k) && (k.recorded.Some? ==> k.recorded.value == cluster)
    requires BootstrapPlan(before, cluster, credential, k).refused.None?
    ensures Resumes(PerformAll(n, BootstrapPlan(before, cluster, credential, k).writes), Alone)
  {
    var member := if k.initialized then [] else [InitializeMember];
    var u := PerformAll(n, before);
    PerformConcat(n, before, member);
    PerformOne(u, InitializeMember);
    if k.recorded.None? {
      PerformConcat(n, before + member, [InitializeCluster(cluster)]);
      PerformOne(PerformAll(n, before + member), InitializeCluster(cluster));
    }
  }

  lemma ResumeResumes(n: Node, seeds: Seeds, before: seq<Write>, identity: Identity, credential: Option<Credential>)
    requires PerformAll(n, before).identity == Whole(identity) && PerformAll(n, before).consensus == n.consensus
    requires ResumePlan(n, seeds, before, identity, credential).refused.None?
    ensures Resumes(PerformAll(n, ResumePlan(n, seeds, before, identity, credential).writes), seeds)
  {
    var open := if n.consensus.Absent? then [CreateConsensus] else [];
    PerformConcat(n, before, open);
    PerformOne(PerformAll(n, before), CreateConsensus);
    assert before + [] == before;
    assert Ready(n, before + open, identity.cluster.value, Opened(n));
    if seeds.Alone? {
      BootstrapResumes(n, before + open, identity.cluster.value, credential.value, Opened(n));
    }
  }

  lemma IdentityWritten(n: Node, held: Identity, bind: Write, credential: Credential)
    requires bind.BindMinted? || bind.BindJoined?
    ensures var u := PerformAll(n, [bind, SaveCredential(credential)]);
            u.identity == Whole(bind.identity) && u.consensus == n.consensus
    ensures var u := PerformAll(n, [CreateIdentity(held), bind, SaveCredential(credential)]);
            u.identity == Whole(bind.identity) && u.consensus == n.consensus
    ensures PerformAll(n, [CreateIdentity(held)]).identity == Whole(held)
    ensures PerformAll(n, [CreateIdentity(held)]).consensus == n.consensus
  {
    PerformTwo(n, bind, SaveCredential(credential));
    PerformOne(n, CreateIdentity(held));
    PerformConcat(n, [CreateIdentity(held)], [bind, SaveCredential(credential)]);
    PerformTwo(Perform(n, CreateIdentity(held)), bind, SaveCredential(credential));
    assert [CreateIdentity(held)] + [bind, SaveCredential(credential)]
           == [CreateIdentity(held), bind, SaveCredential(credential)];
  }

  /**
   * Whatever the files said, a start that is not refused and gets through its
   * writes leaves the node under its own identity's cluster; only with seeds
   * may the record still be to come.
   */
  lemma ComesUpUnderItsOwnName(n: Node, seeds: Seeds, node: NodeId, cluster: ClusterId)
    requires StartPlan(n, seeds, node, cluster).refused.None?
    ensures Resumes(PerformAll(n, StartPlan(n, seeds, node, cluster).writes), seeds)
  {
    var held := Held(n, node);
    var before := if n.identity.Absent? then [CreateIdentity(held)] else [];
    if held.cluster.Some? {
      ResumeResumes(n, seeds, before, held, if n.credential.Whole? then Some(n.credential.value) else None);
    } else {
      var minted := Identity(held.node, Some(cluster), Some(1));
      var bound := if seeds.Alone? then minted
                   else Identity(held.node, Some(seeds.joined.value.0), Some(seeds.joined.value.1));
      var bind := if seeds.Alone? then BindMinted(bound) else BindJoined(bound);
      var issued := if seeds.Alone? then Credential(Some(held.node)) else Credential(None);
      IdentityWritten(n, held, bind, issued);
      assert [] + [bind, SaveCredential(issued)] == [bind, SaveCredential(issued)];
      assert [CreateIdentity(held)] + [bind, SaveCredential(issued)]
             == [CreateIdentity(held), bind, SaveCredential(issued)];
      ResumeResumes(n, seeds, before + [bind, SaveCredential(issued)], bound, Some(issued));
    }
  }

  // -------------------------------------------------------- who forms a cluster

  /** The authority a start forms a cluster on: nothing recorded, nothing stored, no one to ask. */
  ghost predicate MayForm(n: Node, seeds: Seeds) {
    seeds.Alone? && Opened(n).recorded.None? && !HoldsPayloads(n)
  }

  ghost predicate Forms(writes: seq<Write>) {
    exists c :: InitializeCluster(c) in writes
  }

  /** The guard's part of a plan adds nothing unless it passed. */
  lemma GuardDecides(n: Node, seeds: Seeds, before: seq<Write>, cluster: ClusterId, credential: Credential, w: Write)
    requires w in GuardPlan(n, seeds, before, cluster, credential).writes && w !in before
    ensures w == InitializeMember || w == InitializeCluster(cluster)
    ensures seeds.Alone? && (Opened(n).recorded == Some(cluster) || MayForm(n, seeds))
    ensures w == InitializeCluster(cluster) ==> MayForm(n, seeds) && credential.record.Some?
  {
  }

  /** What stands behind a cluster formed by this start. */
  ghost predicate FormedBy(n: Node, node: NodeId, cluster: ClusterId, c: ClusterId) {
    var held := Held(n, node);
    if held.cluster.Some? then
      c == held.cluster.value && n.credential.Whole? && n.credential.value.record.Some?
    else c == cluster
  }

  /**
   * `InitializeCluster` is written only with no seeds, no recorded state and no
   * sampled payload; it names the identity's own cluster; and an identity that
   * was already bound needs a credential that was issued here, not by a join.
   */
  lemma FormsOnlyWhenFree(n: Node, seeds: Seeds, node: NodeId, cluster: ClusterId, c: ClusterId)
    requires InitializeCluster(c) in StartPlan(n, seeds, node, cluster).writes
    ensures MayForm(n, seeds) && FormedBy(n, node, cluster, c)
  {
    var held := Held(n, node);
    var before := if n.identity.Absent? then [CreateIdentity(held)] else [];
    var open := if n.consensus.Absent? then [CreateConsensus] else [];
    if held.cluster.Some? {
      GuardDecides(n, seeds, before + open, held.cluster.value, n.credential.value, InitializeCluster(c));
    } else {
      var bound, issued := Identity(held.node, Some(cluster), Some(1)), Credential(Some(held.node));
      GuardDecides(n, seeds, before + [BindMinted(bound), SaveCredential(issued)] + open, cluster, issued,
                   InitializeCluster(c));
    }
  }

  /** What a start must find to get past its checks, and what a bound identity must have beside it. */
  ghost predicate GetsToGuard(n: Node, node: NodeId) {
    && !n.identity.Corrupt? && (n.identity.Absent? ==> n.consensus.Absent?)
    && !n.credential.Corrupt? && !n.consensus.Corrupt?
    && (Held(n, node).cluster.Some? ==> Held(n, node).member.Some? && n.credential.Whole?)
  }

  /**
   * A start forms a cluster exactly when it gets past its checks, nothing is
   * recorded, nothing is stored, there is no one to ask, and an identity that was
   * already bound comes with a credential issued here.
   */
  lemma FormsExactly(n: Node, seeds: Seeds, node: NodeId, cluster: ClusterId)
    ensures Forms(StartPlan(n, seeds, node, cluster).writes) <==>
            && GetsToGuard(n, node) && MayForm(n, seeds)
            && (Held(n, node).cluster.Some? ==> n.credential.value.record.Some?)
  {
    var writes := StartPlan(n, seeds, node, cluster).writes;
    if Forms(writes) {
      var c :| InitializeCluster(c) in writes;
      FormsOnlyWhenFree(n, seeds, node, cluster, c);
    }
    if GetsToGuard(n, node) && MayForm(n, seeds) && (Held(n, node).cluster.Some? ==> n.credential.value.record.Some?) {
      FormingWrites(n, node, cluster);
    }
  }

  lemma FormingWrites(n: Node, node: NodeId, cluster: ClusterId)
    requires GetsToGuard(n, node) && MayForm(n, Alone)
    requires Held(n, node).cluster.Some? ==> n.credential.value.record.Some?
    ensures var writes, held := StartPlan(n, Alone, node, cluster).writes, Held(n, node);
            writes != []
            && writes[|writes| - 1] == InitializeCluster(if held.cluster.Some? then held.cluster.value else cluster)
  {
  }

  /**
   * A credential from a join forms no cluster, with one exception: where the
   * identity is lost or unbound, a start without seeds overwrites the credential
   * and forms a cluster of its own.
   */
  lemma JoinedFormsExactly(n: Node, seeds: Seeds, node: NodeId, cluster: ClusterId)
    requires seeds.Seeded? || n.credential == Whole(Credential(None))
    ensures Forms(StartPlan(n, seeds, node, cluster).writes) <==>
            MayForm(n, seeds) && GetsToGuard(n, node) && Held(n, node).cluster.None?
  {
    FormsExactly(n, seeds, node, cluster);
  }

  /** A new identity is only ever minted where there is neither one on file nor consensus state to own. */
  lemma NoIdentityBesideState(n: Node, seeds: Seeds, node: NodeId, cluster: ClusterId, i: Identity)
    requires CreateIdentity(i) in StartPlan(n, seeds, node, cluster).writes
    ensures n.identity.Absent? && n.consensus.Absent? && i == Identity(node, None, None)
  {
    var held := Held(n, node);
    var before := if n.identity.Absent? then [CreateIdentity(held)] else [];
    if held.cluster.Some? {
      var tail := ResumeTail(n, seeds, before, held, if n.credential.Whole? then Some(n.credential.value) else None);
    } else if seeds != Seeded(None) && !n.credential.Corrupt? {
      var c, m := if seeds.Alone? then cluster else seeds.joined.value.0,
          if seeds.Alone? then 1 else seeds.joined.value.1;
      var bound := Identity(held.node, Some(c), Some(m));
      var bind := if seeds.Alone? then BindMinted(bound) else BindJoined(bound);
      var issued := if seeds.Alone? then Credential(Some(held.node)) else Credential(None);
      var tail := ResumeTail(n, seeds, before + [bind, SaveCredential(issued)], bound, Some(issued));
    }
  }

  ghost predicate Plain(writes: seq<Write>) {
    forall w :: w in writes ==> !w.InitializeMember? && !w.InitializeCluster?
  }

  lemma {:induction false} PlainKeepsState(n: Node, writes: seq<Write>)
    requires Plain(writes) && (CreateConsensus in writes ==> !n.consensus.Whole?)
    ensures PerformAll(n, writes).data == n.data
    ensures PerformAll(n, writes).consensus ==
            if CreateConsensus in writes then Whole(Consensus(false, None)) else n.consensus
    decreases |writes|
  {
    if writes != [] {
      var first, rest := writes[0], writes[1..];
      assert first in writes && forall w :: w in writes <==> w == first || w in rest;
      if first.CreateConsensus? && CreateConsensus in rest {
        CreatedTwice(Perform(n, first), rest);
      } else {
        PlainKeepsState(Perform(n, first), rest);
      }
    }
  }

  lemma {:induction false} CreatedTwice(n: Node, writes: seq<Write>)
    requires Plain(writes) && n.consensus == Whole(Consensus(false, None))
    ensures PerformAll(n, writes).data == n.data && PerformAll(n, writes).consensus == n.consensus
    decreases |writes|
  {
    if writes != [] {
      assert writes[0] in writes && forall w :: w in writes[1..] ==> w in writes;
      CreatedTwice(Perform(n, writes[0]), writes[1..]);
    }
  }

  lemma GuardRefusedWrites(n: Node, seeds: Seeds, node: NodeId, cluster: ClusterId)
    requires StartPlan(n, seeds, node, cluster).refused == Some(ClusterIdentityMismatch)
             || StartPlan(n, seeds, node, cluster).refused == Some(WouldFormSecondCluster)
    ensures Plain(StartPlan(n, seeds, node, cluster).writes)
    ensures CreateConsensus in StartPlan(n, seeds, node, cluster).writes ==> n.consensus.Absent?
  {
  }

  /**
   * However far a start that the guard refuses gets, the payloads are untouched
   * and the consensus state is what it was, or empty where there was none.
   */
  lemma GuardRefusesFirst(n: Node, seeds: Seeds, node: NodeId, cluster: ClusterId, k: nat)
    requires StartPlan(n, seeds, node, cluster).refused == Some(ClusterIdentityMismatch)
             || StartPlan(n, seeds, node, cluster).refused == Some(WouldFormSecondCluster)
    requires k <= |StartPlan(n, seeds, node, cluster).writes|
    ensures var u := PerformAll(n, StartPlan(n, seeds, node, cluster).writes[..k]);
            && u.data == n.data
            && (u.consensus == n.consensus || (n.consensus.Absent? && u.consensus == Whole(Consensus(false, None))))
  {
    var writes := StartPlan(n, seeds, node, cluster).writes;
    GuardRefusedWrites(n, seeds, node, cluster);
    assert forall w :: w in writes[..k] ==> w in writes;
    PlainKeepsState(n, writes[..k]);
  }

  /** In a bootstrap it is the last thing written, and at that moment nothing is recorded. */
  lemma BootstrapFormsLast(n: Node, before: seq<Write>, cluster: ClusterId, credential: Credential, k: Consensus,
                           i: nat)
    requires Ready(n, before, cluster, k) && Plain(before)
    requires i < |BootstrapPlan(before, cluster, credential, k).writes|
    requires BootstrapPlan(before, cluster, credential, k).writes[i].InitializeCluster?
    ensures var writes := BootstrapPlan(before, cluster, credential, k).writes;
            && i == |writes| - 1 && writes[i] == InitializeCluster(cluster)
            && var u := PerformAll(n, writes[..i]);
              && u.consensus == Whole(Consensus(true, None))
              && u.identity.Whole? && u.identity.value.cluster == Some(cluster)
  {
    var writes := BootstrapPlan(before, cluster, credential, k).writes;
    var member := if k.initialized then [] else [InitializeMember];
    assert forall j :: 0 <= j < |before| ==> before[j] in before;
    assert writes[..|writes| - 1] == before + member;
    PerformConcat(n, before, member);
    PerformOne(PerformAll(n, before), InitializeMember);
  }

  /** The same after the checks of a bound identity. */
  lemma ResumeFormsLast(n: Node, before: seq<Write>, identity: Identity, credential: Credential, i: nat)
    requires PerformAll(n, before).identity == Whole(identity) && PerformAll(n, before).consensus == n.consensus
    requires Plain(before) && identity.cluster.Some?
    requires i < |ResumePlan(n, Alone, before, identity, Some(credential)).writes|
    requires ResumePlan(n, Alone, before, identity, Some(credential)).writes[i].InitializeCluster?
    ensures var writes := ResumePlan(n, Alone, before, identity, Some(credential)).writes;
            && i == |writes| - 1 && writes[i] == InitializeCluster(identity.cluster.value)
            && var u := PerformAll(n, writes[..i]);
              && u.consensus == Whole(Consensus(true, None))
              && u.identity.Whole? && u.identity.value.cluster == identity.cluster
  {
    var open := if n.consensus.Absent? then [CreateConsensus] else [];
    PerformConcat(n, before, open);
    PerformOne(PerformAll(n, before), CreateConsensus);
    assert before + [] == before;
    assert forall j :: 0 <= j < |before + open| ==> (before + open)[j] in before + open;
    assert Plain(before + open);
    BootstrapFormsLast(n, before + open, identity.cluster.value, credential, Opened(n), i);
  }

  /**
   * Whatever the start: the record of a new cluster is the last thing it writes.
   * At that moment the node is the only member, nothing is recorded, and the
   * identity on file is bound to the very cluster about to be recorded.
   */
  lemma FormsLast(n: Node, seeds: Seeds, node: NodeId, cluster: ClusterId, i: nat)
    requires i < |StartPlan(n, seeds, node, cluster).writes|
    requires StartPlan(n, seeds, node, cluster).writes[i].InitializeCluster?
    ensures var writes := StartPlan(n, seeds, node, cluster).writes;
            && i == |writes| - 1
            && var u := PerformAll(n, writes[..i]);
              && u.consensus == Whole(Consensus(true, None))
              && u.identity.Whole? && u.identity.value.cluster == Some(writes[i].cluster)
  {
    var writes, held := StartPlan(n, seeds, node, cluster).writes, Held(n, node);
    assert writes[i] in writes && writes[i] == InitializeCluster(writes[i].cluster);
    FormsOnlyWhenFree(n, seeds, node, cluster, writes[i].cluster);
    var before := if n.identity.Absent? then [CreateIdentity(held)] else [];
    if held.cluster.Some? {
      ResumeFormsLast(n, before, held, n.credential.value, i);
    } else {
      var bound, issued := Identity(held.node, Some(cluster), Some(1)), Credential(Some(held.node));
      IdentityWritten(n, held, BindMinted(bound), issued);
      assert [] + [BindMinted(bound), SaveCredential(issued)] == [BindMinted(bound), SaveCredential(issued)];
      assert [CreateIdentity(held)] + [BindMinted(bound), SaveCredential(issued)]
             == [CreateIdentity(held), BindMinted(bound), SaveCredential(issued)];
      ResumeFormsLast(n, before + [BindMinted(bound), SaveCredential(issued)], bound, issued, i);
    }
  }

  // ------------------------------------------------------------------- over runs

  /** How an identity came to its cluster. */
  datatype Binding = Binding(cluster: ClusterId, joined: bool)

  /** The node's files, and everything that has ever been issued or bound. */
  datatype World = World(node: Node, bound: map<NodeId, Binding>, nodes: set<NodeId>)

  datatype Event =
    | Start(seeds: Seeds, node: NodeId, cluster: ClusterId, cut: nat)
    | LoseIdentity | SpoilIdentity
    | LoseCredential | SpoilCredential
    | LoseConsensus | SpoilConsensus
    | Replicate(consensus: Consensus)
    | Store(data: Tree)

  function Note(w: World, write: Write): World {
    var next := w.(node := Perform(w.node, write));
    match write
    case CreateIdentity(i) => next.(nodes := w.nodes + {i.node})
    case BindMinted(i) =>
      if i.cluster.None? then next else next.(bound := w.bound[i.node := Binding(i.cluster.value, false)])
    case BindJoined(i) =>
      if i.cluster.None? then next else next.(bound := w.bound[i.node := Binding(i.cluster.value, true)])
    case _ => next
  }

  function NoteAll(w: World, writes: seq<Write>): World
    decreases |writes|
  {
    if writes == [] then w else NoteAll(Note(w, writes[0]), writes[1..])
  }

  /** One event.  A start may be cut off after any number of its writes. */
  ghost predicate Follows(w: World, e: Event, w': World) {
    match e
    case Start(seeds, node, cluster, cut) =>
      var writes := StartPlan(w.node, seeds, node, cluster).writes;
      node !in w.nodes && w' == NoteAll(w, writes[..if cut < |writes| then cut else |writes|])
    case LoseIdentity => w' == w.(node := w.node.(identity := Absent))
    case SpoilIdentity => w' == w.(node := w.node.(identity := Corrupt))
    case LoseCredential => w' == w.(node := w.node.(credential := Absent))
    case SpoilCredential => w' == w.(node := w.node.(credential := Corrupt))
    case LoseConsensus => w' == w.(node := w.node.(consensus := Absent))
    case SpoilConsensus => w' == w.(node := w.node.(consensus := Corrupt))
    case Replicate(k) => w' == w.(node := w.node.(consensus := Whole(k)))
    case Store(data) => w' == w.(node := w.node.(data := data))
  }

  const PRISTINE: Node := Node(Absent, Absent, Absent, map[])
  const FIRST: World := World(PRISTINE, map[], {})

  /** The files agree with what was bound, and issued credentials belong to minted identities. */
  ghost predicate Sound(w: World) {
    && w.bound.Keys <= w.nodes
    && (w.node.identity.Whole? ==>
          var i := w.node.identity.value;
          && i.node in w.nodes
          && (i.cluster.Some? <==> i.node in w.bound)
          && (i.cluster.Some? ==> w.bound[i.node].cluster == i.cluster.value))
    && (w.node.credential.Whole? && w.node.credential.value.record.Some? ==>
          var r := w.node.credential.value.record.value;
          r in w.bound && !w.bound[r].joined)
  }

  /** Bindings are only ever added. */
  ghost predicate Extends(bound: map<NodeId, Binding>, more: map<NodeId, Binding>) {
    forall n :: n in bound ==> n in more && more[n] == bound[n]
  }

  /** A write that fits the world it is made in. */
  ghost predicate Allowed(w: World, write: Write) {
    match write
    case CreateIdentity(i) => i.cluster.None? && i.node !in w.nodes
    case BindMinted(i) => Unbound(w, i)
    case BindJoined(i) => Unbound(w, i)
    case SaveCredential(c) => c.record.Some? ==> c.record.value in w.bound && !w.bound[c.record.value].joined
    case _ => true
  }

  /** The identity on file is this one, not yet bound. */
  ghost predicate Unbound(w: World, i: Identity) {
    && w.node.identity.Whole? && w.node.identity.value.cluster.None? && w.node.identity.value.node == i.node
    && i.cluster.Some?
  }

  lemma AllowedKeeps(w: World, write: Write)
    requires Sound(w) && Allowed(w, write)
    ensures Sound(Note(w, write)) && Extends(w.bound, Note(w, write).bound)
  {
  }

  ghost predicate AllowedAll(w: World, writes: seq<Write>)
    decreases |writes|
  {
    writes == [] || (Allowed(w, writes[0]) && AllowedAll(Note(w, writes[0]), writes[1..]))
  }

  lemma {:induction false} AllowedAllKeeps(w: World, writes: seq<Write>, k: nat)
    requires Sound(w) && AllowedAll(w, writes) && k <= |writes|
    ensures Sound(NoteAll(w, writes[..k])) && Extends(w.bound, NoteAll(w, writes[..k]).bound)
    decreases |writes|
  {
    if k > 0 {
      AllowedKeeps(w, writes[0]);
      AllowedAllKeeps(Note(w, writes[0]), writes[1..], k - 1);
      assert writes[..k][0] == writes[0] && writes[..k][1..] == writes[1..][..k - 1];
    }
  }

  ghost predicate ConsensusOnly(writes: seq<Write>) {
    forall x :: x in writes ==> x.CreateConsensus? || x.InitializeMember? || x.InitializeCluster?
  }

  lemma {:induction false} TailAllowed(w: World, writes: seq<Write>)
    requires ConsensusOnly(writes)
    ensures AllowedAll(w, writes)
    decreases |writes|
  {
    if writes != [] {
      assert writes[0] in writes && forall x :: x in writes[1..] ==> x in writes;
      TailAllowed(Note(w, writes[0]), writes[1..]);
    }
  }

  lemma {:induction false} AllowedConcat(w: World, a: seq<Write>, b: seq<Write>)
    requires AllowedAll(w, a) && AllowedAll(NoteAll(w, a), b)
    ensures AllowedAll(w, a + b)
    decreases |a|
  {
    if a == [] {
      assert a + b == b;
    } else {
      assert (a + b)[0] == a[0] && (a + b)[1..] == a[1..] + b;
      AllowedConcat(Note(w, a[0]), a[1..], b);
    }
  }

  /** What a plan writes after `before` concerns the consensus state alone. */
  lemma ResumeTail(n: Node, seeds: Seeds, before: seq<Write>, identity: Identity, credential: Option<Credential>)
    returns (tail: seq<Write>)
    ensures ResumePlan(n, seeds, before, identity, credential).writes == before + tail && ConsensusOnly(tail)
  {
    var writes := ResumePlan(n, seeds, before, identity, credential).writes;
    tail := writes[|before|..];
    assert writes == before + tail;
  }

  lemma ResumeAllowed(w: World, seeds: Seeds, before: seq<Write>, identity: Identity, credential: Option<Credential>)
    requires AllowedAll(w, before)
    ensures AllowedAll(w, ResumePlan(w.node, seeds, before, identity, credential).writes)
  {
    var tail := ResumeTail(w.node, seeds, before, identity, credential);
    TailAllowed(NoteAll(w, before), tail);
    AllowedConcat(w, before, tail);
  }

  lemma BindAllowed(w: World, held: Identity, bind: Write, c: Credential)
    requires held.cluster.None? && (bind.BindMinted? || bind.BindJoined?) && w.node.identity == Whole(held)
    requires bind.identity.node == held.node && bind.identity.cluster.Some?
    requires c.record.Some? ==> bind.BindMinted? && c.record.value == held.node
    ensures AllowedAll(w, [bind, SaveCredential(c)])
  {
    var save := SaveCredential(c);
    assert [bind, save][1..] == [save] && [save][1..] == [];
    assert Allowed(Note(w, bind), save);
  }

  /** Creating, binding and issuing, in this order, is allowed of an identity that is not bound. */
  lemma HeadAllowed(w: World, held: Identity, bind: Write, c: Credential)
    requires held.cluster.None? && (bind.BindMinted? || bind.BindJoined?) && held.node !in w.nodes
    requires bind.identity.node == held.node && bind.identity.cluster.Some?
    requires c.record.Some? ==> bind.BindMinted? && c.record.value == held.node
    ensures AllowedAll(w, [CreateIdentity(held), bind, SaveCredential(c)])
  {
    BindAllowed(Note(w, CreateIdentity(held)), held, bind, c);
    assert [CreateIdentity(held), bind, SaveCredential(c)][1..] == [bind, SaveCredential(c)];
  }

  lemma PlanAllowed(w: World, seeds: Seeds, node: NodeId, cluster: ClusterId)
    requires Sound(w) && node !in w.nodes
    ensures AllowedAll(w, StartPlan(w.node, seeds, node, cluster).writes)
  {
    var n, held := w.node, Held(w.node, node);
    var before := if n.identity.Absent? then [CreateIdentity(held)] else [];
    assert [CreateIdentity(held)][1..] == [];
    if n.identity.Corrupt? || (n.identity.Absent? && !n.consensus.Absent?) || n.credential.Corrupt? {
    } else if held.cluster.Some? {
      ResumeAllowed(w, seeds, before, held, if n.credential.Whole? then Some(n.credential.value) else None);
    } else if seeds != Seeded(None) {
      var c, m := if seeds.Alone? then cluster else seeds.joined.value.0,
          if seeds.Alone? then 1 else seeds.joined.value.1;
      var bound := Identity(held.node, Some(c), Some(m));
      var bind := if seeds.Alone? then BindMinted(bound) else BindJoined(bound);
      var issued := if seeds.Alone? then Credential(Some(held.node)) else Credential(None);
      if n.identity.Absent? {
        HeadAllowed(w, held, bind, issued);
      } else {
        BindAllowed(w, held, bind, issued);
      }
      assert before + [bind, SaveCredential(issued)] ==
             if n.identity.Absent? then [CreateIdentity(held), bind, SaveCredential(issued)]
             else [bind, SaveCredential(issued)];
      ResumeAllowed(w, seeds, before + [bind, SaveCredential(issued)], bound, Some(issued));
    }
  }

  lemma StepKeepsSound(w: World, e: Event, w': World)
    requires Sound(w) && Follows(w, e, w')
    ensures Sound(w') && Extends(w.bound, w'.bound)
  {
    if e.Start? {
      var writes := StartPlan(w.node, e.seeds, e.node, e.cluster).writes;
      PlanAllowed(w, e.seeds, e.node, e.cluster);
      AllowedAllKeeps(w, writes, if e.cut < |writes| then e.cut else |writes|);
    }
  }

  ghost predicate IsRun(worlds: seq<World>, events: seq<Event>) {
    && |worlds| == |events| + 1 && worlds[0] == FIRST
    && forall i :: 0 <= i < |events| ==> Follows(worlds[i], events[i], worlds[i + 1])
  }

  lemma {:induction false} RunIsSound(worlds: seq<World>, events: seq<Event>, i: nat)
    requires IsRun(worlds, events) && i < |worlds|
    ensures Sound(worlds[i])
  {
    if i > 0 {
      RunIsSound(worlds, events, i - 1);
      StepKeepsSound(worlds[i - 1], events[i - 1], worlds[i]);
    }
  }

  /** Over any run of starts, crashes and losses, an identity once bound is bound to that cluster for good. */
  lemma {:induction false} NeverRebound(worlds: seq<World>, events: seq<Event>, i: nat, j: nat)
    requires IsRun(worlds, events) && i <= j < |worlds|
    ensures Extends(worlds[i].bound, worlds[j].bound)
    decreases j
  {
    if i < j {
      NeverRebound(worlds, events, i, j - 1);
      RunIsSound(worlds, events, j - 1);
      StepKeepsSound(worlds[j - 1], events[j - 1], worlds[j]);
    }
  }

  /** The same of the file: whenever it names a node at two moments, it names one cluster for it. */
  lemma SameNodeSameCluster(worlds: seq<World>, events: seq<Event>, i: nat, j: nat)
    requires IsRun(worlds, events) && i <= j < |worlds|
    requires worlds[i].node.identity.Whole? && worlds[j].node.identity.Whole?
    requires worlds[i].node.identity.value.node == worlds[j].node.identity.value.node
    requires worlds[i].node.identity.value.cluster.Some?
    ensures worlds[j].node.identity.value.cluster == worlds[i].node.identity.value.cluster
  {
    RunIsSound(worlds, events, i);
    RunIsSound(worlds, events, j);
    NeverRebound(worlds, events, i, j);
  }

  // --------------------------------------------------- joined, then forming alone

  /** A start that forms, on its own, a cluster its identity only ever joined. */
  ghost predicate FormsJoined(w: World, seeds: Seeds, node: NodeId, cluster: ClusterId) {
    && Forms(StartPlan(w.node, seeds, node, cluster).writes)
    && w.node.identity.Whole? && w.node.identity.value.node in w.bound
    && w.bound[w.node.identity.value.node].joined
  }

  /**
   * That can only happen under a credential issued to another node: comparing
   * the credential's record with the identity would rule it out.
   */
  lemma FormsJoinedNeedsStaleCredential(w: World, seeds: Seeds, node: NodeId, cluster: ClusterId)
    requires Sound(w) && FormsJoined(w, seeds, node, cluster)
    ensures w.node.credential.Whole? && w.node.credential.value.record.Some?
    ensures w.node.credential.value.record.value != w.node.identity.value.node
  {
    var c :| InitializeCluster(c) in StartPlan(w.node, seeds, node, cluster).writes;
    FormsOnlyWhenFree(w.node, seeds, node, cluster, c);
  }

  /** And exactly this start does it. */
  lemma FormsJoinedExactly(w: World, seeds: Seeds, node: NodeId, cluster: ClusterId)
    requires Sound(w) && w.node.identity.Whole? && w.node.identity.value.node in w.bound
    requires w.bound[w.node.identity.value.node].joined
    ensures FormsJoined(w, seeds, node, cluster) <==>
            && MayForm(w.node, seeds) && !w.node.consensus.Corrupt? && w.node.identity.value.member.Some?
            && w.node.credential.Whole? && w.node.credential.value.record.Some?
  {
    var n := w.node;
    if FormsJoined(w, seeds, node, cluster) {
      var c :| InitializeCluster(c) in StartPlan(n, seeds, node, cluster).writes;
      FormsOnlyWhenFree(n, seeds, node, cluster, c);
    }
    if MayForm(n, seeds) && !n.consensus.Corrupt? && n.identity.value.member.Some?
       && n.credential.Whole? && n.credential.value.record.Some? {
      var writes := StartPlan(n, seeds, node, cluster).writes;
      assert writes[|writes| - 1] == InitializeCluster(n.identity.value.cluster.value);
    }
  }

  /** The files after a crash between a join's two writes, with an older credential still in place. */
  const STALE: World := World(
    Node(Whole(Identity(2, Some(20), Some(5))), Whole(Credential(Some(1))), Absent, map[]),
    map[1 := Binding(10, false), 2 := Binding(20, true)], {1, 2})

  function StaleWorlds(): seq<World> {
    var formed := Node(Whole(Identity(1, Some(10), Some(1))), Whole(Credential(Some(1))),
                       Whole(Consensus(true, Some(10))), map[]);
    var up := World(formed, map[1 := Binding(10, false)], {1});
    var nameless := up.(node := formed.(identity := Absent));
    [FIRST, up, nameless, nameless.(node := nameless.node.(consensus := Absent)), STALE]
  }

  const STALE_EVENTS: seq<Event> :=
    [Start(Alone, 1, 10, 6), LoseIdentity, LoseConsensus, Start(Seeded(Some((20, 5))), 2, 0, 2)]

  lemma NoteTwo(w: World, v: Write, x: Write)
    ensures NoteAll(w, [v, x]) == Note(Note(w, v), x)
  {
    assert [v, x][1..] == [x] && [x][1..] == [];
    assert NoteAll(w, [v, x]) == NoteAll(Note(w, v), [x]);
  }

  lemma {:induction false} NoteConcat(w: World, a: seq<Write>, b: seq<Write>)
    ensures NoteAll(w, a + b) == NoteAll(NoteAll(w, a), b)
    decreases |a|
  {
    if a == [] {
      assert a + b == b;
    } else {
      assert (a + b)[0] == a[0] && (a + b)[1..] == a[1..] + b;
      NoteConcat(Note(w, a[0]), a[1..], b);
    }
  }

  lemma NoteSix(w: World, writes: seq<Write>)
    requires |writes| == 6
    ensures NoteAll(w, writes) ==
            Note(Note(Note(Note(Note(Note(w, writes[0]), writes[1]), writes[2]), writes[3]), writes[4]), writes[5])
  {
    var a, b, c := writes[..2], writes[2..4], writes[4..];
    assert writes == a + (b + c);
    NoteConcat(w, a, b + c);
    NoteConcat(NoteAll(w, a), b, c);
    NoteTwo(w, writes[0], writes[1]);
    NoteTwo(NoteAll(w, a), writes[2], writes[3]);
    NoteTwo(NoteAll(NoteAll(w, a), b), writes[4], writes[5]);
    assert a == [writes[0], writes[1]] && b == [writes[2], writes[3]] && c == [writes[4], writes[5]];
  }

  lemma FirstStep()
    ensures Follows(StaleWorlds()[0], STALE_EVENTS[0], StaleWorlds()[1])
  {
    FirstStart();
    var writes := StartPlan(PRISTINE, Alone, 1, 10).writes;
    assert writes[..6] == writes;
    NoteSix(FIRST, writes);
  }

  lemma FirstStart()
    ensures StartPlan(PRISTINE, Alone, 1, 10).writes ==
            [CreateIdentity(Identity(1, None, None)), BindMinted(Identity(1, Some(10), Some(1))),
             SaveCredential(Credential(Some(1))), CreateConsensus, InitializeMember, InitializeCluster(10)]
  {
    assert !HoldsPayloads(PRISTINE) by {
      assert FilesWithin(map[], [Layout.OBJECTS], DEPTH) == {};
    }
  }

  lemma JoinStart(n: Node)
    requires n == StaleWorlds()[3].node
    ensures |StartPlan(n, Seeded(Some((20, 5))), 2, 0).writes| >= 2
    ensures StartPlan(n, Seeded(Some((20, 5))), 2, 0).writes[..2] ==
            [CreateIdentity(Identity(2, None, None)), BindJoined(Identity(2, Some(20), Some(5)))]
  {
  }

  /** Such a world is reachable: a member forms a cluster, loses two files, and is cut off while joining another. */
  lemma StaleIsReachable()
    ensures IsRun(StaleWorlds(), STALE_EVENTS)
  {
    var worlds := StaleWorlds();
    FirstStep();
    JoinStart(worlds[3].node);
    NoteTwo(worlds[3], CreateIdentity(Identity(2, None, None)), BindJoined(Identity(2, Some(20), Some(5))));
    assert Follows(worlds[3], STALE_EVENTS[3], worlds[4]);
  }

  /** And the next start without seeds forms the cluster that was only ever joined. */
  lemma JoinedClusterFormedAlone()
    ensures FormsJoined(STALE, Alone, 3, 30)
    ensures InitializeCluster(20) in StartPlan(STALE.node, Alone, 3, 30).writes
  {
    assert !HoldsPayloads(STALE.node) by {
      assert FilesWithin(map[], [Layout.OBJECTS], DEPTH) == {};
    }
    var writes := StartPlan(STALE.node, Alone, 3, 30).writes;
    assert writes[|writes| - 1] == InitializeCluster(20);
  }

  // ------------------------------------------------ joined, then a second cluster

  function RejoinedWorlds(): seq<World> {
    var joined := Node(Whole(Identity(2, Some(20), Some(5))), Whole(Credential(None)), Whole(Consensus(false, None)),
                       map[]);
    var w := World(joined, map[2 := Binding(20, true)], {2});
    var member := w.(node := joined.(consensus := Whole(Consensus(true, Some(20)))));
    var nameless := member.(node := member.node.(identity := Absent));
    [FIRST, w, member, nameless, nameless.(node := nameless.node.(consensus := Absent))]
  }

  const REJOINED_EVENTS: seq<Event> :=
    [Start(Seeded(Some((20, 5))), 2, 0, 4), Replicate(Consensus(true, Some(20))), LoseIdentity, LoseConsensus]

  lemma FirstJoin()
    ensures StartPlan(PRISTINE, Seeded(Some((20, 5))), 2, 0).writes ==
            [CreateIdentity(Identity(2, None, None)), BindJoined(Identity(2, Some(20), Some(5))),
             SaveCredential(Credential(None)), CreateConsensus]
  {
  }

  lemma FirstJoinStep()
    ensures Follows(RejoinedWorlds()[0], REJOINED_EVENTS[0], RejoinedWorlds()[1])
  {
    FirstJoin();
    var writes := StartPlan(PRISTINE, Seeded(Some((20, 5))), 2, 0).writes;
    assert writes[..4] == writes == writes[..2] + writes[2..];
    NoteConcat(FIRST, writes[..2], writes[2..]);
    NoteTwo(FIRST, writes[0], writes[1]);
    NoteTwo(NoteAll(FIRST, writes[..2]), writes[2], writes[3]);
  }

  /**
   * The exception of `JoinedFormsExactly` is reached: a member of one cluster that
   * loses its identity and its consensus state and is started without seeds forms
   * another, though the credential from its join is still on file.
   */
  lemma JoinedFormsAnother()
    ensures IsRun(RejoinedWorlds(), REJOINED_EVENTS)
    ensures RejoinedWorlds()[4].node.credential == Whole(Credential(None))
    ensures Forms(StartPlan(RejoinedWorlds()[4].node, Alone, 3, 30).writes)
  {
    FirstJoinStep();
    assert !HoldsPayloads(RejoinedWorlds()[4].node) by {
      assert FilesWithin(map[], [Layout.OBJECTS], DEPTH) == {};
    }
    JoinedFormsExactly(RejoinedWorlds()[4].node, Alone, 3, 30);
  }

  // ------------------------------------------------------------------ in a run

  lemma {:induction false} NoteAllNode(w: World, writes: seq<Write>)
    ensures NoteAll(w, writes).node == PerformAll(w.node, writes)
    decreases |writes|
  {
    if writes != [] {
      NoteAllNode(Note(w, writes[0]), writes[1..]);
    }
  }

  /**
   * In any run, a start that comes up does so under the cluster its identity is
   * bound to, and without seeds that is the recorded one.
   */
  lemma UpInARun(worlds: seq<World>, events: seq<Event>, i: nat)
    requires IsRun(worlds, events) && i < |events| && events[i].Start?
    requires var plan := StartPlan(worlds[i].node, events[i].seeds, events[i].node, events[i].cluster);
             plan.refused.None? && events[i].cut >= |plan.writes|
    ensures var u := worlds[i + 1];
            && Resumes(u.node, events[i].seeds) && u.node.identity.value.node in u.bound
            && u.bound[u.node.identity.value.node].cluster == u.node.identity.value.cluster.value
    ensures events[i].seeds.Alone? ==>
              var u := worlds[i + 1];
              u.node.consensus.value.recorded == Some(u.bound[u.node.identity.value.node].cluster)
  {
    var e := events[i];
    var writes := StartPlan(worlds[i].node, e.seeds, e.node, e.cluster).writes;
    assert Follows(worlds[i], e, worlds[i + 1]);
    assert writes[..|writes|] == writes;
    NoteAllNode(worlds[i], writes);
    ComesUpUnderItsOwnName(worlds[i].node, e.seeds, e.node, e.cluster);
    RunIsSound(worlds, events, i + 1);
  }
}
