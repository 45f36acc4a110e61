/** Grouping cluster nodes by the failure-domain labels they carry. */
module Topology {
  import opened Sequences

  /** A node and its labels; a label that is missing or null is not in the map. */
  datatype ClusterNode = ClusterNode(id: string, domain: map<string, string>)

  datatype TreeNode = TreeNode(
    text: string, level: string, unlabelled: bool, children: seq<TreeNode>, nodes: seq<ClusterNode>)

  const LEVELS: seq<string> := ["region", "datacenter", "zone", "rack"]

  function Label(node: ClusterNode, level: string): string {
    if level in node.domain then node.domain[level] else ""
  }

  predicate SomeLabelled(nodes: seq<ClusterNode>, level: string) {
    exists n :: n in nodes && Label(n, level) != ""
  }

  /** The nodes carrying one of these values, in order. */
  function Select(nodes: seq<ClusterNode>, level: string, values: set<string>): seq<ClusterNode> {
    if nodes == [] then []
    else (if Label(nodes[0], level) in values then [nodes[0]] else []) + Select(nodes[1..], level, values)
  }

  function Group(nodes: seq<ClusterNode>, level: string, value: string): seq<ClusterNode> {
    Select(nodes, level, {value})
  }

  /** The values met, each at its first occurrence: the order in which a Map lists its keys. */
  function Values(nodes: seq<ClusterNode>, level: string): seq<string> {
    if nodes == [] then []
    else
      var before, last := Values(nodes[..|nodes| - 1], level), Label(nodes[|nodes| - 1], level);
      if last in before then before else before + [last]
  }

  function LabelText(level: string, value: string): string {
    if value == "" then "No " + level else level + " " + value
  }

  /** A collation: sorts by some locale's comparison, so all that is known is that it rearranges. */
  ghost predicate Rearranges(collate: seq<string> -> seq<string>) {
    forall keys: seq<string> {:trigger collate(keys)} :: multiset(collate(keys)) == multiset(keys)
  }

  function Grown(level: string, value: string, grouped: seq<ClusterNode>, children: seq<TreeNode>): TreeNode {
    TreeNode(LabelText(level, value), level, value == "", children, if children == [] then grouped else [])
  }

  function BuildTree(collate: seq<string> -> seq<string>, nodes: seq<ClusterNode>, levels: seq<string>): seq<TreeNode>
    decreases |levels|, 0, 0
  {
    if levels == [] then []
    else if !SomeLabelled(nodes, levels[0]) then BuildTree(collate, nodes, levels[1..])
    else Branches(collate, nodes, levels, collate(Values(nodes, levels[0])))
  }

  function Branches(collate: seq<string> -> seq<string>, nodes: seq<ClusterNode>, levels: seq<string>,
                    values: seq<string>): seq<TreeNode>
    requires levels != []
    decreases |levels| - 1, 1, |values|
  {
    if values == [] then []
    else
      var grouped := Group(nodes, levels[0], values[0]);
      [Grown(levels[0], values[0], grouped, BuildTree(collate, grouped, levels[1..]))]
      + Branches(collate, nodes, levels, values[1..])
  }

  // --------------------------------------------------------------- the program

  /** The grouping loop, filling a map of lists. */
  method GroupNodes(nodes: seq<ClusterNode>, level: string)
    returns (keys: seq<string>, groups: map<string, seq<ClusterNode>>)
    ensures keys == Values(nodes, level)
    ensures forall k :: k in keys <==> k in groups
    ensures forall k :: k in groups ==> groups[k] == Group(nodes, level, k)
  {
    keys, groups := [], map[];
    for i := 0 to |nodes|
      invariant keys == Values(nodes[..i], level)
      invariant forall k :: k in keys <==> k in groups
      invariant forall k :: k in groups ==> groups[k] == Group(nodes[..i], level, k)
    {
      var value := Label(nodes[i], level);
      assert nodes[..i + 1][..i] == nodes[..i] && nodes[..i + 1][i] == nodes[i];
      assert nodes[..i + 1] == nodes[..i] + [nodes[i]];
      forall k ensures Group(nodes[..i + 1], level, k) ==
                       Group(nodes[..i], level, k) + if value == k then [nodes[i]] else [] {
        SelectSnoc(nodes[..i], nodes[i], level, {k});
      }
      if value in groups {
        groups := groups[value := groups[value] + [nodes[i]]];
      } else {
        NotMet(nodes[..i], level, value);
        keys, groups := keys + [value], groups[value := [nodes[i]]];
      }
    }
    assert nodes[..|nodes|] == nodes;
  }

  lemma SelectMore(n: ClusterNode, nodes: seq<ClusterNode>, level: string, values: set<string>)
    ensures Select([n] + nodes, level, values) ==
            (if Label(n, level) in values then [n] else []) + Select(nodes, level, values)
  {
    assert ([n] + nodes)[0] == n && ([n] + nodes)[1..] == nodes;
  }

  lemma {:induction false} SelectConcat(a: seq<ClusterNode>, b: seq<ClusterNode>, level: string, values: set<string>)
    ensures Select(a + b, level, values) == Select(a, level, values) + Select(b, level, values)
    decreases |a|
  {
    if a == [] {
      assert a + b == b;
    } else {
      var first := if Label(a[0], level) in values then [a[0]] else [];
      assert a + b == [a[0]] + (a[1..] + b);
      SelectMore(a[0], a[1..] + b, level, values);
      SelectConcat(a[1..], b, level, values);
      Regroup(first, Select(a[1..], level, values), Select(b, level, values));
    }
  }

  lemma SelectSnoc(nodes: seq<ClusterNode>, n: ClusterNode, level: string, values: set<string>)
    ensures Select(nodes + [n], level, values) ==
            Select(nodes, level, values) + if Label(n, level) in values then [n] else []
  {
    SelectConcat(nodes, [n], level, values);
    assert [n][1..] == [];
    assert Select([n], level, values) == if Label(n, level) in values then [n] else [];
  }

  lemma {:induction false} ValuesAreLabels(nodes: seq<ClusterNode>, level: string)
    ensures forall v :: v in Values(nodes, level) <==> exists n :: n in nodes && Label(n, level) == v
    ensures forall i, j :: 0 <= i < j < |Values(nodes, level)| ==> Values(nodes, level)[i] != Values(nodes, level)[j]
    decreases |nodes|
  {
    if nodes != [] {
      var before, last := nodes[..|nodes| - 1], nodes[|nodes| - 1];
      ValuesAreLabels(before, level);
      assert nodes == before + [last];
      forall v ensures v in Values(nodes, level) <==> exists n :: n in nodes && Label(n, level) == v {
        if v in Values(nodes, level) {
          if v in Values(before, level) {
            var n :| n in before && Label(n, level) == v;
            assert n in nodes;
          } else {
            assert last in nodes && Label(last, level) == v;
          }
        }
        if exists n :: n in nodes && Label(n, level) == v {
          var n :| n in nodes && Label(n, level) == v;
          assert n in before || n == last;
        }
      }
    }
  }

  lemma NotMet(nodes: seq<ClusterNode>, level: string, value: string)
    requires value !in Values(nodes, level)
    ensures Group(nodes, level, value) == []
  {
    ValuesAreLabels(nodes, level);
    NoneSelected(nodes, level, {value});
  }

  lemma {:induction false} NoneSelected(nodes: seq<ClusterNode>, level: string, values: set<string>)
    requires forall n :: n in nodes ==> Label(n, level) !in values
    ensures Select(nodes, level, values) == []
    decreases |nodes|
  {
    if nodes != [] {
      assert nodes[0] in nodes && forall n :: n in nodes[1..] ==> n in nodes;
      NoneSelected(nodes[1..], level, values);
    }
  }

  /** `buildTree`. */
  method Build(collate: seq<string> -> seq<string>, nodes: seq<ClusterNode>, levels: seq<string>)
    returns (trees: seq<TreeNode>)
    requires Rearranges(collate)
    ensures trees == BuildTree(collate, nodes, levels)
    decreases |levels|, 1
  {
    if levels == [] {
      return [];
    }
    var level := levels[0];
    if !(exists n :: n in nodes && Label(n, level) != "") {
      trees := Build(collate, nodes, levels[1..]);
      return;
    }
    var keys, groups := GroupNodes(nodes, level);
    var sorted := collate(keys);
    assert forall k :: k in sorted ==> k in groups by {
      assert forall k :: k in sorted ==> k in multiset(sorted);
      assert forall k :: k in multiset(keys) ==> k in keys;
    }
    trees := Branch(collate, nodes, levels, sorted, groups);
  }

  /** One tree per group, in the given order. */
  method Branch(collate: seq<string> -> seq<string>, nodes: seq<ClusterNode>, levels: seq<string>, sorted: seq<string>,
                groups: map<string, seq<ClusterNode>>) returns (trees: seq<TreeNode>)
    requires Rearranges(collate) && levels != []
    requires forall k :: k in sorted ==> k in groups
    requires forall k :: k in groups ==> groups[k] == Group(nodes, levels[0], k)
    ensures trees == Branches(collate, nodes, levels, sorted)
    decreases |levels|, 0
  {
    trees := [];
    ghost var all, left := Branches(collate, nodes, levels, sorted), Branches(collate, nodes, levels, sorted);
    assert sorted[0..] == sorted;
    var i := 0;
    while i < |sorted|
      invariant i <= |sorted| && trees + left == all
      invariant left == Branches(collate, nodes, levels, sorted[i..])
    {
      var grouped := groups[sorted[i]];
      var children := Build(collate, grouped, levels[1..]);
      var tree := Grown(levels[0], sorted[i], grouped, children);
      assert sorted[i..][0] == sorted[i] && sorted[i..][1..] == sorted[i + 1..];
      ghost var rest := Branches(collate, nodes, levels, sorted[i + 1..]);
      assert left == [tree] + rest;
      Regroup(trees, [tree], rest);
      trees, left, i := trees + [tree], rest, i + 1;
    }
    assert sorted[i..] == [];
    assert trees + [] == trees;
  }

  // ------------------------------------------------------ nothing lost, nothing twice

  /** The nodes hanging off some trees, however deep. */
  ghost function Leaves(trees: seq<TreeNode>): multiset<ClusterNode>
    decreases trees
  {
    if trees == [] then multiset{}
    else multiset(trees[0].nodes) + Leaves(trees[0].children) + Leaves(trees[1..])
  }

  lemma {:induction false} SelectApart(nodes: seq<ClusterNode>, level: string, value: string, others: set<string>)
    requires value !in others
    ensures multiset(Select(nodes, level, {value} + others)) ==
            multiset(Group(nodes, level, value)) + multiset(Select(nodes, level, others))
    decreases |nodes|
  {
    if nodes != [] {
      SelectApart(nodes[1..], level, value, others);
    }
  }

  lemma {:induction false} SelectAll(nodes: seq<ClusterNode>, level: string, values: set<string>)
    requires forall n :: n in nodes ==> Label(n, level) in values
    ensures Select(nodes, level, values) == nodes
    decreases |nodes|
  {
    if nodes != [] {
      assert nodes[0] in nodes && forall n :: n in nodes[1..] ==> n in nodes;
      SelectAll(nodes[1..], level, values);
      assert nodes == [nodes[0]] + nodes[1..];
    }
  }

  ghost function SetOf(values: seq<string>): set<string> {
    set v | v in values
  }

  ghost predicate NoRepeats(values: seq<string>) {
    forall i, j :: 0 <= i < j < |values| ==> values[i] != values[j]
  }

  lemma BranchLeaves(tree: TreeNode, level: string, value: string, grouped: seq<ClusterNode>, children: seq<TreeNode>)
    requires tree == Grown(level, value, grouped, children)
    requires children != [] ==> Leaves(children) == multiset(grouped)
    ensures multiset(tree.nodes) + Leaves(tree.children) == multiset(grouped)
  {
  }

  lemma LeavesOfSome(tree: TreeNode, others: seq<TreeNode>)
    ensures Leaves([tree] + others) == multiset(tree.nodes) + Leaves(tree.children) + Leaves(others)
  {
    assert ([tree] + others)[0] == tree && ([tree] + others)[1..] == others;
  }

  lemma SelectFirst(nodes: seq<ClusterNode>, level: string, values: seq<string>)
    requires values != [] && NoRepeats(values)
    ensures multiset(Select(nodes, level, SetOf(values))) ==
            multiset(Group(nodes, level, values[0])) + multiset(Select(nodes, level, SetOf(values[1..])))
  {
    SelectApart(nodes, level, values[0], SetOf(values[1..]));
    assert SetOf(values) == {values[0]} + SetOf(values[1..]);
  }

  lemma {:induction false} BranchesLeaves(collate: seq<string> -> seq<string>, nodes: seq<ClusterNode>,
                                          levels: seq<string>, values: seq<string>)
    requires Rearranges(collate) && levels != [] && NoRepeats(values)
    ensures Leaves(Branches(collate, nodes, levels, values)) == multiset(Select(nodes, levels[0], SetOf(values)))
    decreases |levels| - 1, 1, |values|
  {
    if values == [] {
      NoneSelected(nodes, levels[0], SetOf(values));
    } else {
      var grouped := Group(nodes, levels[0], values[0]);
      var children := BuildTree(collate, grouped, levels[1..]);
      var tree := Grown(levels[0], values[0], grouped, children);
      LeavesAreTheNodes(collate, grouped, levels[1..]);
      BranchLeaves(tree, levels[0], values[0], grouped, children);
      BranchesLeaves(collate, nodes, levels, values[1..]);
      LeavesOfSome(tree, Branches(collate, nodes, levels, values[1..]));
      SelectFirst(nodes, levels[0], values);
    }
  }

  lemma CollatedValues(collate: seq<string> -> seq<string>, nodes: seq<ClusterNode>, level: string)
    requires Rearranges(collate)
    ensures NoRepeats(collate(Values(nodes, level)))
    ensures forall v :: v in collate(Values(nodes, level)) <==> exists n :: n in nodes && Label(n, level) == v
  {
    var keys := Values(nodes, level);
    var sorted := collate(keys);
    ValuesAreLabels(nodes, level);
    SameMultiset(keys, sorted);
  }

  lemma SameMultiset(a: seq<string>, b: seq<string>)
    requires multiset(a) == multiset(b)
    ensures forall v :: v in a <==> v in b
    ensures NoRepeats(a) ==> NoRepeats(b)
  {
    forall v ensures v in a <==> v in b {
      assert v in a <==> v in multiset(a);
      assert v in b <==> v in multiset(b);
    }
    if NoRepeats(a) {
      OneEach(a);
      forall i, j | 0 <= i < j < |b| ensures b[i] != b[j] {
        Twice(b, i, j);
      }
    }
  }

  lemma Twice(b: seq<string>, i: nat, j: nat)
    requires i < j < |b|
    ensures b[i] == b[j] ==> multiset(b)[b[i]] >= 2
  {
    assert b == b[..i] + [b[i]] + b[i + 1..j] + [b[j]] + b[j + 1..];
  }

  lemma {:induction false} OneEach(a: seq<string>)
    requires NoRepeats(a)
    ensures forall v :: multiset(a)[v] <= 1
    decreases |a|
  {
    if a != [] {
      OneEach(a[1..]);
      assert a == [a[0]] + a[1..];
      assert a[0] !in a[1..];
      assert multiset(a[1..])[a[0]] == 0;
    }
  }

  /** Unless the tree is empty, its leaves are the nodes, each as often as it was given. */
  lemma {:induction false} LeavesAreTheNodes(collate: seq<string> -> seq<string>, nodes: seq<ClusterNode>,
                                             levels: seq<string>)
    requires Rearranges(collate)
    ensures BuildTree(collate, nodes, levels) != [] ==> Leaves(BuildTree(collate, nodes, levels)) == multiset(nodes)
    decreases |levels|, 0, 0
  {
    if levels != [] {
      if !SomeLabelled(nodes, levels[0]) {
        LeavesAreTheNodes(collate, nodes, levels[1..]);
      } else {
        var values := collate(Values(nodes, levels[0]));
        CollatedValues(collate, nodes, levels[0]);
        BranchesLeaves(collate, nodes, levels, values);
        forall n | n in nodes ensures Label(n, levels[0]) in SetOf(values) {
          assert Label(n, levels[0]) in values;
        }
        SelectAll(nodes, levels[0], SetOf(values));
      }
    }
  }

  /** The tree is empty exactly when no node is labelled at any level. */
  lemma {:induction false} EmptyExactly(collate: seq<string> -> seq<string>, nodes: seq<ClusterNode>,
                                        levels: seq<string>)
    requires Rearranges(collate)
    ensures BuildTree(collate, nodes, levels) == [] <==> forall level :: level in levels ==> !SomeLabelled(nodes, level)
    decreases |levels|
  {
    if levels != [] {
      assert forall l :: l in levels <==> l == levels[0] || l in levels[1..];
      if SomeLabelled(nodes, levels[0]) {
        CollatedValues(collate, nodes, levels[0]);
        var n :| n in nodes && Label(n, levels[0]) != "";
        assert Label(n, levels[0]) in collate(Values(nodes, levels[0]));
      } else {
        EmptyExactly(collate, nodes, levels[1..]);
      }
    }
  }

  // ------------------------------------------------------------ labels on the way

  /** Every node below a tree carries the tree's own value at the tree's level. */
  ghost predicate Carries(tree: TreeNode) {
    forall n :: n in multiset(tree.nodes) + Leaves(tree.children) ==>
      LabelText(tree.level, Label(n, tree.level)) == tree.text && (tree.unlabelled <==> Label(n, tree.level) == "")
  }

  /** A level at which some of these nodes is labelled. */
  ghost predicate InUse(nodes: multiset<ClusterNode>, level: string) {
    exists n :: n in nodes && Label(n, level) != ""
  }

  /** The levels from the first one in use inwards. */
  ghost function Shown(nodes: multiset<ClusterNode>, levels: seq<string>): (shown: seq<string>)
    ensures |shown| <= |levels| && shown == levels[|levels| - |shown|..]
    ensures forall i :: 0 <= i < |levels| - |shown| ==> !InUse(nodes, levels[i])
    ensures shown != [] ==> InUse(nodes, shown[0])
  {
    if levels == [] then []
    else if InUse(nodes, levels[0]) then levels
    else Shown(nodes, levels[1..])
  }

  /** The nodes below a tree. */
  ghost function Under(tree: TreeNode): multiset<ClusterNode> {
    multiset(tree.nodes) + Leaves(tree.children)
  }

  /**
   * Exactly the levels in use are shown: the trees are at the first level at
   * which some of the nodes here is labelled, and so again below each of them.
   * Labels match all the way down, and nodes hang where no level is left in use.
   */
  ghost predicate WellLabelled(nodes: multiset<ClusterNode>, trees: seq<TreeNode>, levels: seq<string>)
    decreases |levels|, 1
  {
    var shown := Shown(nodes, levels);
    if shown == [] then trees == []
    else Leaves(trees) == nodes && forall i :: 0 <= i < |trees| ==> WellGrown(trees[i], shown)
  }

  ghost predicate WellGrown(tree: TreeNode, shown: seq<string>)
    requires shown != []
    decreases |shown|, 0
  {
    && tree.level == shown[0] && Carries(tree) && WellLabelled(Under(tree), tree.children, shown[1..])
    && (tree.children != [] ==> tree.nodes == [])
  }

  lemma {:induction false} SelectedCarry(nodes: seq<ClusterNode>, level: string, values: set<string>)
    ensures forall n :: n in Select(nodes, level, values) ==> n in nodes && Label(n, level) in values
    decreases |nodes|
  {
    if nodes != [] {
      SelectedCarry(nodes[1..], level, values);
    }
  }

  lemma BranchCarries(collate: seq<string> -> seq<string>, nodes: seq<ClusterNode>, levels: seq<string>, value: string)
    requires Rearranges(collate) && levels != []
    ensures var grouped := Group(nodes, levels[0], value);
            Carries(Grown(levels[0], value, grouped, BuildTree(collate, grouped, levels[1..])))
  {
    var grouped := Group(nodes, levels[0], value);
    var children := BuildTree(collate, grouped, levels[1..]);
    LeavesAreTheNodes(collate, grouped, levels[1..]);
    BranchLeaves(Grown(levels[0], value, grouped, children), levels[0], value, grouped, children);
    SelectedCarry(nodes, levels[0], {value});
    assert forall n :: n in multiset(grouped) ==> n in grouped;
  }

  lemma {:induction false} BranchesLabelled(collate: seq<string> -> seq<string>, nodes: seq<ClusterNode>,
                                            levels: seq<string>, values: seq<string>)
    requires Rearranges(collate) && levels != []
    ensures var trees := Branches(collate, nodes, levels, values);
            AllGrown(trees, levels, values)
    decreases |levels| - 1, 1, |values|
  {
    if values != [] {
      var grouped := Group(nodes, levels[0], values[0]);
      var tree := Grown(levels[0], values[0], grouped, BuildTree(collate, grouped, levels[1..]));
      BranchGrown(collate, nodes, levels, values[0]);
      BranchesLabelled(collate, nodes, levels, values[1..]);
      OneMoreGrown(tree, Branches(collate, nodes, levels, values[1..]), levels, values);
    }
  }

  ghost predicate AllGrown(trees: seq<TreeNode>, levels: seq<string>, values: seq<string>)
    requires levels != []
  {
    |trees| == |values| && forall i :: 0 <= i < |trees| ==>
      WellGrown(trees[i], levels) && trees[i].text == LabelText(levels[0], values[i])
  }

  lemma OneMoreGrown(tree: TreeNode, rest: seq<TreeNode>, levels: seq<string>, values: seq<string>)
    requires levels != [] && values != [] && AllGrown(rest, levels, values[1..])
    requires WellGrown(tree, levels) && tree.text == LabelText(levels[0], values[0])
    ensures AllGrown([tree] + rest, levels, values)
  {
    var trees := [tree] + rest;
    forall i | 0 <= i < |trees|
      ensures WellGrown(trees[i], levels) && trees[i].text == LabelText(levels[0], values[i])
    {
      if i > 0 {
        assert trees[i] == rest[i - 1] && values[i] == values[1..][i - 1];
      }
    }
  }

  lemma {:induction false} BranchGrown(collate: seq<string> -> seq<string>, nodes: seq<ClusterNode>,
                                       levels: seq<string>, value: string)
    requires Rearranges(collate) && levels != []
    ensures var grouped := Group(nodes, levels[0], value);
            WellGrown(Grown(levels[0], value, grouped, BuildTree(collate, grouped, levels[1..])), levels)
    decreases |levels| - 1, 1, 0
  {
    var grouped := Group(nodes, levels[0], value);
    var children := BuildTree(collate, grouped, levels[1..]);
    var tree := Grown(levels[0], value, grouped, children);
    BranchCarries(collate, nodes, levels, value);
    LeavesAreTheNodes(collate, grouped, levels[1..]);
    BranchLeaves(tree, levels[0], value, grouped, children);
    LabelsMatch(collate, grouped, levels[1..]);
  }

  lemma InUseHere(nodes: seq<ClusterNode>, level: string)
    ensures SomeLabelled(nodes, level) <==> InUse(multiset(nodes), level)
  {
    assert forall n :: n in nodes <==> n in multiset(nodes);
  }

  /** The levels shown are those in use, and labels along every path are the node's own. */
  lemma {:induction false} LabelsMatch(collate: seq<string> -> seq<string>, nodes: seq<ClusterNode>,
                                       levels: seq<string>)
    requires Rearranges(collate)
    ensures WellLabelled(multiset(nodes), BuildTree(collate, nodes, levels), levels)
    decreases |levels|, 0, 0
  {
    if levels != [] {
      InUseHere(nodes, levels[0]);
      if !SomeLabelled(nodes, levels[0]) {
        LabelsMatch(collate, nodes, levels[1..]);
      } else {
        BranchesLabelled(collate, nodes, levels, collate(Values(nodes, levels[0])));
        LeavesAreTheNodes(collate, nodes, levels);
        EmptyExactly(collate, nodes, levels);
      }
    }
  }

  // ---------------------------------------------------------------------- order

  /** A collation that sorts: no key after one it must not precede. */
  ghost predicate Collates(collate: seq<string> -> seq<string>, before: (string, string) -> bool) {
    && Rearranges(collate)
    && forall keys: seq<string>, i: nat, j: nat {:trigger collate(keys)[i], collate(keys)[j]} ::
         i < j < |collate(keys)| ==> before(collate(keys)[i], collate(keys)[j])
  }

  /** One list within another, in order. */
  ghost predicate Within(part: seq<ClusterNode>, whole: seq<ClusterNode>)
    decreases |whole|
  {
    part == []
    || (whole != [] && ((part[0] == whole[0] && Within(part[1..], whole[1..])) || Within(part, whole[1..])))
  }

  lemma {:induction false} SelectWithin(nodes: seq<ClusterNode>, level: string, values: set<string>)
    ensures Within(Select(nodes, level, values), nodes)
    decreases |nodes|
  {
    if nodes != [] {
      SelectWithin(nodes[1..], level, values);
      var rest := Select(nodes[1..], level, values);
      assert ([nodes[0]] + rest)[1..] == rest && [] + rest == rest;
    }
  }

  lemma {:induction false} WithinOnward(a: seq<ClusterNode>, b: seq<ClusterNode>, c: seq<ClusterNode>)
    requires Within(a, b) && Within(b, c)
    ensures Within(a, c)
    decreases |b| + |c|
  {
    if a != [] {
      if b[0] == c[0] && Within(b[1..], c[1..]) {
        if a[0] == b[0] && Within(a[1..], b[1..]) {
          WithinOnward(a[1..], b[1..], c[1..]);
        } else {
          WithinOnward(a, b[1..], c[1..]);
        }
      } else {
        WithinOnward(a, b, c[1..]);
      }
    }
  }

  /** The value a tree stands for. */
  function ValueOf(tree: TreeNode): string {
    if tree.unlabelled || |tree.text| <= |tree.level| then "" else tree.text[|tree.level| + 1..]
  }

  /** Siblings in the order of their values, and nodes in the order they were given in. */
  ghost predicate InOrder(before: (string, string) -> bool, nodes: seq<ClusterNode>, trees: seq<TreeNode>)
    decreases trees
  {
    && (forall i, j :: 0 <= i < j < |trees| ==> before(ValueOf(trees[i]), ValueOf(trees[j])))
    && forall i :: 0 <= i < |trees| ==> Within(trees[i].nodes, nodes) && InOrder(before, nodes, trees[i].children)
  }

  lemma {:induction false} OrderWidens(before: (string, string) -> bool, part: seq<ClusterNode>,
                                       whole: seq<ClusterNode>, trees: seq<TreeNode>)
    requires InOrder(before, part, trees) && Within(part, whole)
    ensures InOrder(before, whole, trees)
    decreases trees
  {
    forall i | 0 <= i < |trees| ensures Within(trees[i].nodes, whole) && InOrder(before, whole, trees[i].children) {
      WithinOnward(trees[i].nodes, part, whole);
      OrderWidens(before, part, whole, trees[i].children);
    }
  }

  lemma ValueShown(level: string, value: string, grouped: seq<ClusterNode>, children: seq<TreeNode>)
    ensures ValueOf(Grown(level, value, grouped, children)) == value
  {
    if value != "" {
      assert (level + " " + value)[|level| + 1..] == value;
    }
  }

  lemma BranchInOrder(collate: seq<string> -> seq<string>, before: (string, string) -> bool, nodes: seq<ClusterNode>,
                      levels: seq<string>, value: string)
    requires Collates(collate, before) && levels != []
    ensures var tree := Grown(levels[0], value, Group(nodes, levels[0], value),
                              BuildTree(collate, Group(nodes, levels[0], value), levels[1..]));
            && ValueOf(tree) == value && Within(tree.nodes, nodes) && InOrder(before, nodes, tree.children)
    decreases |levels| - 1, 1, 0
  {
    var grouped := Group(nodes, levels[0], value);
    ValueShown(levels[0], value, grouped, BuildTree(collate, grouped, levels[1..]));
    SelectWithin(nodes, levels[0], {value});
    TreeInOrder(collate, before, grouped, levels[1..]);
    OrderWidens(before, grouped, nodes, BuildTree(collate, grouped, levels[1..]));
  }

  lemma {:induction false} BranchesInOrder(collate: seq<string> -> seq<string>, before: (string, string) -> bool,
                                           nodes: seq<ClusterNode>, levels: seq<string>, values: seq<string>)
    requires Collates(collate, before) && levels != []
    ensures var trees := Branches(collate, nodes, levels, values);
            |trees| == |values| && forall i :: 0 <= i < |trees| ==>
              && ValueOf(trees[i]) == values[i] && Within(trees[i].nodes, nodes)
              && InOrder(before, nodes, trees[i].children)
    decreases |levels| - 1, 2, |values|
  {
    if values != [] {
      BranchInOrder(collate, before, nodes, levels, values[0]);
      BranchesInOrder(collate, before, nodes, levels, values[1..]);
    }
  }

  /** Siblings come in the collation's order, and the nodes of each in the order they were given in. */
  lemma {:induction false} TreeInOrder(collate: seq<string> -> seq<string>, before: (string, string) -> bool,
                                       nodes: seq<ClusterNode>, levels: seq<string>)
    requires Collates(collate, before)
    ensures InOrder(before, nodes, BuildTree(collate, nodes, levels))
    decreases |levels|, 0, 0
  {
    if levels != [] {
      if !SomeLabelled(nodes, levels[0]) {
        TreeInOrder(collate, before, nodes, levels[1..]);
      } else {
        BranchesInOrder(collate, before, nodes, levels, collate(Values(nodes, levels[0])));
      }
    }
  }

  // ------------------------------------------------------------------- siblings

  ghost predicate DistinctSiblings(trees: seq<TreeNode>)
    decreases trees
  {
    && (forall i, j :: 0 <= i < j < |trees| ==> trees[i].text != trees[j].text)
    && (forall i :: 0 <= i < |trees| ==> DistinctSiblings(trees[i].children))
  }

  /** Level names that cannot be mistaken for the text of a missing label. */
  ghost predicate Proper(levels: seq<string>) {
    forall level :: level in levels ==> level != "" && level[0] != 'N'
  }

  lemma LevelsAreProper()
    ensures Proper(LEVELS)
  {
  }

  lemma TextTellsValues(level: string, a: string, b: string)
    requires level != "" && level[0] != 'N' && a != b
    ensures LabelText(level, a) != LabelText(level, b)
  {
    assert ("No " + level)[0] == 'N';
    assert (level + " " + a)[0] == level[0] && (level + " " + b)[0] == level[0];
    assert (level + " " + a)[|level| + 1..] == a && (level + " " + b)[|level| + 1..] == b;
  }

  lemma {:induction false} BranchesChildren(collate: seq<string> -> seq<string>, nodes: seq<ClusterNode>,
                                            levels: seq<string>, values: seq<string>)
    requires Rearranges(collate) && levels != [] && Proper(levels)
    ensures forall i :: 0 <= i < |Branches(collate, nodes, levels, values)| ==>
              DistinctSiblings(Branches(collate, nodes, levels, values)[i].children)
    decreases |levels| - 1, 1, |values|
  {
    if values != [] {
      assert Proper(levels[1..]) by {
        assert forall l :: l in levels[1..] ==> l in levels;
      }
      SiblingsDiffer(collate, Group(nodes, levels[0], values[0]), levels[1..]);
      BranchesChildren(collate, nodes, levels, values[1..]);
    }
  }

  /** No two siblings carry the same text. */
  lemma {:induction false} SiblingsDiffer(collate: seq<string> -> seq<string>, nodes: seq<ClusterNode>,
                                          levels: seq<string>)
    requires Rearranges(collate) && Proper(levels)
    ensures DistinctSiblings(BuildTree(collate, nodes, levels))
    decreases |levels|, 0, 0
  {
    if levels != [] {
      if !SomeLabelled(nodes, levels[0]) {
        assert Proper(levels[1..]) by {
          assert forall l :: l in levels[1..] ==> l in levels;
        }
        SiblingsDiffer(collate, nodes, levels[1..]);
      } else {
        var values := collate(Values(nodes, levels[0]));
        CollatedValues(collate, nodes, levels[0]);
        BranchesChildren(collate, nodes, levels, values);
        BranchesLabelled(collate, nodes, levels, values);
        var trees := Branches(collate, nodes, levels, values);
        forall i, j | 0 <= i < j < |trees| ensures trees[i].text != trees[j].text {
          assert levels[0] in levels;
          TextTellsValues(levels[0], values[i], values[j]);
        }
      }
    }
  }

  /** The tree the console shows. */
  lemma TopologySiblingsDiffer(collate: seq<string> -> seq<string>, nodes: seq<ClusterNode>)
    requires Rearranges(collate)
    ensures DistinctSiblings(BuildTree(collate, nodes, LEVELS))
  {
    LevelsAreProper();
    SiblingsDiffer(collate, nodes, LEVELS);
  }

  // ------------------------------------------------------------------ an example

  lemma OneKey(collate: seq<string> -> seq<string>, key: string)
    requires Rearranges(collate)
    ensures collate([key]) == [key]
  {
    assert multiset(collate([key])) == multiset([key]);
    SameMultiset([key], collate([key]));
    assert |collate([key])| == |multiset(collate([key]))| == 1;
    assert collate([key])[0] in collate([key]);
  }

  lemma OneNodeAt(collate: seq<string> -> seq<string>, n: ClusterNode, levels: seq<string>)
    requires Rearranges(collate) && levels != []
    ensures BuildTree(collate, [n], levels) ==
            if Label(n, levels[0]) == "" then BuildTree(collate, [n], levels[1..])
            else [Grown(levels[0], Label(n, levels[0]), [n], BuildTree(collate, [n], levels[1..]))]
  {
    var value := Label(n, levels[0]);
    assert [n][..0] == [] && Values([], levels[0]) == [] && Values([n], levels[0]) == [value];
    assert [n][1..] == [] && Select([], levels[0], {value}) == [];
    assert Group([n], levels[0], value) == [n] + [] == [n];
    OneKey(collate, value);
    if value != "" {
      assert n in [n];
      assert [value][1..] == [] && Branches(collate, [n], levels, []) == [];
      assert Branches(collate, [n], levels, [value]) ==
             [Grown(levels[0], value, [n], BuildTree(collate, [n], levels[1..]))] + [];
    }
  }

  lemma LevelNames()
    ensures "rack" != "region" && "zone" != "region" && "zone" != "rack"
    ensures "datacenter" != "region" && "datacenter" != "rack"
  {
    assert "rack"[1] == 'a' && "region"[1] == 'e' && "zone"[0] == 'z' && "datacenter"[0] == 'd';
    assert "rack"[0] == 'r' && "region"[0] == 'r';
  }

  lemma RackOnly(collate: seq<string> -> seq<string>, n: ClusterNode)
    requires Rearranges(collate) && Label(n, "datacenter") == "" && Label(n, "zone") == "" && Label(n, "rack") == "r1"
    ensures BuildTree(collate, [n], ["datacenter", "zone", "rack"]) == [TreeNode("rack r1", "rack", false, [], [n])]
  {
    assert ["datacenter", "zone", "rack"][1..] == ["zone", "rack"];
    assert ["zone", "rack"][1..] == ["rack"] && ["rack"][1..] == [];
    OneNodeAt(collate, n, ["datacenter", "zone", "rack"]);
    OneNodeAt(collate, n, ["zone", "rack"]);
    OneNodeAt(collate, n, ["rack"]);
    assert "rack" + " " + "r1" == "rack r1";
  }

  /** A node with a region and a rack hangs off its rack, below its region. */
  lemma RegionAndRack(collate: seq<string> -> seq<string>, n: ClusterNode)
    requires Rearranges(collate) && n.domain == map["region" := "eu", "rack" := "r1"]
    ensures BuildTree(collate, [n], LEVELS) ==
            [TreeNode("region eu", "region", false, [TreeNode("rack r1", "rack", false, [], [n])], [])]
  {
    LevelNames();
    assert Label(n, "region") == "eu" && Label(n, "rack") == "r1";
    assert Label(n, "datacenter") == "" && Label(n, "zone") == "";
    RackOnly(collate, n);
    assert LEVELS[1..] == ["datacenter", "zone", "rack"];
    OneNodeAt(collate, n, LEVELS);
    assert "region" + " " + "eu" == "region eu";
  }
}
