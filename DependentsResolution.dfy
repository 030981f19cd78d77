/**
  The reverse-dependency query: the registered binaries that depend on a
  target, and the tree of their own dependents, built recursively.
*/
module DependentsResolution {
  import opened Wrappers
  import opened LinkedMaps
  import opened NativeBinaries
  import opened Sequences

  /** A `DefaultDependentBinariesResolvedResult`: identifier, buildable, test suite, children. */
  datatype ResolvedResult = ResolvedResult(id: BinaryId, buildable: bool, testSuite: bool,
                                           children: seq<ResolvedResult>)

  /** The query target: a native binary, or a binary of some other kind. */
  datatype BinarySpec = NativeBinarySpec(binary: Binary) | OtherBinarySpec(id: BinaryId)

  /**
    The `getDependents` scan over the keys `ks`, a prefix of the `dependencies`
    iteration order: the registered binary of each key whose dependency list
    contains the target.
  */
  function DependentsIn(ks: seq<string>, s: State, target: BinaryId): (r: seq<Binary>)
    requires WellFormed(s)
    requires forall k :: k in ks ==> k in s.dependencies.entries
    ensures |r| <= |ks|
    ensures forall i :: 0 <= i < |r| ==>
              KeyOf(r[i]) in ks && KeyOf(r[i]) in s.binaries.entries
              && s.binaries.entries[KeyOf(r[i])] == r[i] && target in r[i].dependentBinaries
  {
    if ks == [] then []
    else
      var k := ks[|ks| - 1];
      DependentsIn(ks[..|ks| - 1], s, target)
        + (if target in s.dependencies.entries[k] then [s.binaries.entries[k]] else [])
  }

  /** Every scanned key whose list contains the target contributes its binary. */
  lemma {:induction false} DependentsInComplete(ks: seq<string>, s: State, target: BinaryId, k: string)
    requires WellFormed(s)
    requires forall k' :: k' in ks ==> k' in s.dependencies.entries
    requires Distinct(ks)
    requires k in ks && target in s.dependencies.entries[k]
    ensures s.binaries.entries[k] in DependentsIn(ks, s, target)
  {
    var init, last := ks[..|ks| - 1], ks[|ks| - 1];
    SplitLast(ks);
    if k != last {
      assert k in init;
      DependentsInComplete(init, s, target, k);
    }
  }

  /** Scanning one more key appends that key's binary exactly when its list contains the target. */
  lemma DependentsInSnoc(ks: seq<string>, k: string, s: State, target: BinaryId)
    requires WellFormed(s)
    requires forall k' :: k' in ks + [k] ==> k' in s.dependencies.entries
    ensures DependentsIn(ks + [k], s, target)
         == DependentsIn(ks, s, target) + (if target in s.dependencies.entries[k] then [s.binaries.entries[k]] else [])
  {
    assert (ks + [k])[..|ks|] == ks;
  }

  /** The direct dependents of `target`, in `dependencies` iteration order. */
  function Dependents(target: BinaryId, s: State): seq<Binary>
    requires WellFormed(s)
  {
    DependentsIn(s.dependencies.keys, s, target)
  }

  /** The scan keeps the iteration order of the keys: dependents come in strictly increasing key position. */
  lemma {:induction false} DependentsInOrder(ks: seq<string>, s: State, target: BinaryId)
    requires WellFormed(s)
    requires forall k :: k in ks ==> k in s.dependencies.entries
    requires Distinct(ks)
    ensures Increasing(ks, KeysOf(DependentsIn(ks, s, target)))
  {
    if ks != [] {
      var init, last := ks[..|ks| - 1], ks[|ks| - 1];
      SplitLast(ks);
      DependentsInOrder(init, s, target);
      DependentsInSnoc(init, last, s, target);
      var r0 := DependentsIn(init, s, target);
      if target in s.dependencies.entries[last] {
        var e := s.binaries.entries[last];
        assert KeysOf(r0 + [e]) == KeysOf(r0) + [last];
        IncreasingSnoc(init, last, KeysOf(r0));
      } else {
        AppendEmpty(r0);
        IncreasingExtend(init, [last], KeysOf(r0));
      }
    }
  }

  /**
    `getDependents(target, state)`: exactly the registered binaries whose
    dependency list contains the target, each once, in `dependencies`
    iteration order; never more of them than there are keys.
  */
  lemma DependentsSpec(target: BinaryId, s: State)
    requires WellFormed(s)
    ensures |Dependents(target, s)| <= |s.binaries.keys|
    ensures forall i :: 0 <= i < |Dependents(target, s)| ==>
              var b := Dependents(target, s)[i];
              KeyOf(b) in s.binaries.entries && s.binaries.entries[KeyOf(b)] == b && target in b.dependentBinaries
    ensures forall k :: k in s.binaries.entries && target in s.binaries.entries[k].dependentBinaries ==>
              s.binaries.entries[k] in Dependents(target, s)
    ensures forall p, q :: 0 <= p < q < |Dependents(target, s)| ==>
              IndexIn(s.binaries.keys, KeyOf(Dependents(target, s)[p]))
                < IndexIn(s.binaries.keys, KeyOf(Dependents(target, s)[q]))
  {
    DependentsComplete(target, s);
    DependentsOrdered(target, s);
  }

  /** Every registered binary whose list contains the target is among its dependents. */
  lemma DependentsComplete(target: BinaryId, s: State)
    requires WellFormed(s)
    ensures forall k :: k in s.binaries.entries && target in s.binaries.entries[k].dependentBinaries ==>
              s.binaries.entries[k] in Dependents(target, s)
  {
    forall k | k in s.binaries.entries && target in s.binaries.entries[k].dependentBinaries
      ensures s.binaries.entries[k] in Dependents(target, s)
    {
      DependentsInComplete(s.dependencies.keys, s, target, k);
    }
  }

  /** The dependents come in strictly increasing position of their keys in the registry. */
  lemma DependentsOrdered(target: BinaryId, s: State)
    requires WellFormed(s)
    ensures forall p, q :: 0 <= p < q < |Dependents(target, s)| ==>
              IndexIn(s.binaries.keys, KeyOf(Dependents(target, s)[p]))
                < IndexIn(s.binaries.keys, KeyOf(Dependents(target, s)[q]))
  {
    DependentsInOrder(s.dependencies.keys, s, target);
    var r := Dependents(target, s);
    var ks := KeysOf(r);
    forall p, q | 0 <= p < q < |r|
      ensures IndexIn(s.binaries.keys, KeyOf(r[p])) < IndexIn(s.binaries.keys, KeyOf(r[q]))
    {
      assert ks[p] == KeyOf(r[p]) && ks[q] == KeyOf(r[q]);
    }
  }

  /** Scanning keys none of whose lists contains the target finds nothing. */
  lemma {:induction false} DependentsInNone(ks: seq<string>, s: State, target: BinaryId)
    requires WellFormed(s)
    requires forall k :: k in ks ==> k in s.dependencies.entries && target !in s.dependencies.entries[k]
    ensures DependentsIn(ks, s, target) == []
  {
    if ks != [] {
      var init, last := ks[..|ks| - 1], ks[|ks| - 1];
      SplitLast(ks);
      DependentsInNone(init, s, target);
      DependentsInSnoc(init, last, s, target);
    }
  }

  /** Scanning keys of which exactly `k` has the target in its list finds the binary under `k` alone. */
  lemma {:induction false} DependentsInSingle(ks: seq<string>, s: State, target: BinaryId, k: string)
    requires WellFormed(s)
    requires forall k' :: k' in ks ==> k' in s.dependencies.entries
    requires Distinct(ks)
    requires k in ks && target in s.dependencies.entries[k]
    requires forall k' :: k' in ks && k' != k ==> target !in s.dependencies.entries[k']
    ensures DependentsIn(ks, s, target) == [s.binaries.entries[k]]
  {
    var init, last := ks[..|ks| - 1], ks[|ks| - 1];
    SplitLast(ks);
    DependentsInSnoc(init, last, s, target);
    if last == k {
      assert k !in init;
      DependentsInNone(init, s, target);
    } else {
      DependentsInSingle(init, s, target, k);
      AppendEmpty([s.binaries.entries[k]]);
    }
  }

  /** `getDependents(target, state)`. */
  method GetDependents(target: Binary, s: State) returns (dependents: seq<Binary>)
    requires WellFormed(s)
    ensures dependents == Dependents(target.id, s)
  {
    dependents := [];
    var keys := s.dependencies.keys;
    for i := 0 to |keys|
      invariant dependents == DependentsIn(keys[..i], s, target.id)
    {
      TakeOneMore(keys, i);
      DependentsInSnoc(keys[..i], keys[i], s, target.id);
      if target.id in s.dependencies.entries[keys[i]] {
        dependents := dependents + [s.binaries.entries[keys[i]]];
      }
    }
    TakeAll(keys);
  }

  /**
    The recursion of `buildResolvedResult` terminates from `target`: `rank`
    covers the target and every dependent of a binary it covers, and strictly
    decreases from a binary to each of its dependents. Such a rank exists
    exactly when no cycle of dependencies is reachable from the target.
  */
  ghost predicate AcyclicFrom(s: State, target: BinaryId, rank: map<BinaryId, nat>) {
    && target in rank
    && forall x, k :: x in rank && k in s.binaries.entries && x in s.binaries.entries[k].dependentBinaries ==>
         s.binaries.entries[k].id in rank && rank[s.binaries.entries[k].id] < rank[x]
  }

  /** Each direct dependent of a ranked target is ranked lower. */
  lemma DependentsRankLower(target: BinaryId, s: State, rank: map<BinaryId, nat>)
    requires WellFormed(s) && AcyclicFrom(s, target, rank)
    ensures forall i :: 0 <= i < |Dependents(target, s)| ==>
              AcyclicFrom(s, Dependents(target, s)[i].id, rank)
              && rank[Dependents(target, s)[i].id] < rank[target]
  {
    DependentsSpec(target, s);
  }

  /** `buildResolvedResult(target, state)`: one result per direct dependent, holding that dependent's own results. */
  function Resolve(target: BinaryId, s: State, rank: map<BinaryId, nat>): seq<ResolvedResult>
    requires WellFormed(s) && AcyclicFrom(s, target, rank)
    decreases rank[target]
  {
    var ds := Dependents(target, s);
    DependentsRankLower(target, s, rank);
    seq(|ds|, i requires 0 <= i < |ds| =>
      ResolvedResult(ds[i].id, ds[i].buildable, false, Resolve(ds[i].id, s, rank)))
  }

  /** One result per direct dependent. */
  lemma ResolveLength(target: BinaryId, s: State, rank: map<BinaryId, nat>)
    requires WellFormed(s) && AcyclicFrom(s, target, rank)
    ensures |Resolve(target, s, rank)| == |Dependents(target, s)|
  {
  }

  /** One result per direct dependent, in order, each holding that dependent's identifier and buildable flag. */
  lemma ResolveUnfold(target: BinaryId, s: State, rank: map<BinaryId, nat>)
    requires WellFormed(s) && AcyclicFrom(s, target, rank)
    ensures |Resolve(target, s, rank)| == |Dependents(target, s)|
    ensures forall i :: 0 <= i < |Dependents(target, s)| ==>
              AcyclicFrom(s, Dependents(target, s)[i].id, rank)
              && rank[Dependents(target, s)[i].id] < rank[target]
              && Resolve(target, s, rank)[i]
                 == ResolvedResult(Dependents(target, s)[i].id, Dependents(target, s)[i].buildable, false,
                                   Resolve(Dependents(target, s)[i].id, s, rank))
  {
    DependentsRankLower(target, s, rank);
  }

  /** The `i`-th result of `target` is built from its `i`-th direct dependent, ranked lower. */
  lemma ResolveAt(target: BinaryId, s: State, rank: map<BinaryId, nat>, i: nat)
    requires WellFormed(s) && AcyclicFrom(s, target, rank)
    requires i < |Dependents(target, s)|
    ensures AcyclicFrom(s, Dependents(target, s)[i].id, rank)
    ensures rank[Dependents(target, s)[i].id] < rank[target]
    ensures i < |Resolve(target, s, rank)|
    ensures Resolve(target, s, rank)[i]
         == ResolvedResult(Dependents(target, s)[i].id, Dependents(target, s)[i].buildable, false,
                           Resolve(Dependents(target, s)[i].id, s, rank))
  {
    ResolveUnfold(target, s, rank);
  }

  /** `n` stands for a registered binary whose dependency list contains `parent`, with its flags copied. */
  ghost predicate IsDependentResult(s: State, parent: BinaryId, n: ResolvedResult)
    requires WellFormed(s)
  {
    var k := IdKey(n.id);
    && k in s.binaries.entries
    && s.binaries.entries[k].id == n.id
    && parent in s.binaries.entries[k].dependentBinaries
    && n.buildable == s.binaries.entries[k].buildable
    && !n.testSuite
  }

  /**
    At every depth, the results below `parent` are exactly the registered
    binaries that depend on `parent`, in `dependencies` iteration order, with
    their flags copied.
  */
  ghost predicate MirrorsReverseEdges(s: State, parent: BinaryId, ns: seq<ResolvedResult>)
    requires WellFormed(s)
    decreases ns
  {
    && (forall i :: 0 <= i < |ns| ==> IsDependentResult(s, parent, ns[i]))
    && (forall k :: k in s.binaries.entries && parent in s.binaries.entries[k].dependentBinaries ==>
          exists i :: 0 <= i < |ns| && ns[i].id == s.binaries.entries[k].id)
    && (forall p, q :: 0 <= p < q < |ns| ==>
          IndexIn(s.binaries.keys, IdKey(ns[p].id))
            < IndexIn(s.binaries.keys, IdKey(ns[q].id)))
    && (forall i :: 0 <= i < |ns| ==> MirrorsReverseEdges(s, ns[i].id, ns[i].children))
  }

  /** The tree built for `target` mirrors the reverse dependency edges at every depth. */
  lemma {:induction false} ResolveMirrorsReverseEdges(target: BinaryId, s: State, rank: map<BinaryId, nat>)
    requires WellFormed(s) && AcyclicFrom(s, target, rank)
    ensures MirrorsReverseEdges(s, target, Resolve(target, s, rank))
    decreases rank[target]
  {
    var ds := Dependents(target, s);
    var r := Resolve(target, s, rank);
    DependentsSpec(target, s);
    DependentsRankLower(target, s, rank);
    assert |r| == |ds|;
    forall i | 0 <= i < |r|
      ensures r[i].id == ds[i].id && IdKey(r[i].id) == KeyOf(ds[i])
      ensures IsDependentResult(s, target, r[i])
      ensures MirrorsReverseEdges(s, r[i].id, r[i].children)
    {
      ResolveMirrorsReverseEdges(ds[i].id, s, rank);
    }
    forall k | k in s.binaries.entries && target in s.binaries.entries[k].dependentBinaries
      ensures exists i :: 0 <= i < |r| && r[i].id == s.binaries.entries[k].id
    {
      var i :| 0 <= i < |ds| && ds[i] == s.binaries.entries[k];
      assert r[i].id == s.binaries.entries[k].id;
    }
  }

  /**
    A binary that depends on two direct dependents of `target` appears below
    each of them: the result is a tree, and nodes reached along several paths
    are repeated, not shared.
  */
  lemma SharedDependentUnderEachPath(target: BinaryId, s: State, rank: map<BinaryId, nat>, i: nat, j: nat, k: string)
    requires WellFormed(s) && AcyclicFrom(s, target, rank)
    requires i < j < |Resolve(target, s, rank)|
    requires k in s.binaries.entries
    requires Resolve(target, s, rank)[i].id in s.binaries.entries[k].dependentBinaries
    requires Resolve(target, s, rank)[j].id in s.binaries.entries[k].dependentBinaries
    ensures exists p :: 0 <= p < |Resolve(target, s, rank)[i].children|
              && Resolve(target, s, rank)[i].children[p].id == s.binaries.entries[k].id
              && Resolve(target, s, rank)[i].children[p].buildable == s.binaries.entries[k].buildable
    ensures exists q :: 0 <= q < |Resolve(target, s, rank)[j].children|
              && Resolve(target, s, rank)[j].children[q].id == s.binaries.entries[k].id
              && Resolve(target, s, rank)[j].children[q].buildable == s.binaries.entries[k].buildable
  {
    ResolveMirrorsReverseEdges(target, s, rank);
    var r := Resolve(target, s, rank);
    assert MirrorsReverseEdges(s, r[i].id, r[i].children);
    assert MirrorsReverseEdges(s, r[j].id, r[j].children);
    assert IdKey(s.binaries.entries[k].id) == k;
  }

  /** A target that no registered binary depends on gets an empty list, and only such a target. */
  lemma ResolveEmptyIffNoDependents(target: BinaryId, s: State, rank: map<BinaryId, nat>)
    requires WellFormed(s) && AcyclicFrom(s, target, rank)
    ensures Resolve(target, s, rank) == []
        <==> forall k :: k in s.binaries.entries ==> target !in s.binaries.entries[k].dependentBinaries
  {
    DependentsSpec(target, s);
    ResolveUnfold(target, s, rank);
    var ds := Dependents(target, s);
    if ds != [] {
      assert KeyOf(ds[0]) in s.binaries.entries && target in s.binaries.entries[KeyOf(ds[0])].dependentBinaries;
    }
  }

  /** `buildResolvedResult(target, state)`. */
  method BuildResolvedResult(target: Binary, s: State, ghost rank: map<BinaryId, nat>)
    returns (result: seq<ResolvedResult>)
    requires WellFormed(s) && AcyclicFrom(s, target.id, rank)
    ensures result == Resolve(target.id, s, rank)
    decreases rank[target.id]
  {
    result := [];
    var dependents := GetDependents(target, s);
    ghost var full := Resolve(target.id, s, rank);
    ResolveLength(target.id, s, rank);
    for i := 0 to |dependents|
      invariant result == full[..i]
    {
      var dependent := dependents[i];
      ResolveAt(target.id, s, rank, i);
      var children := BuildResolvedResult(dependent, s, rank);
      TakeOneMore(full, i);
      result := result + [ResolvedResult(dependent.id, dependent.buildable, false, children)];
    }
    TakeAll(full);
  }

  /**
    `resolveDependents(target, includeTestSuites)`: no result (`null`) for a
    target that is not a native binary; otherwise the tree of its dependents
    over a freshly built state. `includeTestSuites` has no effect.
  */
  method ResolveDependents(target: BinarySpec, projects: seq<Project>, includeTestSuites: bool,
                           ghost rank: map<BinaryId, nat>)
    returns (result: Option<seq<ResolvedResult>>)
    requires target.NativeBinarySpec? ==> AcyclicFrom(StateOf(projects), target.binary.id, rank)
    ensures target.OtherBinarySpec? <==> result == None
    ensures target.NativeBinarySpec? ==> result == Some(Resolve(target.binary.id, StateOf(projects), rank))
  {
    if !target.NativeBinarySpec? {
      return None;
    }
    var state := BuildState(projects, includeTestSuites);
    var tree := BuildResolvedResult(target.binary, state, rank);
    result := Some(tree);
  }
}
