/**
  Two small registries over any binaries whose state keys differ: a chain,
  where a termination rank exists, and
  a pair of binaries linking against each other, where no rank exists, so the
  resolver's precondition excludes this input, on which `buildResolvedResult`
  would call itself until the stack overflows.
*/
module ResolutionExamples {
  import opened LinkedMaps
  import opened NativeBinaries
  import opened DependentsResolution
  import opened Sequences

  predicate KeysDiffer(a: BinaryId, b: BinaryId) {
    IdKey(a) != IdKey(b)
  }

  /** A registry holding `c` linking against `b`, and `b` linking against `a`, in that key order. */
  function Chain(a: BinaryId, b: BinaryId, c: BinaryId): State {
    var binaries := LinkedMap([IdKey(a), IdKey(b), IdKey(c)],
                              map[IdKey(a) := Binary(a, true, []),
                                  IdKey(b) := Binary(b, true, [a]),
                                  IdKey(c) := Binary(c, false, [b])]);
    State(binaries, IndexOf(binaries))
  }

  function ChainRank(a: BinaryId, b: BinaryId, c: BinaryId): map<BinaryId, nat> {
    map[a := 2, b := 1, c := 0]
  }

  /** The chain registry keys each binary under its own state key. */
  lemma ChainWellFormed(a: BinaryId, b: BinaryId, c: BinaryId)
    requires KeysDiffer(a, b) && KeysDiffer(a, c) && KeysDiffer(b, c)
    ensures WellFormed(Chain(a, b, c))
  {
    assert Chain(a, b, c).binaries.Valid();
  }

  /** Ranks 2, 1, 0 down the chain witness that no cycle is reachable from `a`. */
  lemma ChainAcyclic(a: BinaryId, b: BinaryId, c: BinaryId)
    requires KeysDiffer(a, b) && KeysDiffer(a, c) && KeysDiffer(b, c)
    ensures WellFormed(Chain(a, b, c))
    ensures AcyclicFrom(Chain(a, b, c), a, ChainRank(a, b, c))
  {
    ChainWellFormed(a, b, c);
    var entries := Chain(a, b, c).binaries.entries;
    var rank := ChainRank(a, b, c);
    assert a != b && a != c && b != c;
    assert rank[a] == 2 && rank[b] == 1 && rank[c] == 0;
    assert entries[IdKey(a)].dependentBinaries == [];
    assert entries[IdKey(b)] == Binary(b, true, [a]);
    assert entries[IdKey(c)] == Binary(c, false, [b]);
    forall x, k | x in rank && k in entries && x in entries[k].dependentBinaries
      ensures entries[k].id in rank && rank[entries[k].id] < rank[x]
    {
      assert k == IdKey(b) || k == IdKey(c);
    }
  }

  /** Among the registered lists, only the one held under `k` may name `target`. */
  ghost predicate OnlyListedUnder(s: State, target: BinaryId, k: string)
    requires WellFormed(s)
  {
    forall k' :: k' in s.dependencies.keys && k' != k ==> target !in s.dependencies.entries[k']
  }

  /** A target named only in the list under `k` has a single result: the binary there, holding its own results. */
  lemma SingleDependentResolves(s: State, rank: map<BinaryId, nat>, t: BinaryId, k: string)
    requires WellFormed(s) && AcyclicFrom(s, t, rank)
    requires k in s.binaries.entries && t in s.binaries.entries[k].dependentBinaries
    requires OnlyListedUnder(s, t, k)
    ensures AcyclicFrom(s, s.binaries.entries[k].id, rank)
    ensures var b := s.binaries.entries[k];
      Resolve(t, s, rank) == [ResolvedResult(b.id, b.buildable, false, Resolve(b.id, s, rank))]
  {
    var b := s.binaries.entries[k];
    DependentsInSingle(s.dependencies.keys, s, t, k);
    assert Dependents(t, s) == [b];
    ResolveAt(t, s, rank, 0);
    ResolveLength(t, s, rank);
  }

  /**
    In any registry where `a` is named only in the list under `kb`, the binary
    there is named only in the list under `kc`, and the binary there is named
    in no list, the result for `a` is that binary holding the other, which
    holds nothing.
  */
  lemma ChainResolvesTransitively(s: State, rank: map<BinaryId, nat>, a: BinaryId, kb: string, kc: string)
    requires WellFormed(s) && AcyclicFrom(s, a, rank)
    requires kb in s.binaries.entries && kc in s.binaries.entries
    requires a in s.binaries.entries[kb].dependentBinaries && OnlyListedUnder(s, a, kb)
    requires s.binaries.entries[kb].id in s.binaries.entries[kc].dependentBinaries
    requires OnlyListedUnder(s, s.binaries.entries[kb].id, kc)
    requires forall k :: k in s.binaries.entries ==> s.binaries.entries[kc].id !in s.binaries.entries[k].dependentBinaries
    ensures var b, c := s.binaries.entries[kb], s.binaries.entries[kc];
      Resolve(a, s, rank) == [ResolvedResult(b.id, b.buildable, false, [ResolvedResult(c.id, c.buildable, false, [])])]
  {
    var b, c := s.binaries.entries[kb], s.binaries.entries[kc];
    SingleDependentResolves(s, rank, a, kb);
    SingleDependentResolves(s, rank, b.id, kc);
    ResolveEmptyIffNoDependents(c.id, s, rank);
  }

  /** A registry holding `a` linking against `b` and `b` linking against `a`. */
  function Cycle(a: BinaryId, b: BinaryId): State {
    var binaries := LinkedMap([IdKey(a), IdKey(b)],
                              map[IdKey(a) := Binary(a, true, [b]), IdKey(b) := Binary(b, true, [a])]);
    State(binaries, IndexOf(binaries))
  }

  /** The cyclic registry is well formed: only the recursion over it is in trouble. */
  lemma CycleWellFormed(a: BinaryId, b: BinaryId)
    requires KeysDiffer(a, b)
    ensures WellFormed(Cycle(a, b))
  {
    assert Cycle(a, b).binaries.Valid();
  }

  /** `a` depends on `b` and `b` on `a`, so no rank decreases along both edges. */
  lemma CycleHasNoRank(a: BinaryId, b: BinaryId, rank: map<BinaryId, nat>)
    requires KeysDiffer(a, b)
    ensures !AcyclicFrom(Cycle(a, b), a, rank)
  {
    var entries := Cycle(a, b).binaries.entries;
    assert IdKey(a) in entries && a in entries[IdKey(b)].dependentBinaries;
    assert IdKey(b) in entries && b in entries[IdKey(a)].dependentBinaries;
  }
}
