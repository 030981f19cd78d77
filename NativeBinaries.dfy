/**
  The native binaries of a build and the state the resolver builds from them:
  the registry of binaries by key, and the index of each registered binary's
  dependency list.
*/
module NativeBinaries {
  import opened Wrappers
  import opened LinkedMaps
  import opened StateKeys
  import opened Sequences

  /** A `LibraryBinaryIdentifier`: project path (possibly null), library name, variant. */
  datatype BinaryId = BinaryId(projectPath: Option<string>, libraryName: string, variant: string)

  /**
    A native binary: its identifier, whether it is buildable, and the library
    binaries it links against (`getDependentBinaries()`), in declaration order.
  */
  datatype Binary = Binary(id: BinaryId, buildable: bool, dependentBinaries: seq<BinaryId>)

  /** A variant component and its native binaries, in model order. */
  datatype Component = Component(binaries: seq<Binary>)

  /** A project: whether it applies the component model plugin, and its realized components. */
  datatype Project = Project(appliesComponentModel: bool, components: seq<Component>)

  /** `State`: the `binaries` and `dependencies` linked hash maps. */
  datatype State = State(binaries: LinkedMap<Binary>, dependencies: LinkedMap<seq<BinaryId>>)

  /** The key of an identifier. */
  function IdKey(id: BinaryId): string {
    StateKeyOf(id.projectPath, id.libraryName, id.variant)
  }

  /**
    Two identifiers whose library and variant names hold no separator share a
    key exactly when their project prefixes and their names agree.
  */
  lemma IdKeyInjective(a: BinaryId, b: BinaryId)
    requires NoSeparator(a.libraryName) && NoSeparator(a.variant)
    requires NoSeparator(b.libraryName) && NoSeparator(b.variant)
    ensures IdKey(a) == IdKey(b)
        <==> ProjectPrefix(a.projectPath) == ProjectPrefix(b.projectPath)
             && a.libraryName == b.libraryName && a.variant == b.variant
  {
    StateKeyInjective(a.projectPath, a.libraryName, a.variant, b.projectPath, b.libraryName, b.variant);
  }

  /** `stateKeyOf(binary)`: the key of a binary's identifier. */
  function KeyOf(b: Binary): string {
    IdKey(b.id)
  }

  /** The binaries of the components, component after component. */
  function BinariesOf(components: seq<Component>): seq<Binary>
  {
    if components == [] then []
    else BinariesOf(components[..|components| - 1]) + components[|components| - 1].binaries
  }

  /** A binary is listed exactly when some component holds it. */
  lemma {:induction false} BinariesOfMembers(components: seq<Component>, b: Binary)
    ensures b in BinariesOf(components) <==> exists i :: 0 <= i < |components| && b in components[i].binaries
  {
    if components != [] {
      var init := components[..|components| - 1];
      BinariesOfMembers(init, b);
      assert forall i :: 0 <= i < |init| ==> init[i] == components[i];
    }
  }

  /** `allBinariesOf(components)`. */
  method AllBinariesOf(components: seq<Component>) returns (binaries: seq<Binary>)
    ensures binaries == BinariesOf(components)
  {
    binaries := [];
    for i := 0 to |components|
      invariant binaries == BinariesOf(components[..i])
    {
      var nativeComponent := components[i];
      for j := 0 to |nativeComponent.binaries|
        invariant binaries == BinariesOf(components[..i]) + nativeComponent.binaries[..j]
      {
        binaries := binaries + [nativeComponent.binaries[j]];
      }
      assert components[..i + 1][..i] == components[..i];
    }
    assert components[..|components|] == components;
  }

  /** The binaries the first loop of `buildState` registers, in visiting order. */
  function ScannedBinaries(projects: seq<Project>): seq<Binary>
  {
    if projects == [] then []
    else
      var last := projects[|projects| - 1];
      ScannedBinaries(projects[..|projects| - 1])
        + (if last.appliesComponentModel then BinariesOf(last.components) else [])
  }

  /** A binary is scanned exactly when a project with the component model plugin holds it. */
  lemma {:induction false} ScannedBinariesMembers(projects: seq<Project>, b: Binary)
    ensures b in ScannedBinaries(projects)
        <==> exists i :: 0 <= i < |projects| && projects[i].appliesComponentModel
                         && b in BinariesOf(projects[i].components)
  {
    if projects != [] {
      var init := projects[..|projects| - 1];
      ScannedBinariesMembers(init, b);
      assert forall i :: 0 <= i < |init| ==> init[i] == projects[i];
    }
  }

  /** `binaries.put(stateKeyOf(binary), binary)` for each binary in turn, from an empty map. */
  function Register(bins: seq<Binary>): (r: LinkedMap<Binary>)
    ensures forall k :: k in r.entries ==> KeyOf(r.entries[k]) == k
  {
    if bins == [] then Empty()
    else
      var last := bins[|bins| - 1];
      Register(bins[..|bins| - 1]).Put(KeyOf(last), last)
  }

  /** The registry is a well-formed linked map. */
  lemma {:induction false} RegisterValid(bins: seq<Binary>)
    ensures Register(bins).Valid()
  {
    if bins != [] {
      var last := bins[|bins| - 1];
      RegisterValid(bins[..|bins| - 1]);
      PutValid(Register(bins[..|bins| - 1]), KeyOf(last), last);
    }
  }

  /** The `binaries` map built from the projects, already in sorted order. */
  function Registry(projects: seq<Project>): LinkedMap<Binary> {
    Register(ScannedBinaries(projects))
  }

  /** Exactly the keys of the scanned binaries are registered. */
  lemma RegisterKeys(bins: seq<Binary>, k: string)
    ensures k in Register(bins).entries <==> exists i :: 0 <= i < |bins| && KeyOf(bins[i]) == k
  {
    RegisterValid(bins);
    RegisterFirstInsertionOrder(bins);
    if k in KeysOf(bins) {
      var i :| 0 <= i < |bins| && KeysOf(bins)[i] == k;
      assert KeyOf(bins[i]) == k;
    }
  }

  /** A later binary with the same key overwrites an earlier one: each key holds its last binary. */
  lemma {:induction false} RegisterLastWins(bins: seq<Binary>, i: nat)
    requires i < |bins|
    requires forall j :: i < j < |bins| ==> KeyOf(bins[j]) != KeyOf(bins[i])
    ensures KeyOf(bins[i]) in Register(bins).entries
    ensures Register(bins).entries[KeyOf(bins[i])] == bins[i]
  {
    if i < |bins| - 1 {
      var init := bins[..|bins| - 1];
      assert forall j :: i < j < |init| ==> init[j] == bins[j];
      RegisterLastWins(init, i);
    }
  }

  /** The binary a key holds is the last scanned binary with that key; `i` is its position. */
  lemma {:induction false} RegisterHoldsLast(bins: seq<Binary>, k: string) returns (i: nat)
    requires k in Register(bins).entries
    ensures i < |bins| && Register(bins).entries[k] == bins[i]
    ensures forall j :: i < j < |bins| ==> KeyOf(bins[j]) != k
  {
    var init, last := bins[..|bins| - 1], bins[|bins| - 1];
    if KeyOf(last) == k {
      i := |bins| - 1;
    } else {
      i := RegisterHoldsLast(init, k);
      assert bins[i] == init[i];
      SplitLast(bins);
      LaterKeysDiffer(init, last, i, k);
    }
  }

  /** No binary after position `i` has key `k`, given that none later in `init` has and `last` has not. */
  lemma LaterKeysDiffer(init: seq<Binary>, last: Binary, i: nat, k: string)
    requires i < |init|
    requires forall j :: i < j < |init| ==> KeyOf(init[j]) != k
    requires KeyOf(last) != k
    ensures forall j :: i < j < |init| + 1 ==> KeyOf((init + [last])[j]) != k
  {
  }

  /**
    A scanned binary stays registered exactly when no later scanned binary has
    its key: the others are overwritten.
  */
  lemma RegisteredBinaries(bins: seq<Binary>, b: Binary)
    ensures b in Register(bins).entries.Values
        <==> exists i :: 0 <= i < |bins| && bins[i] == b && forall j :: i < j < |bins| ==> KeyOf(bins[j]) != KeyOf(b)
  {
    if b in Register(bins).entries.Values {
      var k :| k in Register(bins).entries && Register(bins).entries[k] == b;
      var i := RegisterHoldsLast(bins, k);
      assert KeyOf(b) == k;
    }
    if exists i :: 0 <= i < |bins| && bins[i] == b && forall j :: i < j < |bins| ==> KeyOf(bins[j]) != KeyOf(b) {
      var i :| 0 <= i < |bins| && bins[i] == b && forall j :: i < j < |bins| ==> KeyOf(bins[j]) != KeyOf(b);
      RegisterLastWins(bins, i);
    }
  }

  /** The keys of the binaries, in order, repetitions included. */
  function KeysOf(bins: seq<Binary>): (ks: seq<string>)
    ensures |ks| == |bins| && forall i :: 0 <= i < |bins| ==> ks[i] == KeyOf(bins[i])
  {
    if bins == [] then [] else KeysOf(bins[..|bins| - 1]) + [KeyOf(bins[|bins| - 1])]
  }

  /**
    The registry iterates over its keys in first-insertion order: a reused key
    keeps the position its first binary gave it.
  */
  lemma {:induction false} RegisterFirstInsertionOrder(bins: seq<Binary>)
    ensures Register(bins).keys == InsertionOrder(KeysOf(bins))
    ensures forall p, q :: 0 <= p < q < |Register(bins).keys| ==>
              IndexIn(KeysOf(bins), Register(bins).keys[p]) < IndexIn(KeysOf(bins), Register(bins).keys[q])
  {
    if bins != [] {
      var init := bins[..|bins| - 1];
      RegisterFirstInsertionOrder(init);
      RegisterValid(init);
      assert KeysOf(bins)[..|bins| - 1] == KeysOf(init);
      assert KeyOf(bins[|bins| - 1]) in Register(init).entries <==> KeyOf(bins[|bins| - 1]) in InsertionOrder(KeysOf(init));
    }
    InsertionOrderFollowsFirstOccurrence(KeysOf(bins));
  }

  /**
    The invariant `buildState` establishes: both maps are well formed, every
    binary sits under its own key, and `dependencies` has exactly the keys of
    `binaries`, in the same order, each mapped to that binary's dependency list.
  */
  ghost predicate WellFormed(s: State) {
    && s.binaries.Valid()
    && s.dependencies.Valid()
    && s.dependencies.keys == s.binaries.keys
    && (forall k :: k in s.binaries.entries ==> KeyOf(s.binaries.entries[k]) == k)
    && (forall k :: k in s.dependencies.entries ==>
          k in s.binaries.entries && s.dependencies.entries[k] == s.binaries.entries[k].dependentBinaries)
  }

  /** The `dependencies` map built from `binaries` by the second loop of `buildState`. */
  function IndexOf(binaries: LinkedMap<Binary>): LinkedMap<seq<BinaryId>> {
    LinkedMap(binaries.keys, map k | k in binaries.entries :: binaries.entries[k].dependentBinaries)
  }

  /** The state `buildState` returns for the projects. */
  function StateOf(projects: seq<Project>): (s: State)
    ensures WellFormed(s)
    ensures s.binaries == Registry(projects)
    ensures forall k :: k in s.dependencies.entries <==> k in s.binaries.entries
  {
    RegisterValid(ScannedBinaries(projects));
    State(Registry(projects), IndexOf(Registry(projects)))
  }

  /** One more project scanned. */
  lemma ScannedBinariesStep(projects: seq<Project>, i: nat)
    requires i < |projects|
    ensures ScannedBinaries(projects[..i + 1])
         == ScannedBinaries(projects[..i])
            + (if projects[i].appliesComponentModel then BinariesOf(projects[i].components) else [])
  {
    assert projects[..i + 1][..i] == projects[..i];
  }

  /** One more binary registered. */
  lemma RegisterStep(bins: seq<Binary>, b: Binary)
    ensures Register(bins + [b]) == Register(bins).Put(KeyOf(b), b)
  {
    assert (bins + [b])[..|bins|] == bins;
  }

  /**
    The first loop of `buildState`: for each project in order that applies the
    component model, put every native binary of its components under its key.
  */
  method RegisterBinaries(projects: seq<Project>) returns (binaries: LinkedMap<Binary>)
    ensures binaries == Registry(projects)
  {
    binaries := Empty<Binary>();
    for i := 0 to |projects|
      invariant binaries == Register(ScannedBinaries(projects[..i]))
    {
      var project := projects[i];
      ScannedBinariesStep(projects, i);
      if project.appliesComponentModel {
        var bins := AllBinariesOf(project.components);
        binaries := PutBinaries(binaries, bins, ScannedBinaries(projects[..i]));
      } else {
        assert ScannedBinaries(projects[..i]) + [] == ScannedBinaries(projects[..i]);
      }
    }
    assert projects[..|projects|] == projects;
  }

  /** The inner loop of the first loop: `binaries.put(stateKeyOf(binary), binary)` for each binary in turn. */
  method PutBinaries(binaries: LinkedMap<Binary>, bins: seq<Binary>, ghost before: seq<Binary>)
    returns (result: LinkedMap<Binary>)
    requires binaries == Register(before)
    ensures result == Register(before + bins)
  {
    result := binaries;
    assert before + bins[..0] == before;
    for j := 0 to |bins|
      invariant result == Register(before + bins[..j])
    {
      RegisterPrefixStep(before, bins, j);
      result := result.Put(KeyOf(bins[j]), bins[j]);
    }
    assert bins[..|bins|] == bins;
  }

  /**
    The second loop of `buildState`: walk `binaries` in iteration order, give
    each key an empty list unless it has one, and append the binary's
    dependencies to it one by one.
  */
  method IndexDependencies(binaries: LinkedMap<Binary>) returns (dependencies: LinkedMap<seq<BinaryId>>)
    requires binaries.Valid()
    ensures dependencies == IndexOf(binaries)
  {
    dependencies := Empty<seq<BinaryId>>();
    var keys := binaries.keys;
    for i := 0 to |keys|
      invariant dependencies.keys == keys[..i]
      invariant forall k :: k in dependencies.entries <==> k in keys[..i]
      invariant forall k :: k in dependencies.entries ==>
                  dependencies.entries[k] == binaries.entries[k].dependentBinaries
    {
      var key := keys[i];
      var nativeBinary := binaries.entries[key];
      TakeOneMore(keys, i);
      assert key !in keys[..i];
      if key !in dependencies.entries {
        dependencies := dependencies.Put(key, []);
      }
      dependencies := AppendDependencies(dependencies, key, nativeBinary.dependentBinaries);
    }
    TakeAll(keys);
    assert dependencies.entries == IndexOf(binaries).entries;
  }

  /** The inner loop of the second loop: `dependencies.get(key).add(libraryBinary)` for each library in turn. */
  method AppendDependencies(dependencies: LinkedMap<seq<BinaryId>>, key: string, libraries: seq<BinaryId>)
    returns (result: LinkedMap<seq<BinaryId>>)
    requires key in dependencies.entries
    ensures result.keys == dependencies.keys
    ensures result.entries == dependencies.entries[key := dependencies.entries[key] + libraries]
  {
    result := dependencies;
    ghost var start := dependencies.entries[key];
    assert start + libraries[..0] == start;
    for j := 0 to |libraries|
      invariant result.keys == dependencies.keys
      invariant result.entries == dependencies.entries[key := start + libraries[..j]]
    {
      TakeOneMore(libraries, j);
      assert (start + libraries[..j]) + [libraries[j]] == start + libraries[..j + 1];
      result := result.Put(key, result.entries[key] + [libraries[j]]);
    }
    TakeAll(libraries);
  }

  /** One more binary of a project registered. */
  lemma RegisterPrefixStep(before: seq<Binary>, bins: seq<Binary>, j: nat)
    requires j < |bins|
    ensures Register(before + bins[..j + 1]) == Register(before + bins[..j]).Put(KeyOf(bins[j]), bins[j])
  {
    assert before + bins[..j + 1] == (before + bins[..j]) + [bins[j]];
    RegisterStep(before + bins[..j], bins[j]);
  }

  /**
    `buildState(includeTestSuites)`: register the binaries, then index their
    dependency lists. `includeTestSuites` has no effect: test suites are never
    registered.
  */
  method BuildState(projects: seq<Project>, includeTestSuites: bool) returns (state: State)
    ensures state == StateOf(projects)
  {
    var binaries := RegisterBinaries(projects);
    RegisterValid(ScannedBinaries(projects));
    var dependencies := IndexDependencies(binaries);
    state := State(binaries, dependencies);
  }
}
