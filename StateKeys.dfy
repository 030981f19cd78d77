/**
  The registry key of a native binary: the project path (or the root
  separator when the path is null or empty), the component name and the
  variant name, joined by the project path separator.
*/
module StateKeys {
  import opened Wrappers

  /** Gradle's project path separator. */
  const PathSeparator: string := ":"

  /** `emptyToNull(project) == null`: a null or empty project path. */
  predicate IsRootPath(project: Option<string>) {
    project == None || project == Some("")
  }

  /** The part of the key contributed by the project path. */
  function ProjectPrefix(project: Option<string>): (prefix: string)
    ensures prefix != []
    ensures IsRootPath(project) <==> prefix == PathSeparator && project != Some(PathSeparator)
    ensures !IsRootPath(project) ==> prefix == project.value
  {
    if IsRootPath(project) then PathSeparator else project.value
  }

  /** `stateKeyOf(project, component, binary)`. */
  function StateKeyOf(project: Option<string>, component: string, variant: string): (key: string)
  {
    ProjectPrefix(project) + PathSeparator + component + PathSeparator + variant
  }

  /** The separator does not occur in `s`. */
  predicate NoSeparator(s: string) {
    ':' !in s
  }

  /**
    Splitting at the last separator: when neither tail holds a separator,
    `x + ":" + v1 == y + ":" + v2` forces equal heads and equal tails.
  */
  lemma {:induction false} SplitAtLastSeparator(x: string, v1: string, y: string, v2: string)
    requires NoSeparator(v1) && NoSeparator(v2)
    requires x + PathSeparator + v1 == y + PathSeparator + v2
    ensures x == y && v1 == v2
  {
    var s := x + PathSeparator + v1;
    var n := |s|;
    assert s[n - 1 - |v1|] == ':';
    assert s[n - 1 - |v2|] == ':' by { assert s == y + PathSeparator + v2; }
    assert |v1| == |v2|;
    assert v1 == s[n - |v1|..];
    assert v2 == s[n - |v2|..] by { assert s == y + PathSeparator + v2; }
    assert x == s[..n - 1 - |v1|];
    assert y == s[..n - 1 - |v2|] by { assert s == y + PathSeparator + v2; }
  }

  /**
    Two keys agree exactly when the project prefixes, the component names and
    the variant names agree, provided the names hold no separator.
  */
  lemma StateKeyInjective(p1: Option<string>, c1: string, v1: string,
                          p2: Option<string>, c2: string, v2: string)
    requires NoSeparator(c1) && NoSeparator(v1) && NoSeparator(c2) && NoSeparator(v2)
    ensures StateKeyOf(p1, c1, v1) == StateKeyOf(p2, c2, v2)
        <==> ProjectPrefix(p1) == ProjectPrefix(p2) && c1 == c2 && v1 == v2
  {
    if StateKeyOf(p1, c1, v1) == StateKeyOf(p2, c2, v2) {
      var h1 := ProjectPrefix(p1) + PathSeparator + c1;
      var h2 := ProjectPrefix(p2) + PathSeparator + c2;
      assert h1 + PathSeparator + v1 == h2 + PathSeparator + v2;
      SplitAtLastSeparator(h1, v1, h2, v2);
      SplitAtLastSeparator(ProjectPrefix(p1), c1, ProjectPrefix(p2), c2);
    }
  }

  /** A null path, an empty path and the root path ":" give the same key, two separators then the names. */
  lemma RootPathKey(component: string, variant: string)
    ensures StateKeyOf(None, component, variant) == "::" + component + ":" + variant
    ensures StateKeyOf(Some(""), component, variant) == "::" + component + ":" + variant
    ensures StateKeyOf(Some(PathSeparator), component, variant) == "::" + component + ":" + variant
  {
  }

  /** A separator inside a component name lets two different identities share a key. */
  lemma SeparatorInComponentCollides()
    ensures StateKeyOf(Some(":app"), "lib:x", "debug") == StateKeyOf(Some(":app:lib"), "x", "debug")
  {
  }
}
