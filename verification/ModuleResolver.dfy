/**
 Resolution of an import statement to one of the indexed modules: the longest package prefix of
 the imported name that is itself a known module.
 */
module ModuleResolver {

  import opened Wrappers
  import opened DottedNames

  /** The absolute name an import statement refers to; `level` counts leading dots. */
  function Candidate(sourceModule: string, importName: string, level: nat): string {
    if level == 0 then importName
    else
      var parts := Split(sourceModule);
      var prefix := if level < |parts| then parts[..|parts| - level] else [];
      Join(prefix + if importName != "" then [importName] else [])
  }

  lemma {:induction false} JoinLast(parts: seq<string>, name: string)
    requires parts != []
    ensures Join(parts + [name]) == Join(parts) + "." + name
  {
    assert (parts + [name])[1..] == parts[1..] + [name];
    if |parts| == 1 {
      assert parts[1..] + [name] == [name];
    } else {
      JoinLast(parts[1..], name);
      assert parts[0] + "." + (Join(parts[1..]) + "." + name) == parts[0] + "." + Join(parts[1..]) + "." + name;
    }
  }

  /** A relative import leaves out as many parts of the importing module's name as it has dots. */
  lemma RelativeImport(package: seq<string>, dropped: seq<string>, importName: string)
    requires dropped != [] && forall i :: 0 <= i < |package + dropped| ==> '.' !in (package + dropped)[i]
    ensures Candidate(Join(package + dropped), importName, |dropped|) ==
            if package == [] then importName
            else if importName == "" then Join(package)
            else Join(package) + "." + importName
  {
    var parts := package + dropped;
    SplitJoin(parts);
    assert package != [] ==> parts[..|parts| - |dropped|] == package;
    assert package + [] == package && [] + [importName] == [importName];
    if package != [] {
      JoinLast(package, importName);
    }
  }

  /** With more dots than parts only the imported name is left; without dots nothing is left out. */
  lemma OtherImports(sourceModule: string, importName: string, level: nat)
    ensures level == 0 || level >= |Split(sourceModule)| ==> Candidate(sourceModule, importName, level) == importName
  {
    assert [] + [importName] == [importName];
  }

  /** `p` is `s` itself or a package that contains it. */
  ghost predicate DottedPrefix(p: string, s: string) {
    p <= s && (|p| < |s| ==> s[|p|] == '.')
  }

  /** `rsplit(".", 1)[0]` of a name that contains a dot. */
  function Parent(s: string): (p: string)
    requires '.' in s
    ensures |p| < |s| && DottedPrefix(p, s)
    ensures forall q :: DottedPrefix(q, s) && q != s ==> DottedPrefix(q, p)
  {
    if s[|s| - 1] == '.' then
      assert s == s[..|s| - 1] + ['.'];
      s[..|s| - 1]
    else
      assert s == s[..|s| - 1] + [s[|s| - 1]];
      Parent(s[..|s| - 1])
  }

  method ResolveModuleTarget(modules: set<string>, sourceModule: string, importName: string, level: nat)
    returns (target: Option<string>)
    ensures target.Some? ==>
              && target.value in modules && target.value != ""
              && DottedPrefix(target.value, Candidate(sourceModule, importName, level))
    ensures forall m :: m in modules && m != "" && DottedPrefix(m, Candidate(sourceModule, importName, level)) ==>
              target.Some? && |m| <= |target.value|
  {
    var candidate := Candidate(sourceModule, importName, level);
    var cur := candidate;
    while cur != ""
      invariant DottedPrefix(cur, candidate)
      invariant forall m :: m in modules && DottedPrefix(m, candidate) ==> DottedPrefix(m, cur)
      decreases |cur|
    {
      if cur in modules {
        return Some(cur);
      }
      if '.' in cur {
        cur := Parent(cur);
      } else {
        assert forall m :: DottedPrefix(m, cur) ==> m == cur;
        break;
      }
    }
    return None;
  }
}
