/**
 * Worked examples: single files of a namespaces tree and exactly what the checker reports
 * for each of them, for any directory and any plain name segments.
 */
module Scenarios {
  import opened Yaml
  import opened Report
  import opened Naming
  import opened Rules
  import opened Kustomize
  import opened Driver

  /** A document with the given `kind` and `metadata.name`. */
  function RbacObject(kind: string, name: string): Value
  {
    Mapping(map["kind" := Str(kind), "metadata" := Mapping(map["name" := Str(name)])])
  }

  /** Helper: the object built by RbacObject is checked, under the given name. */
  lemma RbacObjectName(kind: string, name: string)
    requires kind == "Role" || kind == "RoleBinding"
    ensures IsRbac(RbacObject(kind, name)) && Rules.Checkable(RbacObject(kind, name))
    ensures ObjectName(RbacObject(kind, name)) == name
  {
  }

  /** Helper: `dir/a-c.yml` passes the filename rule and expects the object name `a.c`. */
  lemma ExpectedOfConforming(dir: string, a: string, c: string)
    requires Plain(a) && Plain(c)
    ensures FilenameConvention(dir + "/" + a + "-" + c + ".yml")
    ensures ExpectedObjectName(dir + "/" + a + "-" + c + ".yml") == a + "." + c
    ensures DotPattern(a + "." + c)
  {
    var b := a + "-" + c + ".yml";
    assert dir + "/" + a + "-" + c + ".yml" == dir + "/" + b;
    assert '/' !in b by {
      PlainHasNoSeparator(a);
      PlainHasNoSeparator(c);
    }
    BasenameOfJoin(dir, b);
    BothConventionsJoin(a + "." + c, b, a, c);
  }

  /** `dir/a-c.yml` holding a Role or RoleBinding named `a.c` adds nothing (e.g. `alice-smith.yml` and `alice.smith`). */
  lemma ConformingObject(dir: string, a: string, c: string, kind: string)
    requires Plain(a) && Plain(c) && (kind == "Role" || kind == "RoleBinding")
    ensures DocumentFindings(dir + "/" + a + "-" + c + ".yml", RbacObject(kind, a + "." + c)) == []
  {
    RbacObjectName(kind, a + "." + c);
    ExpectedOfConforming(dir, a, c);
  }

  /**
   * `dir/a-c.yml` holding a Role or RoleBinding under any other name fails the object-name
   * rule alone, reporting `a.c` as expected (e.g. `alice-smith.yml` and `bob.jones`).
   */
  lemma ForeignName(dir: string, a: string, c: string, kind: string, name: string)
    requires Plain(a) && Plain(c) && (kind == "Role" || kind == "RoleBinding")
    requires name != a + "." + c
    ensures DocumentFindings(dir + "/" + a + "-" + c + ".yml", RbacObject(kind, name)) ==
      [ObjectNameMismatch(dir + "/" + a + "-" + c + ".yml", a + "." + c, name)]
  {
    RbacObjectName(kind, name);
    ExpectedOfConforming(dir, a, c);
    var path := dir + "/" + a + "-" + c + ".yml";
    var r := DocumentFindings(path, RbacObject(kind, name));
    assert |r| == 1 && ObjectNameMismatch(path, a + "." + c, name) in r;
  }

  /**
   * `dir/a_c.yml` holding a Role or RoleBinding named `a.c` fails both rules: the filename
   * has no '-', and the name it implies is `a_c` (e.g. `alice_smith.yml` and `alice.smith`).
   */
  lemma UnderscoreFilename(dir: string, a: string, c: string, kind: string)
    requires Plain(a) && Plain(c) && (kind == "Role" || kind == "RoleBinding")
    ensures DocumentFindings(dir + "/" + (a + "_" + c + ".yml"), RbacObject(kind, a + "." + c)) ==
      [FilenameMismatch(dir + "/" + (a + "_" + c + ".yml")),
       ObjectNameMismatch(dir + "/" + (a + "_" + c + ".yml"), a + "_" + c, a + "." + c)]
  {
    var body := a + "_" + c;
    var path := dir + "/" + (body + ".yml");
    var doc := RbacObject(kind, a + "." + c);
    RbacObjectName(kind, a + "." + c);
    UnderscoreFails(dir, body, |a|);
    UnderscoreObjectName(dir, a, c, kind);
    var mismatch := ObjectNameMismatch(path, body, a + "." + c);
    assert DocumentFindings(path, doc) == [FilenameMismatch(path)] + [mismatch];
    Pair(FilenameMismatch(path), mismatch);
  }

  /** Helper: `dir/a_c.yml` implies the object name `a_c`, so `a.c` fails the object-name rule. */
  lemma UnderscoreObjectName(dir: string, a: string, c: string, kind: string)
    requires Plain(a) && Plain(c) && (kind == "Role" || kind == "RoleBinding")
    ensures ExpectedObjectName(dir + "/" + (a + "_" + c + ".yml")) == a + "_" + c
    ensures !ObjectNameConvention(RbacObject(kind, a + "." + c), dir + "/" + (a + "_" + c + ".yml"))
  {
    var body := a + "_" + c;
    RbacObjectName(kind, a + "." + c);
    ExpectedOfYml(dir, body);
    ReplaceWithoutHyphens(body);
    assert (a + "." + c)[|a|] != body[|a|];
  }

  /**
   * The object-name rule alone does not force a hyphenated filename: `dir/a.c.yml` implies
   * the name `a.c`, which the object-name rule accepts, while the filename rule rejects the
   * file (e.g. `alice.smith.yml` and `alice.smith`).
   */
  lemma DottedFilename(dir: string, a: string, c: string)
    requires Plain(a) && Plain(c)
    ensures NameMatchesFile(a + "." + c, dir + "/" + (a + "." + c + ".yml"))
    ensures !FilenameConvention(dir + "/" + (a + "." + c + ".yml"))
  {
    DottedNameMatches(dir, a, c);
    DottedFilenameFails(dir, a + "." + c);
  }

  /** Helper: the object-name half of DottedFilename. */
  lemma DottedNameMatches(dir: string, a: string, c: string)
    requires Plain(a) && Plain(c)
    ensures NameMatchesFile(a + "." + c, dir + "/" + (a + "." + c + ".yml"))
  {
    var body := a + "." + c;
    ExpectedOfYml(dir, body);
    ReplaceWithoutHyphens(body);
    DotShapeIff(body);
    assert DotFree(a) && DotFree(c);
  }

  /** Helper: a file whose stem holds no '-' fails the filename rule. */
  lemma DottedFilenameFails(dir: string, body: string)
    requires '/' !in body && '-' !in body
    ensures !FilenameConvention(dir + "/" + (body + ".yml"))
  {
    var b := body + ".yml";
    BasenameOfJoin(dir, b);
    FilenamePatternChars(b);
    assert '-' !in b;
  }

  /** Helper: a two-element list built by appending. */
  lemma Pair<T>(x: T, y: T)
    ensures [x] + [y] == [x, y]
  {
  }

  /** Helper: a file whose stem holds a '_' fails the filename rule. */
  lemma UnderscoreFails(dir: string, body: string, k: nat)
    requires '/' !in body && k < |body| && body[k] == '_'
    ensures !FilenameConvention(dir + "/" + (body + ".yml"))
  {
    var b := body + ".yml";
    BasenameOfJoin(dir, b);
    FilenamePatternChars(b);
    assert b[k] == '_';
  }

  /** A kustomization document whose `resources` is a list holding the one name `r`. */
  function Declaring(r: string): Value
  {
    Mapping(map["resources" := List([Str(r)])])
  }

  /**
   * A directory holding `a`, `b` and `kustomization.yml`, whose kustomization declares only
   * the existing `a`: the one finding is that `b` is not declared.
   */
  lemma UndeclaredSibling(path: string, a: string, b: string, present: string -> bool, block: seq<Finding>)
    requires EndsWithYml(a) && EndsWithYml(b) && a != b && b != KustomizationFile
    requires present(a)
    requires KustomizationReport(path, Document(Declaring(a)), [a, b, KustomizationFile], present, block)
    ensures block == [MissingDeclaration(path, b)]
  {
    var res := Resources(Declaring(a));
    assert forall s :: s in res <==> Str(s) in [Str(a)];
    assert res == {a};
    assert Missing(res, present) == {};
    var listing := [a, b, KustomizationFile];
    assert listing[..2][..1] == [a] && listing[..2] == [a, b];
    assert UndeclaredFindings(path, [a], res) == [];
    assert UndeclaredFindings(path, listing, res) == [MissingDeclaration(path, b)];
  }

  /**
   * A kustomization alone in its directory that declares one resource the existence test
   * rejects: the one finding is that the resource is not found.
   */
  lemma MissingResource(path: string, r: string, present: string -> bool, block: seq<Finding>)
    requires !present(r)
    requires KustomizationReport(path, Document(Declaring(r)), [KustomizationFile], present, block)
    ensures block == [ResourceNotFound(path, r)]
  {
    var res := Resources(Declaring(r));
    assert forall s :: s in res <==> Str(s) in [Str(r)];
    assert res == {r};
    assert Missing(res, present) == {r};
    assert UndeclaredFindings(path, [KustomizationFile], res) == [];
    assert block[..1] == [block[0]];
    assert block[0] in block[..1];
  }
}
