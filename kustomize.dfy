/**
 * The kustomization completeness rule: the resources a `kustomization.yml` declares must
 * exist, and every sibling `.yml` file must be declared.
 */
module Kustomize {
  import opened Yaml
  import opened Report
  import opened Naming

  const KustomizationFile: string := "kustomization.yml"

  /** The rule applies to a file whose basename is exactly `kustomization.yml`. */
  predicate IsKustomization(path: string)
  {
    Basename(path) == KustomizationFile
  }

  /**
   * `set(k.get("resources", []))` can be built and walked without crashing: the document is a
   * mapping, and `resources`, when present, is a list of strings, a string or a mapping.
   */
  predicate ResourcesReadable(k: Value)
  {
    k.Mapping? &&
    ("resources" !in k.fields ||
     match k.fields["resources"]
     case List(items) => forall i :: 0 <= i < |items| ==> items[i].Str?
     case Str(_) => true
     case Mapping(_) => true
     case _ => false)
  }

  /**
   * `set(k.get("resources", []))`: the declared names with duplicates collapsed; a string
   * yields its characters and a mapping its keys, as Python's `set` does.
   */
  function Resources(k: Value): (res: set<string>)
    requires k.Mapping?
    ensures "resources" !in k.fields ==> res == {}
    ensures "resources" in k.fields && k.fields["resources"].List? ==>
      forall s :: s in res <==> Str(s) in k.fields["resources"].items
    ensures "resources" in k.fields && k.fields["resources"].Str? ==>
      forall s :: s in res <==> |s| == 1 && s[0] in k.fields["resources"].s
    ensures "resources" in k.fields && k.fields["resources"].Mapping? ==>
      res == k.fields["resources"].fields.Keys
  {
    if "resources" !in k.fields then {}
    else
      match k.fields["resources"]
      case List(items) => ListStrings(items)
      case Str(s) => Chars(s)
      case Mapping(m) => m.Keys
      case _ => {}
  }

  /** Helper: the one-character strings of a string's characters. */
  function Chars(s: string): (res: set<string>)
    ensures forall t :: t in res <==> |t| == 1 && t[0] in s
  {
    var res := set i | 0 <= i < |s| :: [s[i]];
    forall t | |t| == 1 && t[0] in s ensures t in res {
      var i :| 0 <= i < |s| && s[i] == t[0];
      assert t == [s[i]];
    }
    res
  }

  /** Helper: the strings of a list. */
  function ListStrings(items: seq<Value>): (res: set<string>)
    ensures forall s :: s in res <==> Str(s) in items
  {
    set i | 0 <= i < |items| && items[i].Str? :: items[i].s
  }

  /** The declared resources the existence test rejects. */
  function Missing(res: set<string>, present: string -> bool): set<string>
  {
    set r | r in res && !present(r)
  }

  /** A directory entry that must be declared: a `.yml` other than `kustomization.yml`, not in `res`. */
  predicate Undeclared(neighbor: string, res: set<string>)
  {
    neighbor != KustomizationFile && EndsWithYml(neighbor) && neighbor !in res
  }

  /** The "missing resource declaration" findings, in the order of the directory listing. */
  function UndeclaredFindings(path: string, listing: seq<string>, res: set<string>): seq<Finding>
  {
    if listing == [] then []
    else
      var n := listing[|listing| - 1];
      UndeclaredFindings(path, listing[..|listing| - 1], res) +
      (if Undeclared(n, res) then [MissingDeclaration(path, n)] else [])
  }

  /** As a set, the listing findings are exactly one per undeclared `.yml` entry. */
  lemma {:induction false} UndeclaredFindingsAsSet(path: string, listing: seq<string>, res: set<string>)
    ensures forall f :: f in UndeclaredFindings(path, listing, res) ==> f.MissingDeclaration? && f.file == path
    ensures forall n :: MissingDeclaration(path, n) in UndeclaredFindings(path, listing, res) <==>
      n in listing && Undeclared(n, res)
  {
    if listing != [] {
      var init := listing[..|listing| - 1];
      UndeclaredFindingsAsSet(path, init, res);
      assert listing == init + [listing[|listing| - 1]];
    }
  }

  /** The listing adds nothing exactly when every `.yml` entry other than `kustomization.yml` is declared. */
  lemma {:induction false} UndeclaredFindingsEmpty(path: string, listing: seq<string>, res: set<string>)
    ensures UndeclaredFindings(path, listing, res) == [] <==> forall n :: n in listing ==> !Undeclared(n, res)
  {
    if listing != [] {
      var init := listing[..|listing| - 1];
      UndeclaredFindingsEmpty(path, init, res);
      assert listing == init + [listing[|listing| - 1]];
    }
  }

  /** The listing loop: appends one finding per undeclared entry, in listing order. */
  method CheckListing(path: string, listing: seq<string>, res: set<string>, errors: seq<Finding>)
    returns (errs: seq<Finding>)
    ensures errs == errors + UndeclaredFindings(path, listing, res)
  {
    errs := errors;
    var i := 0;
    while i < |listing|
      invariant i <= |listing|
      invariant errs == errors + UndeclaredFindings(path, listing[..i], res)
    {
      var neighbor := listing[i];
      assert listing[..i + 1][..i] == listing[..i];
      if neighbor != KustomizationFile && EndsWithYml(neighbor) && neighbor !in res {
        errs := errs + [MissingDeclaration(path, neighbor)];
      }
      i := i + 1;
    }
    assert listing[..i] == listing;
  }

  /** Helper: moving one element from the set still to walk to the set walked. */
  lemma MoveOne<T>(todo: set<T>, done: set<T>, r: T)
    requires r in todo && todo !! done
    ensures (todo - {r}) + (done + {r}) == todo + done
    ensures (todo - {r}) !! (done + {r}) && r !in done
  {
  }

  /** Helper: adding one more walked resource to those done. */
  lemma MissingAdd(done: set<string>, r: string, present: string -> bool)
    requires r !in done
    ensures Missing(done + {r}, present) ==
      Missing(done, present) + (if present(r) then {} else {r})
    ensures |Missing(done + {r}, present)| ==
      |Missing(done, present)| + (if present(r) then 0 else 1)
  {
    if !present(r) {
      assert Missing(done + {r}, present) == Missing(done, present) + {r};
    } else {
      assert Missing(done + {r}, present) == Missing(done, present);
    }
  }

  /**
   * The resource loop, over the declared set in whatever order the set is walked: one
   * "not found" finding for each declared resource the existence test rejects, each once.
   */
  method CheckResources(path: string, res: set<string>, present: string -> bool, errors: seq<Finding>)
    returns (errs: seq<Finding>)
    ensures |errors| <= |errs| && errs[..|errors|] == errors
    ensures forall f :: f in errs[|errors|..] ==> f.ResourceNotFound? && f.file == path
    ensures forall r :: ResourceNotFound(path, r) in errs[|errors|..] <==> r in res && !present(r)
    ensures |errs| - |errors| == |Missing(res, present)|
  {
    errs := errors;
    var todo := res;
    ghost var done: set<string> := {};
    ghost var added: seq<Finding> := [];
    while todo != {}
      invariant todo + done == res && todo !! done
      invariant errs == errors + added
      invariant forall f :: f in added ==> f.ResourceNotFound? && f.file == path
      invariant forall r :: ResourceNotFound(path, r) in added <==> r in done && !present(r)
      invariant |added| == |Missing(done, present)|
      decreases |todo|
    {
      var r :| r in todo;
      MissingAdd(done, r, present);
      if !present(r) {
        errs := errs + [ResourceNotFound(path, r)];
        AppendAssoc(errors, added, [ResourceNotFound(path, r)]);
        added := added + [ResourceNotFound(path, r)];
      }
      MoveOne(todo, done, r);
      todo := todo - {r};
      done := done + {r};
    }
    assert errs[|errors|..] == added;
  }

  /**
   * What the kustomization rule adds for one file: a parse error, or the "not found" findings
   * (one per missing declared resource, in set-walk order) followed by the listing findings.
   */
  ghost predicate KustomizationReport(path: string, single: Single, listing: seq<string>,
                                      present: string -> bool, block: seq<Finding>)
  {
    match single
    case SingleError(msg) => block == [ParseError(path, msg)]
    case Document(k) =>
      k.Mapping? &&
      var res := Resources(k);
      var n := |Missing(res, present)|;
      |block| == n + |UndeclaredFindings(path, listing, res)| &&
      block[n..] == UndeclaredFindings(path, listing, res) &&
      (forall f :: f in block[..n] ==> f.ResourceNotFound? && f.file == path) &&
      (forall r :: ResourceNotFound(path, r) in block[..n] <==> r in res && !present(r))
  }

  /** The kustomization check of one file (the code after its basename test). */
  method CheckKustomization(path: string, single: Single, listing: seq<string>,
                            present: string -> bool, errors: seq<Finding>)
    returns (errs: seq<Finding>)
    requires single.Document? ==> ResourcesReadable(single.doc)
    ensures |errors| <= |errs| && errs[..|errors|] == errors
    ensures KustomizationReport(path, single, listing, present, errs[|errors|..])
  {
    match single
    case SingleError(msg) =>
      errs := errors + [ParseError(path, msg)];
    case Document(k) =>
      var res := Resources(k);
      var afterResources := CheckResources(path, res, present, errors);
      errs := CheckListing(path, listing, res, afterResources);
      assert errs[|errors|..] == afterResources[|errors|..] + UndeclaredFindings(path, listing, res);
  }

  /**
   * The rule adds nothing exactly when the file loads as one document, every declared
   * resource exists and every sibling `.yml` other than `kustomization.yml` is declared.
   */
  lemma KustomizationClean(path: string, single: Single, listing: seq<string>,
                           present: string -> bool, block: seq<Finding>)
    requires KustomizationReport(path, single, listing, present, block)
    ensures block == [] <==>
      single.Document? &&
      (forall r :: r in Resources(single.doc) ==> present(r)) &&
      (forall n :: n in listing ==> !Undeclared(n, Resources(single.doc)))
  {
    if single.Document? {
      var res := Resources(single.doc);
      UndeclaredFindingsEmpty(path, listing, res);
      if forall r :: r in res ==> present(r) {
        assert Missing(res, present) == {};
      }
      if block == [] {
        assert Missing(res, present) == {};
        forall r | r in res ensures present(r) {
          assert r !in Missing(res, present);
        }
      }
    }
  }
}
