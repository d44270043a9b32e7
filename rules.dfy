/** The per-document rule: which documents are RBAC objects and what each one adds to the report. */
module Rules {
  import opened Yaml
  import opened Report
  import opened Naming

  /** A mapping whose `kind` (default "") is exactly "Role" or "RoleBinding". */
  predicate IsRbac(doc: Value)
  {
    doc.Mapping? &&
    var kind := Get(doc.fields, "kind", Str(""));
    kind == Str("Role") || kind == Str("RoleBinding")
  }

  /**
   * The name lookup cannot fail: `metadata`, when present, is a mapping, and its `name`,
   * when present, is a string.
   */
  predicate HasReadableName(doc: Value)
    requires doc.Mapping?
  {
    "metadata" !in doc.fields ||
    (doc.fields["metadata"].Mapping? &&
     ("name" !in doc.fields["metadata"].fields || doc.fields["metadata"].fields["name"].Str?))
  }

  /** A document the rule can be applied to without the checker crashing. */
  predicate Checkable(doc: Value)
  {
    IsRbac(doc) ==> HasReadableName(doc)
  }

  /** `get_object_name`: `metadata.name`, or "" when either key is absent. */
  function ObjectName(doc: Value): (name: string)
    requires doc.Mapping? && HasReadableName(doc)
    ensures "metadata" !in doc.fields ==> name == ""
    ensures "metadata" in doc.fields && "name" !in doc.fields["metadata"].fields ==> name == ""
    ensures "metadata" in doc.fields && "name" in doc.fields["metadata"].fields ==>
      doc.fields["metadata"].fields["name"] == Str(name)
  {
    var metadata := Get(doc.fields, "metadata", Mapping(map[]));
    match Get(metadata.fields, "name", Str(""))
    case Str(s) => s
    case _ => ""
  }

  /** `check_object_name_convention`. */
  predicate ObjectNameConvention(doc: Value, path: string)
    requires doc.Mapping? && HasReadableName(doc)
  {
    NameMatchesFile(ObjectName(doc), path)
  }

  /** An object without `metadata` or without `name` never passes the object-name rule. */
  lemma MissingNameFails(doc: Value, path: string)
    requires doc.Mapping? && HasReadableName(doc)
    requires "metadata" !in doc.fields || "name" !in doc.fields["metadata"].fields
    ensures !ObjectNameConvention(doc, path)
  {
    DotPatternIff(ObjectName(doc));
  }

  /**
   * What one document adds to the report: nothing unless it is a Role or RoleBinding;
   * otherwise the filename finding, then the object-name finding, each exactly when its
   * own rule fails.
   */
  function DocumentFindings(path: string, doc: Value): (r: seq<Finding>)
    requires Checkable(doc)
    ensures !IsRbac(doc) ==> r == []
    ensures IsRbac(doc) ==>
      |r| == (if FilenameConvention(path) then 0 else 1) + (if ObjectNameConvention(doc, path) then 0 else 1)
    ensures FilenameMismatch(path) in r <==> IsRbac(doc) && !FilenameConvention(path)
    ensures IsRbac(doc) ==>
      (ObjectNameMismatch(path, ExpectedObjectName(path), ObjectName(doc)) in r <==>
       !ObjectNameConvention(doc, path))
    ensures |r| == 2 ==>
      r[0] == FilenameMismatch(path) &&
      r[1] == ObjectNameMismatch(path, ExpectedObjectName(path), ObjectName(doc))
  {
    if !IsRbac(doc) then []
    else
      RuleFindings(path, FilenameConvention(path), ObjectNameConvention(doc, path),
        ObjectNameMismatch(path, ExpectedObjectName(path), ObjectName(doc)))
  }

  /** Helper: the two independent sub-rules, filename first, given their verdicts. */
  function RuleFindings(path: string, filenameOk: bool, objectNameOk: bool, objectNameFinding: Finding): (r: seq<Finding>)
    requires objectNameFinding.ObjectNameMismatch?
    ensures |r| == (if filenameOk then 0 else 1) + (if objectNameOk then 0 else 1)
    ensures FilenameMismatch(path) in r <==> !filenameOk
    ensures objectNameFinding in r <==> !objectNameOk
    ensures |r| == 2 ==> r[0] == FilenameMismatch(path) && r[1] == objectNameFinding
  {
    (if filenameOk then [] else [FilenameMismatch(path)]) +
    (if objectNameOk then [] else [objectNameFinding])
  }

  /** Every document of a file can be checked without crashing. */
  predicate AllCheckable(docs: seq<Value>)
  {
    forall i :: 0 <= i < |docs| ==> Checkable(docs[i])
  }

  /** The findings of a file's documents, in document order. */
  function DocsFindings(path: string, docs: seq<Value>): seq<Finding>
    requires AllCheckable(docs)
  {
    if docs == [] then []
    else DocsFindings(path, docs[..|docs| - 1]) + DocumentFindings(path, docs[|docs| - 1])
  }

  /** The documents of a file add nothing exactly when every Role and RoleBinding among them passes both rules. */
  lemma {:induction false} DocsFindingsEmpty(path: string, docs: seq<Value>)
    requires AllCheckable(docs)
    ensures DocsFindings(path, docs) == [] <==>
      forall i :: 0 <= i < |docs| ==> DocumentPasses(path, docs[i])
  {
    if docs != [] {
      var n := |docs| - 1;
      var init := docs[..n];
      DocsFindingsEmpty(path, init);
      DocumentFindingsEmpty(path, docs[n]);
      AllPassSnoc(path, docs, init);
    }
  }

  /** Helper: every document passes exactly when all but the last do and the last does. */
  lemma AllPassSnoc(path: string, docs: seq<Value>, init: seq<Value>)
    requires AllCheckable(docs) && docs != [] && init == docs[..|docs| - 1]
    ensures (forall i :: 0 <= i < |docs| ==> DocumentPasses(path, docs[i])) <==>
      (forall i :: 0 <= i < |init| ==> DocumentPasses(path, init[i])) &&
      DocumentPasses(path, docs[|docs| - 1])
  {
    if forall i :: 0 <= i < |docs| ==> DocumentPasses(path, docs[i]) {
      forall i | 0 <= i < |init| ensures DocumentPasses(path, init[i]) {
        assert init[i] == docs[i];
      }
    }
    if (forall i :: 0 <= i < |init| ==> DocumentPasses(path, init[i])) && DocumentPasses(path, docs[|docs| - 1]) {
      forall i | 0 <= i < |docs| ensures DocumentPasses(path, docs[i]) {
        if i < |init| {
          assert init[i] == docs[i];
        }
      }
    }
  }

  /** A document passes: it is not a Role or RoleBinding, or both rules accept it. */
  predicate DocumentPasses(path: string, doc: Value)
    requires Checkable(doc)
  {
    IsRbac(doc) ==> FilenameConvention(path) && ObjectNameConvention(doc, path)
  }

  /** Helper: a document adds nothing exactly when it passes. */
  lemma DocumentFindingsEmpty(path: string, doc: Value)
    requires Checkable(doc)
    ensures DocumentFindings(path, doc) == [] <==> DocumentPasses(path, doc)
  {
  }

  /** Helper: one more document appends its own findings. */
  lemma DocsFindingsStep(path: string, docs: seq<Value>, i: nat)
    requires AllCheckable(docs) && i < |docs|
    ensures AllCheckable(docs[..i]) && AllCheckable(docs[..i + 1])
    ensures DocsFindings(path, docs[..i + 1]) == DocsFindings(path, docs[..i]) + DocumentFindings(path, docs[i])
  {
    assert docs[..i + 1][..i] == docs[..i];
  }

  /** The body of the loop over documents: the two sub-rules of one document, filename first. */
  method CheckDocument(path: string, doc: Value, errors: seq<Finding>) returns (errs: seq<Finding>)
    requires Checkable(doc)
    ensures errs == errors + DocumentFindings(path, doc)
  {
    errs := errors;
    if !IsRbac(doc) {
      return;
    }
    var filenameOk := FilenameConvention(path);
    var objectNameOk := ObjectNameConvention(doc, path);
    var mismatch := ObjectNameMismatch(path, ExpectedObjectName(path), ObjectName(doc));
    ghost var first: seq<Finding> := if filenameOk then [] else [FilenameMismatch(path)];
    ghost var second: seq<Finding> := if objectNameOk then [] else [mismatch];
    if !filenameOk {
      errs := errs + [FilenameMismatch(path)];
    }
    assert errs == errors + first;
    if !objectNameOk {
      errs := errs + [mismatch];
    }
    assert errs == errors + first + second;
    AppendAssoc(errors, first, second);
    assert DocumentFindings(path, doc) == first + second;
  }

  /** The loop over a file's documents: appends each document's findings in turn. */
  method CheckDocuments(path: string, docs: seq<Value>, errors: seq<Finding>) returns (errs: seq<Finding>)
    requires AllCheckable(docs)
    ensures errs == errors + DocsFindings(path, docs)
  {
    errs := errors;
    var i := 0;
    while i < |docs|
      invariant i <= |docs|
      invariant errs == errors + DocsFindings(path, docs[..i])
    {
      DocsFindingsStep(path, docs, i);
      AppendAssoc(errors, DocsFindings(path, docs[..i]), DocumentFindings(path, docs[i]));
      errs := CheckDocument(path, docs[i], errs);
      i := i + 1;
    }
    assert docs[..i] == docs;
  }
}
