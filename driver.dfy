/**
 * The main loop of the checker: every `.yml` file under the namespaces tree, in the order
 * the walk yields them, adds its findings to one append-only list; the exit status is
 * decided from that list once every file has been seen.
 */
module Driver {
  import opened Yaml
  import opened Report
  import opened Naming
  import opened Rules
  import opened Kustomize

  /**
   * One file as the checker sees it. The file system and the YAML library are inputs here:
   * `stream` is the outcome of loading the file as a multi-document stream, `single` the
   * outcome of loading it again as one document (consulted only for `kustomization.yml`),
   * `listing` the entries of its directory and `present` the existence test for a resource
   * named relative to that directory.
   */
  datatype SourceFile = SourceFile(
    path: string,
    stream: Stream,
    single: Single,
    listing: seq<string>,
    present: string -> bool)

  /** The checker runs to completion on this file: no lookup on it raises. */
  predicate Checkable(f: SourceFile)
  {
    f.stream.Documents? ==>
      AllCheckable(f.stream.docs) &&
      (IsKustomization(f.path) && f.single.Document? ==> ResourcesReadable(f.single.doc))
  }

  /**
   * What one file adds to the report. A stream that fails to load adds its parse error and
   * nothing else. Otherwise the documents' findings come first, and for `kustomization.yml`
   * the kustomization findings follow them.
   */
  ghost predicate FileReport(f: SourceFile, block: seq<Finding>)
    requires Checkable(f)
  {
    match f.stream
    case StreamError(msg) => block == [ParseError(f.path, msg)]
    case Documents(docs) =>
      var d := DocsFindings(f.path, docs);
      |d| <= |block| && block[..|d|] == d &&
      if IsKustomization(f.path) then
        KustomizationReport(f.path, f.single, f.listing, f.present, block[|d|..])
      else
        |block| == |d|
  }

  /**
   * A file passes: it loads, every Role and RoleBinding in it passes both naming rules, and
   * if it is `kustomization.yml` it loads as one document that declares every sibling `.yml`
   * and nothing that is absent.
   */
  predicate FilePasses(f: SourceFile)
    requires Checkable(f)
  {
    f.stream.Documents? &&
    (forall i :: 0 <= i < |f.stream.docs| ==> DocumentPasses(f.path, f.stream.docs[i])) &&
    (IsKustomization(f.path) ==>
       f.single.Document? &&
       (forall r :: r in Resources(f.single.doc) ==> f.present(r)) &&
       (forall n :: n in f.listing ==> !Undeclared(n, Resources(f.single.doc))))
  }

  /** A file adds nothing to the report exactly when it passes. */
  lemma FileReportEmpty(f: SourceFile, block: seq<Finding>)
    requires Checkable(f) && FileReport(f, block)
    ensures block == [] <==> FilePasses(f)
  {
    if f.stream.Documents? {
      var docs := f.stream.docs;
      var d := DocsFindings(f.path, docs);
      DocsFindingsEmpty(f.path, docs);
      if IsKustomization(f.path) {
        KustomizationClean(f.path, f.single, f.listing, f.present, block[|d|..]);
        SplitAt(block, |d|);
      } else {
        SplitAt(block, |d|);
      }
    }
  }

  /**
   * The body of the loop over files: a stream that fails to load records its parse error
   * and moves on to the next file; otherwise the documents are checked and then, for
   * `kustomization.yml`, the kustomization.
   */
  method CheckFile(f: SourceFile, errors: seq<Finding>) returns (errs: seq<Finding>)
    requires Checkable(f)
    ensures |errors| <= |errs| && errs[..|errors|] == errors
    ensures FileReport(f, errs[|errors|..])
  {
    match f.stream
    case StreamError(msg) =>
      errs := errors + [ParseError(f.path, msg)];
      AppendSlices(errors, [ParseError(f.path, msg)]);
    case Documents(docs) =>
      errs := CheckDocuments(f.path, docs, errors);
      var afterDocs := errs;
      if Basename(f.path) == KustomizationFile {
        errs := CheckKustomization(f.path, f.single, f.listing, f.present, errs);
      }
      ParsedFileReport(f, errors, afterDocs, errs);
  }

  /** Helper: the findings of a loaded file are its documents' findings, then the kustomization's. */
  lemma ParsedFileReport(f: SourceFile, errors: seq<Finding>, afterDocs: seq<Finding>, errs: seq<Finding>)
    requires Checkable(f) && f.stream.Documents?
    requires afterDocs == errors + DocsFindings(f.path, f.stream.docs)
    requires !IsKustomization(f.path) ==> errs == afterDocs
    requires IsKustomization(f.path) ==>
      |afterDocs| <= |errs| && errs[..|afterDocs|] == afterDocs &&
      KustomizationReport(f.path, f.single, f.listing, f.present, errs[|afterDocs|..])
    ensures |errors| <= |errs| && errs[..|errors|] == errors
    ensures FileReport(f, errs[|errors|..])
  {
    var d := DocsFindings(f.path, f.stream.docs);
    var k := errs[|afterDocs|..];
    SplitAt(errs, |afterDocs|);
    AppendAssoc(errors, d, k);
    AppendSlices(errors, d + k);
    AppendSlices(d, k);
  }

  /**
   * The whole run: each file's findings are appended after those of the files before it,
   * and the exit status is 1 exactly when some file does not pass.
   */
  method Run(files: seq<SourceFile>) returns (errors: seq<Finding>, status: int, ghost blocks: seq<seq<Finding>>)
    requires forall i :: 0 <= i < |files| ==> Checkable(files[i])
    ensures |blocks| == |files| && errors == Concat(blocks)
    ensures forall i :: 0 <= i < |files| ==> FileReport(files[i], blocks[i])
    ensures forall k :: 0 <= k <= |files| ==> Concat(blocks[..k]) <= errors
    ensures status == ExitStatus(errors)
    ensures status == 0 <==> forall i :: 0 <= i < |files| ==> FilePasses(files[i])
  {
    errors := [];
    blocks := [];
    var i := 0;
    while i < |files|
      invariant i <= |files| && |blocks| == i
      invariant errors == Concat(blocks)
      invariant forall j :: 0 <= j < i ==> FileReport(files[j], blocks[j])
    {
      var before := errors;
      ghost var done := blocks;
      errors := CheckFile(files[i], errors);
      blocks := blocks + [errors[|before|..]];
      SplitAt(errors, |before|);
      ConcatSnoc(done, errors[|before|..]);
      ReportsExtend(files, done, errors[|before|..]);
      i := i + 1;
    }
    if errors != [] {
      status := 1;
    } else {
      status := 0;
    }
    RunStatus(files, blocks);
    forall k | 0 <= k <= |files| ensures Concat(blocks[..k]) <= errors {
      ConcatPrefix(blocks, k);
    }
  }

  /** Helper: the files reported so far, with one more. */
  lemma ReportsExtend(files: seq<SourceFile>, done: seq<seq<Finding>>, block: seq<Finding>)
    requires |done| < |files| && forall i :: 0 <= i < |files| ==> Checkable(files[i])
    requires forall j :: 0 <= j < |done| ==> FileReport(files[j], done[j])
    requires FileReport(files[|done|], block)
    ensures forall j :: 0 <= j < |done| + 1 ==> FileReport(files[j], (done + [block])[j])
  {
    forall j | 0 <= j < |done| + 1 ensures FileReport(files[j], (done + [block])[j]) {
      if j < |done| {
        assert (done + [block])[j] == done[j];
      }
    }
  }

  /** Helper: the run reports nothing exactly when every file passes. */
  lemma RunStatus(files: seq<SourceFile>, blocks: seq<seq<Finding>>)
    requires forall i :: 0 <= i < |files| ==> Checkable(files[i])
    requires |blocks| == |files| && forall i :: 0 <= i < |files| ==> FileReport(files[i], blocks[i])
    ensures Concat(blocks) == [] <==> forall i :: 0 <= i < |files| ==> FilePasses(files[i])
  {
    ConcatEmpty(blocks);
    forall i | 0 <= i < |files| ensures blocks[i] == [] <==> FilePasses(files[i]) {
      FileReportEmpty(files[i], blocks[i]);
    }
  }
}
