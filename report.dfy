/** What the checker reports: one finding per violation, and the exit status derived from them. */
module Report {

  /** One entry of the error list; each constructor is one of the messages the checker formats. */
  datatype Finding =
    | ParseError(file: string, message: string)
    | FilenameMismatch(file: string)
    | ObjectNameMismatch(file: string, expected: string, found: string)
    | ResourceNotFound(file: string, resource: string)
    | MissingDeclaration(file: string, neighbor: string)

  /** The process exit status: 1 when anything was reported, 0 on a clean run. */
  function ExitStatus(errors: seq<Finding>): (code: int)
    ensures code == 0 || code == 1
    ensures code == 1 <==> errors != []
  {
    if errors != [] then 1 else 0
  }

  /** Helper: appending in two steps is appending the concatenation. */
  lemma AppendAssoc<T>(a: seq<T>, b: seq<T>, c: seq<T>)
    ensures a + b + c == a + (b + c)
  {
  }

  /** Helper: the two halves of a concatenation. */
  lemma AppendSlices<T>(a: seq<T>, b: seq<T>)
    ensures (a + b)[..|a|] == a && (a + b)[|a|..] == b
  {
  }

  /** Helper: a list is its prefix followed by the rest. */
  lemma SplitAt<T>(s: seq<T>, k: nat)
    requires k <= |s|
    ensures s == s[..k] + s[k..]
  {
  }

  /** The blocks of findings, one per file, appended one after another. */
  function Concat(blocks: seq<seq<Finding>>): seq<Finding>
  {
    if blocks == [] then [] else Concat(blocks[..|blocks| - 1]) + blocks[|blocks| - 1]
  }

  /** Helper: one more block is appended after the others. */
  lemma ConcatSnoc(blocks: seq<seq<Finding>>, block: seq<Finding>)
    ensures Concat(blocks + [block]) == Concat(blocks) + block
  {
    assert (blocks + [block])[..|blocks|] == blocks;
  }

  /** Nothing is reported overall exactly when nothing is reported for any file. */
  lemma {:induction false} ConcatEmpty(blocks: seq<seq<Finding>>)
    ensures Concat(blocks) == [] <==> forall i :: 0 <= i < |blocks| ==> blocks[i] == []
  {
    if blocks != [] {
      var init := blocks[..|blocks| - 1];
      ConcatEmpty(init);
      assert forall i :: 0 <= i < |init| ==> init[i] == blocks[i];
    }
  }

  /** The report only grows: the findings of the first k files are a prefix of the whole report. */
  lemma {:induction false} ConcatPrefix(blocks: seq<seq<Finding>>, k: nat)
    requires k <= |blocks|
    ensures Concat(blocks[..k]) <= Concat(blocks)
  {
    if k < |blocks| {
      var init := blocks[..|blocks| - 1];
      ConcatPrefix(init, k);
      assert init[..k] == blocks[..k];
    } else {
      assert blocks[..k] == blocks;
    }
  }
}
