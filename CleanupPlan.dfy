/**
 * What the cleanup pass decides for each tag, independent of how the tag names were decoded: a tag is
 * skipped when its source is the checked-out branch, otherwise it is deleted and so is its source.
 */
module CleanupPlan {
  /** A git command the pass issues: `git tag -d <tag>` or the safe delete `git branch -d <branch>`. */
  datatype Op = DeleteTag(tag: string) | DeleteBranch(branch: string)

  /** A tag name with the source its cleanup pattern yields ("" when the pattern does not match). */
  datatype TagSource = TagSource(tag: string, source: string)

  /** The source is skipped when it is non-empty and the checked-out branch. */
  predicate CheckedOut(l: TagSource, current: string)
  {
    l.source != "" && l.source == current
  }

  /** The operations for one tag: none when its source is checked out, else the tag, then its source. */
  function TagOps(l: TagSource, current: string): seq<Op>
  {
    if CheckedOut(l, current) then []
    else [DeleteTag(l.tag)] + (if l.source != "" then [DeleteBranch(l.source)] else [])
  }

  /**
   * The shape of one tag's operations: nothing exactly when its source is checked out; otherwise the tag
   * deletion first, followed by a deletion of its source exactly when that source is non-empty.
   */
  lemma TagOpsShape(l: TagSource, current: string)
    ensures var r := TagOps(l, current); r == [] <==> CheckedOut(l, current)
    ensures var r := TagOps(l, current); r != [] ==> r[0] == DeleteTag(l.tag)
    ensures var r := TagOps(l, current); |r| == 2 <==> !CheckedOut(l, current) && l.source != ""
    ensures var r := TagOps(l, current); |r| == 2 ==> r[1] == DeleteBranch(l.source) && l.source != current
    ensures |TagOps(l, current)| <= 2
  {
  }

  /** The operations of the whole pass, tag after tag in input order. */
  function Plan(entries: seq<TagSource>, current: string): (r: seq<Op>)
    ensures |r| <= 2 * |entries|
  {
    if entries == [] then [] else Plan(entries[..|entries| - 1], current) + TagOps(entries[|entries| - 1], current)
  }

  lemma PlanSnoc(entries: seq<TagSource>, l: TagSource, current: string)
    ensures Plan(entries + [l], current) == Plan(entries, current) + TagOps(l, current)
  {
    assert (entries + [l])[..|entries|] == entries;
  }

  /** A single tag's plan is its own operations. */
  lemma PlanSingle(l: TagSource, current: string)
    ensures Plan([l], current) == TagOps(l, current)
  {
    assert [l][..0] == [];
  }

  lemma ConcatAssoc(x: seq<Op>, y: seq<Op>, z: seq<Op>)
    ensures (x + y) + z == x + (y + z)
  {
  }

  /** Tags are handled one after another: the plan of a concatenation is the concatenation of plans. */
  lemma {:induction false} PlanAppend(a: seq<TagSource>, b: seq<TagSource>, current: string)
    ensures Plan(a + b, current) == Plan(a, current) + Plan(b, current)
    decreases |b|
  {
    if b == [] {
      assert a + b == a;
    } else {
      var n := |b| - 1;
      assert (a + b)[..|a + b| - 1] == a + b[..n];
      assert (a + b)[|a + b| - 1] == b[n];
      PlanAppend(a, b[..n], current);
      ConcatAssoc(Plan(a, current), Plan(b[..n], current), TagOps(b[n], current));
    }
  }

  /**
   * Safety: no branch deletion ever names the checked-out branch or the empty name, and a tag is only
   * deleted if it was one of the entries and its source is not the checked-out branch.
   */
  lemma {:induction false} PlanIsSafe(entries: seq<TagSource>, current: string)
    ensures forall op :: op in Plan(entries, current) && op.DeleteBranch? ==> op.branch != "" && op.branch != current
    ensures forall op :: op in Plan(entries, current) && op.DeleteTag? ==>
      exists l :: l in entries && l.tag == op.tag && !CheckedOut(l, current)
  {
    if entries != [] {
      var n := |entries| - 1;
      PlanIsSafe(entries[..n], current);
      assert forall op :: op in Plan(entries, current) ==> op in Plan(entries[..n], current) || op in TagOps(entries[n], current);
      assert forall l :: l in entries[..n] ==> l in entries;
      assert entries[n] in entries;
    }
  }

  /**
   * Completeness: every entry whose source is not checked out has its tag deleted, and its source branch
   * too when the source is non-empty.
   */
  lemma {:induction false} PlanDeletesOthers(entries: seq<TagSource>, current: string, k: nat)
    requires k < |entries| && !CheckedOut(entries[k], current)
    ensures DeleteTag(entries[k].tag) in Plan(entries, current)
    ensures entries[k].source != "" ==> DeleteBranch(entries[k].source) in Plan(entries, current)
  {
    var n := |entries| - 1;
    if k < n {
      assert entries[..n][k] == entries[k];
      PlanDeletesOthers(entries[..n], current, k);
    }
  }

}
