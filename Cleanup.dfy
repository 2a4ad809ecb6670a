/**
 * The cleanup pass over the confirmed tag names. Each git command it would run becomes an operation;
 * the pass is modelled as the ordered list of operations it issues together with what it reports.
 * Whether a command succeeds only changes the report, never the operations that follow.
 */
module Cleanup {
  import opened Wrappers
  import opened Codec
  import opened CleanupPlan

  /** What the pass reports for one step: a skipped tag, or an issued operation and whether it succeeded. */
  datatype ReportLine = Skipped(tag: string, branch: string) | Issued(op: Op, ok: bool)

  function TagSources(tags: seq<string>): (r: seq<TagSource>)
    ensures |r| == |tags|
  {
    seq(|tags|, k requires 0 <= k < |tags| => TagSource(tags[k], CleanupSource(tags[k])))
  }

  /**
   * The report for one tag. succeeds(k, op) is the outcome of op when it is the k-th command the pass
   * issues (counting from 0), so a command may succeed once and fail when it is repeated; issued is
   * the number of commands issued before this tag.
   */
  function TagReport(l: TagSource, current: string, succeeds: (nat, Op) -> bool, issued: nat): seq<ReportLine>
  {
    if CheckedOut(l, current) then [Skipped(l.tag, l.source)]
    else
      [Issued(DeleteTag(l.tag), succeeds(issued, DeleteTag(l.tag)))]
      + (if l.source != "" then [Issued(DeleteBranch(l.source), succeeds(issued + 1, DeleteBranch(l.source)))] else [])
  }

  /** The report of the whole pass, tag after tag. */
  function Log(entries: seq<TagSource>, current: string, succeeds: (nat, Op) -> bool): seq<ReportLine>
  {
    if entries == [] then []
    else
      var pre := entries[..|entries| - 1];
      Log(pre, current, succeeds) + TagReport(entries[|entries| - 1], current, succeeds, |Plan(pre, current)|)
  }

  /** The operations a report records as issued. */
  function IssuedOps(log: seq<ReportLine>): seq<Op>
  {
    if log == [] then []
    else IssuedOps(log[..|log| - 1]) + (if log[|log| - 1].Issued? then [log[|log| - 1].op] else [])
  }

  lemma {:induction false} IssuedOpsAppend(a: seq<ReportLine>, b: seq<ReportLine>)
    ensures IssuedOps(a + b) == IssuedOps(a) + IssuedOps(b)
    decreases |b|
  {
    if b == [] {
      assert a + b == a;
    } else {
      var b' := b[..|b| - 1];
      assert (a + b)[..|a + b| - 1] == a + b';
      IssuedOpsAppend(a, b');
    }
  }

  /** For one tag, the report records as issued exactly the tag's operations. */
  lemma TagReportIssue(l: TagSource, current: string, succeeds: (nat, Op) -> bool, issued: nat)
    ensures IssuedOps(TagReport(l, current, succeeds, issued)) == TagOps(l, current)
  {
    var evs := TagReport(l, current, succeeds, issued);
    if CheckedOut(l, current) {
      assert evs[..0] == [];
    } else {
      var first := Issued(DeleteTag(l.tag), succeeds(issued, DeleteTag(l.tag)));
      assert [first][..0] == [];
      assert IssuedOps([first]) == [DeleteTag(l.tag)];
      if l.source != "" {
        assert evs[..1] == [first];
      } else {
        assert evs == [first];
      }
    }
  }

  /**
   * The pass issues exactly the planned operations whatever the outcome of each command: a failed
   * deletion does not change what is attempted for later tags.
   */
  lemma {:induction false} LogIssuesPlan(entries: seq<TagSource>, current: string, succeeds: (nat, Op) -> bool)
    ensures IssuedOps(Log(entries, current, succeeds)) == Plan(entries, current)
  {
    if entries != [] {
      var n := |entries| - 1;
      var issued := |Plan(entries[..n], current)|;
      var pre, evs := Log(entries[..n], current, succeeds), TagReport(entries[n], current, succeeds, issued);
      LogIssuesPlan(entries[..n], current, succeeds);
      IssuedOpsAppend(pre, evs);
      TagReportIssue(entries[n], current, succeeds, issued);
    }
  }

  /** The outcomes a report records, one per issued command, in issue order. */
  function Outcomes(log: seq<ReportLine>): (r: seq<bool>)
    ensures |r| == |IssuedOps(log)|
  {
    if log == [] then []
    else Outcomes(log[..|log| - 1]) + (if log[|log| - 1].Issued? then [log[|log| - 1].ok] else [])
  }

  lemma {:induction false} OutcomesAppend(a: seq<ReportLine>, b: seq<ReportLine>)
    ensures Outcomes(a + b) == Outcomes(a) + Outcomes(b)
    decreases |b|
  {
    if b == [] {
      assert a + b == a;
    } else {
      var b' := b[..|b| - 1];
      assert (a + b)[..|a + b| - 1] == a + b';
      OutcomesAppend(a, b');
    }
  }

  /** For one tag, the j-th outcome recorded is that of the tag's j-th operation at its issue position. */
  lemma TagReportOutcomes(l: TagSource, current: string, succeeds: (nat, Op) -> bool, issued: nat)
    ensures var o, ops := Outcomes(TagReport(l, current, succeeds, issued)), TagOps(l, current);
      |o| == |ops| && forall j :: 0 <= j < |ops| ==> o[j] == succeeds(issued + j, ops[j])
  {
    var evs := TagReport(l, current, succeeds, issued);
    TagReportIssue(l, current, succeeds, issued);
    if CheckedOut(l, current) {
      assert evs[..0] == [];
    } else {
      var first := Issued(DeleteTag(l.tag), succeeds(issued, DeleteTag(l.tag)));
      assert [first][..0] == [];
      if l.source != "" {
        assert evs[..1] == [first];
      } else {
        assert evs == [first];
      }
    }
  }

  /**
   * The report records, for the k-th command issued, the outcome the environment gives to the k-th
   * planned operation: each command's own success or failure, even when the same command is repeated.
   */
  lemma {:induction false} LogRecordsOutcomes(entries: seq<TagSource>, current: string, succeeds: (nat, Op) -> bool)
    ensures var o, plan := Outcomes(Log(entries, current, succeeds)), Plan(entries, current);
      |o| == |plan| && forall k :: 0 <= k < |plan| ==> o[k] == succeeds(k, plan[k])
  {
    LogIssuesPlan(entries, current, succeeds);
    if entries != [] {
      var n := |entries| - 1;
      var pre := entries[..n];
      var issued := |Plan(pre, current)|;
      var evs := TagReport(entries[n], current, succeeds, issued);
      LogRecordsOutcomes(pre, current, succeeds);
      OutcomesAppend(Log(pre, current, succeeds), evs);
      TagReportOutcomes(entries[n], current, succeeds, issued);
      var o, plan := Outcomes(Log(entries, current, succeeds)), Plan(entries, current);
      var ops := TagOps(entries[n], current);
      assert plan == Plan(pre, current) + ops;
      forall k | 0 <= k < |plan| ensures o[k] == succeeds(k, plan[k]) {
        if k >= issued {
          assert plan[k] == ops[k - issued];
        }
      }
    }
  }

  /**
   * Two tags with the same source, as the command-line tool makes them for merges done from one branch:
   * the safe branch deletion is issued twice, and the report can record that the first succeeded and the
   * repeated one failed.
   */
  lemma RepeatedBranchDeletion(t1: string, t2: string, source: string, current: string)
    requires source != "" && source != current
    ensures Plan([TagSource(t1, source), TagSource(t2, source)], current)
      == [DeleteTag(t1), DeleteBranch(source), DeleteTag(t2), DeleteBranch(source)]
    ensures Log([TagSource(t1, source), TagSource(t2, source)], current, (k: nat, op: Op) => k != 3)
      == [Issued(DeleteTag(t1), true), Issued(DeleteBranch(source), true),
          Issued(DeleteTag(t2), true), Issued(DeleteBranch(source), false)]
  {
    var a, b := TagSource(t1, source), TagSource(t2, source);
    var outcome := (k: nat, op: Op) => k != 3;
    assert [a, b][..1] == [a];
    assert [a][..0] == [];
    PlanSingle(a, current);
    assert Log([a], current, outcome) == TagReport(a, current, outcome, 0);
    assert Log([a, b], current, outcome) == Log([a], current, outcome) + TagReport(b, current, outcome, 2);
  }

  /**
   * The cleanup loop. current is the branch read once before the loop ("" when that read failed);
   * issued counts the git commands run so far.
   */
  method CleanupTagsAndBranches(tags: seq<string>, current: string, succeeds: (nat, Op) -> bool)
    returns (log: seq<ReportLine>, err: Option<string>)
    ensures log == Log(TagSources(tags), current, succeeds)
    ensures IssuedOps(log) == Plan(TagSources(tags), current)
    ensures err == None
  {
    log := [];
    var issued := 0;
    for i := 0 to |tags|
      invariant log == Log(TagSources(tags[..i]), current, succeeds)
      invariant issued == |Plan(TagSources(tags[..i]), current)|
    {
      var tag := tags[i];
      var source := CleanupSource(tag);
      TagSourcesSnoc(tags, i);
      PlanSnoc(TagSources(tags[..i]), TagSource(tag, source), current);
      var lines, n := CleanupTag(tag, source, current, succeeds, issued);
      log := log + lines;
      issued := issued + n;
    }
    assert tags[..|tags|] == tags;
    LogIssuesPlan(TagSources(tags), current, succeeds);
    err := None;
  }

  /**
   * One iteration of the cleanup loop: the report lines for one tag and the number of commands it
   * issues, given the number issued before it.
   */
  method CleanupTag(tag: string, source: string, current: string, succeeds: (nat, Op) -> bool, issued: nat)
    returns (lines: seq<ReportLine>, n: nat)
    ensures lines == TagReport(TagSource(tag, source), current, succeeds, issued)
    ensures n == |TagOps(TagSource(tag, source), current)|
  {
    if source != "" && source == current {
      lines := [Skipped(tag, source)];
      n := 0;
    } else {
      lines := [Issued(DeleteTag(tag), succeeds(issued, DeleteTag(tag)))];
      n := 1;
      if source != "" {
        lines := lines + [Issued(DeleteBranch(source), succeeds(issued + 1, DeleteBranch(source)))];
        n := 2;
      }
    }
  }

  lemma TagSourcesSnoc(tags: seq<string>, i: nat)
    requires i < |tags|
    ensures TagSources(tags[..i + 1]) == TagSources(tags[..i]) + [TagSource(tags[i], CleanupSource(tags[i]))]
  {
    var l, r := TagSources(tags[..i + 1]), TagSources(tags[..i]) + [TagSource(tags[i], CleanupSource(tags[i]))];
    forall k | 0 <= k < i + 1 ensures l[k] == r[k] {
      if k < i {
        assert tags[..i + 1][k] == tags[..i][k];
      }
    }
  }

  /**
   * The entries of the pass: each tag keeps its name, and its source is empty exactly when the cleanup
   * pattern does not match the tag; otherwise it is the source group of a match.
   */
  lemma TagSourcesOf(tags: seq<string>, k: nat)
    requires k < |tags|
    ensures TagSources(tags)[k].tag == tags[k]
    ensures TagSources(tags)[k].source == "" <==> forall s, t, d :: !Matches(tags[k], s, t, d, 0)
    ensures TagSources(tags)[k].source != "" ==> exists t, d :: Matches(tags[k], TagSources(tags)[k].source, t, d, 0)
  {
    CleanupSourceMatchesPattern(tags[k]);
  }

  /** A tag whose source is the checked-out branch is neither deleted nor has its branch deleted. */
  lemma SkipsCheckedOutSource(tag: string, current: string)
    requires CleanupSource(tag) == current && current != ""
    ensures TagOps(TagSource(tag, CleanupSource(tag)), current) == []
  {
  }

  /** A tag the cleanup pattern does not match is deleted; no branch deletion is attempted. */
  lemma UnmatchedTagDeletesTagOnly(tag: string, current: string)
    requires CleanupSource(tag) == ""
    ensures TagOps(TagSource(tag, CleanupSource(tag)), current) == [DeleteTag(tag)]
  {
  }

  lemma TagSourcesSingle(tag: string)
    ensures TagSources([tag]) == [TagSource(tag, CleanupSource(tag))]
  {
  }

  lemma ExampleSource(tag: string)
    requires tag == "merged.{feature-x}->{main}@100"
    ensures CleanupSource(tag) == "feature-x"
  {
    assert tag == Layout(true, "feature-x", "main", "100");
    SplitLayout(true, "feature-x", "main", "100", 0);
  }

  /**
   * With current branch feature-x the tag recording that feature-x was merged into main is skipped;
   * with main checked out both the tag and feature-x are deleted.
   */
  lemma CleanupExample(tag: string)
    requires tag == "merged.{feature-x}->{main}@100"
    ensures Plan(TagSources([tag]), "feature-x") == []
    ensures Plan(TagSources([tag]), "main") == [DeleteTag(tag), DeleteBranch("feature-x")]
  {
    ExampleSource(tag);
    TagSourcesSingle(tag);
    PlanSingle(TagSource(tag, "feature-x"), "feature-x");
    PlanSingle(TagSource(tag, "feature-x"), "main");
  }
}
