/**
 * Creating a merge tag, and the dispatch at the end of a session. The two copies of the tagging function
 * put the branches into the name in opposite orders; both are modelled, each at its own call site.
 */
module Creation {
  import opened Wrappers
  import opened Codec
  import opened CleanupPlan

  /** `git tag <name>` (tags HEAD) or `git tag <name> <commit>`. */
  datatype TagCommand = TagCommand(name: string, commit: Option<string>)

  /** How a tagging attempt ends: the created name, or the stage that failed. */
  datatype TagOutcome = Tagged(name: string) | NoCurrentBranch | TagFailed(command: TagCommand)

  /** The names that decode back to what they were built from: both groups present, one line, no `}` in the target. */
  predicate Encodable(source: string, target: string, ts: nat)
  {
    |source| >= 1 && |target| >= 1 && ts <= MaxInt64 && NoNewline(source) && NoNewline(target) && '}' !in target
  }

  /** The command built by the command-line tool's own tagging: the checked-out branch is the source. */
  function MainTagCommand(selected: string, current: string, ts: nat): (c: TagCommand)
    ensures c.commit == None
    ensures Encodable(current, selected, ts) ==> Decode(c.name) == Some(TagInfo(c.name, current, selected, ts))
  {
    var c := TagCommand(Encode(current, selected, ts), None);
    if Encodable(current, selected, ts) then DecodeEncode(current, selected, ts); c
    else c
  }

  /** The command built by the git package: the selected branch is the source and is the tagged commit. */
  function GitTagCommand(selected: string, current: string, ts: nat): (c: TagCommand)
    ensures c.commit == Some(selected)
    ensures Encodable(selected, current, ts) ==> Decode(c.name) == Some(TagInfo(c.name, selected, current, ts))
  {
    var c := TagCommand(Encode(selected, current, ts), Some(selected));
    if Encodable(selected, current, ts) then DecodeEncode(selected, current, ts); c
    else c
  }

  /**
   * One tagging attempt. current is the result of reading the checked-out branch (None when that read
   * fails) and tagSucceeds is the outcome of the `git tag` command.
   */
  function TagBranch(command: TagCommand, current: Option<string>, tagSucceeds: bool): (r: TagOutcome)
    ensures r.Tagged? <==> current.Some? && tagSucceeds
    ensures r.Tagged? ==> r.name == command.name
    ensures r.NoCurrentBranch? <==> current.None?
  {
    if current.None? then NoCurrentBranch
    else if !tagSucceeds then TagFailed(command)
    else Tagged(command.name)
  }

  /**
   * The attempt of the command-line tool's tagging at timestamp ts: HEAD is tagged, and the created name
   * lists as a merge of the checked-out branch into the selected one.
   */
  function MainTagBranch(selected: string, current: Option<string>, ts: nat, tagSucceeds: bool): (r: TagOutcome)
    ensures r.Tagged? <==> current.Some? && tagSucceeds
    ensures r.NoCurrentBranch? <==> current.None?
    ensures r.TagFailed? ==> r.command.commit == None
    ensures r.Tagged? && Encodable(current.value, selected, ts) ==>
      Decode(r.name) == Some(TagInfo(r.name, current.value, selected, ts))
  {
    TagBranch(MainTagCommand(selected, if current.Some? then current.value else "", ts), current, tagSucceeds)
  }

  /**
   * The attempt of the git package's tagging at timestamp ts: the selected branch is tagged, and the
   * created name lists as a merge of the selected branch into the checked-out one.
   */
  function GitTagBranch(selected: string, current: Option<string>, ts: nat, tagSucceeds: bool): (r: TagOutcome)
    ensures r.Tagged? <==> current.Some? && tagSucceeds
    ensures r.NoCurrentBranch? <==> current.None?
    ensures r.TagFailed? ==> r.command.commit == Some(selected)
    ensures r.Tagged? && Encodable(selected, current.value, ts) ==>
      Decode(r.name) == Some(TagInfo(r.name, selected, current.value, ts))
  {
    TagBranch(GitTagCommand(selected, if current.Some? then current.value else "", ts), current, tagSucceeds)
  }

  /**
   * Cleaning up a git-package tag while still on the branch it was made from deletes the tag and the
   * selected branch, the branch that was recorded as merged.
   */
  lemma GitTagCleanup(selected: string, current: string, ts: nat)
    requires |selected| >= 1 && |current| >= 1 && selected != current
    requires NoNewline(current) && NoNewline(selected) && '}' !in current
    ensures var name := GitTagCommand(selected, current, ts).name;
      TagOps(TagSource(name, CleanupSource(name)), current) == [DeleteTag(name), DeleteBranch(selected)]
  {
    CleanupSourceEncode(selected, current, ts);
  }

  /**
   * A tag made by the command-line tool records the checked-out branch as its source, so cleaning it up
   * from that same branch skips it, and from any other branch deletes the branch that was checked out
   * when the tag was made, not the selected one.
   */
  lemma MainTagCleanup(selected: string, current: string, later: string, ts: nat)
    requires |selected| >= 1 && |current| >= 1
    requires NoNewline(current) && NoNewline(selected) && '}' !in selected
    ensures var name := MainTagCommand(selected, current, ts).name;
      TagOps(TagSource(name, CleanupSource(name)), current) == []
    ensures var name := MainTagCommand(selected, current, ts).name;
      later != current ==>
      TagOps(TagSource(name, CleanupSource(name)), later) == [DeleteTag(name), DeleteBranch(current)]
  {
    CleanupSourceEncode(current, selected, ts);
  }

  /** What happens once the selection session has ended. */
  datatype Action = NoAction | CreateTag(branch: string) | CleanupTags(tags: seq<string>)

  /** Only non-empty selections act; creation uses the first selection only. */
  function Act(cleanup: bool, selections: seq<string>): (a: Action)
    ensures a.NoAction? <==> selections == []
    ensures a.CreateTag? <==> !cleanup && selections != []
    ensures a.CreateTag? ==> a.branch == selections[0]
    ensures a.CleanupTags? ==> cleanup && a.tags == selections
  {
    if selections == [] then NoAction
    else if cleanup then CleanupTags(selections)
    else CreateTag(selections[0])
  }
}
