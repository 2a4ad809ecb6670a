/**
 * The listings built from git's output: branch names for the creation picker, and decoded merge tags,
 * most recent first, for the cleanup picker. git's output is a parameter, already split into lines.
 */
module Listing {
  import opened Wrappers
  import opened Codec
  import opened Selection

  /** The lines GetBranches keeps, in order: not empty and not the current branch. */
  function KeptBranches(lines: seq<string>, current: string): seq<string>
  {
    if lines == [] then []
    else
      var l := lines[|lines| - 1];
      KeptBranches(lines[..|lines| - 1], current) + (if l != "" && l != current then [l] else [])
  }

  /** Every kept line occurs as often as in the input unless it is empty or the current branch. */
  lemma {:induction false} KeptBranchesCount(lines: seq<string>, current: string, x: string)
    ensures multiset(KeptBranches(lines, current))[x] ==
      if x == "" || x == current then 0 else multiset(lines)[x]
  {
    if lines != [] {
      var n := |lines| - 1;
      KeptBranchesCount(lines[..n], current, x);
      assert lines == lines[..n] + [lines[n]];
      assert multiset(lines) == multiset(lines[..n]) + multiset{lines[n]};
    }
  }

  /** The branch list of the git package: git's lines in order, minus empty lines and the current branch. */
  method GetBranches(lines: seq<string>, current: string) returns (branches: seq<string>)
    ensures branches == KeptBranches(lines, current)
    ensures forall x :: multiset(branches)[x] == if x == "" || x == current then 0 else multiset(lines)[x]
  {
    branches := [];
    for i := 0 to |lines|
      invariant branches == KeptBranches(lines[..i], current)
    {
      assert lines[..i + 1][..i] == lines[..i];
      var l := lines[i];
      if l != "" && l != current {
        branches := branches + [l];
      }
    }
    assert lines[..|lines|] == lines;
    forall x ensures multiset(branches)[x] == if x == "" || x == current then 0 else multiset(lines)[x] {
      KeptBranchesCount(lines, current, x);
    }
  }

  /** The picker entry for a branch. */
  function BranchItem(name: string): Item
  {
    Item(name, "", false, false)
  }

  /**
   * The branch list of the main program: one unchecked, untagged entry per non-empty line, in order.
   * The current branch is not removed here.
   */
  method BranchItems(lines: seq<string>) returns (items: seq<Item>)
    ensures |items| == |KeptBranches(lines, "")|
    ensures forall k :: 0 <= k < |items| ==> items[k] == BranchItem(KeptBranches(lines, "")[k])
  {
    items := [];
    for i := 0 to |lines|
      invariant |items| == |KeptBranches(lines[..i], "")|
      invariant forall k :: 0 <= k < |items| ==> items[k] == BranchItem(KeptBranches(lines[..i], "")[k])
    {
      assert lines[..i + 1][..i] == lines[..i];
      var l := lines[i];
      if l != "" {
        items := items + [BranchItem(l)];
      }
    }
    assert lines[..|lines|] == lines;
  }

  /** The records of the decodable lines, in input order. */
  function Detected(lines: seq<string>): seq<TagInfo>
  {
    if lines == [] then []
    else
      var l := lines[|lines| - 1];
      Detected(lines[..|lines| - 1]) + (if l != "" && Decode(l).Some? then [Decode(l).value] else [])
  }

  /** A record is detected exactly when its name is one of the lines and decodes to it: the rest are skipped. */
  lemma {:induction false} DetectedMembers(lines: seq<string>, t: TagInfo)
    ensures t in Detected(lines) <==> t.name in lines && Decode(t.name) == Some(t)
  {
    if lines != [] {
      var n := |lines| - 1;
      var pre, l := lines[..n], lines[n];
      assert lines == pre + [l];
      DetectedMembers(pre, t);
      DetectedLast(lines, t);
      DecodeKeepsName(l);
      var decodes := Decode(t.name) == Some(t);
      if t.name == l {
        assert t in Detected(lines) <==> decodes;
      } else {
        assert Decode(l) != Some(t);
        assert t.name in lines <==> t.name in pre;
      }
    }
  }

  /** The last line contributes t exactly when it decodes to t. */
  lemma DetectedLast(lines: seq<string>, t: TagInfo)
    requires lines != []
    ensures var n := |lines| - 1;
      t in Detected(lines) <==> t in Detected(lines[..n]) || Decode(lines[n]) == Some(t)
  {
    var n := |lines| - 1;
    var l := lines[n];
    var d := Decode(l);
    DecodeKeepsName(l);
    var tail := if l != "" && d.Some? then [d.value] else [];
    assert Detected(lines) == Detected(lines[..n]) + tail;
    assert t in tail <==> d == Some(t);
  }

  /** Reading one more line adds its record exactly when it is non-empty and decodes. */
  lemma DetectedSnoc(lines: seq<string>, i: nat)
    requires i < |lines|
    ensures Detected(lines[..i + 1]) ==
      Detected(lines[..i]) + (if lines[i] != "" && Decode(lines[i]).Some? then [Decode(lines[i]).value] else [])
  {
    assert lines[..i + 1][..i] == lines[..i];
  }

  lemma DecodeKeepsName(l: string)
    ensures Decode(l).Some? ==> Decode(l).value.name == l && l != ""
  {
  }

  predicate SortedByTsDesc(s: seq<TagInfo>)
  {
    forall i, j :: 0 <= i < j < |s| ==> s[i].ts >= s[j].ts
  }

  /**
   * Reorders the records in place, most recent first. The source hands this to an unstable library
   * sort, so only the order of timestamps and the permutation are promised.
   */
  method SortByTsDesc(a: array<TagInfo>)
    modifies a
    ensures SortedByTsDesc(a[..])
    ensures multiset(a[..]) == multiset(old(a[..]))
  {
    var i := 0;
    while i < a.Length
      invariant 0 <= i <= a.Length
      invariant SortedByTsDesc(a[..i])
      invariant multiset(a[..]) == multiset(old(a[..]))
    {
      InsertAt(a, i);
      i := i + 1;
    }
    assert a[..a.Length] == a[..];
  }

  /** Moves a[i] left past the records with smaller timestamps, extending the sorted prefix by one. */
  method InsertAt(a: array<TagInfo>, i: nat)
    requires i < a.Length && SortedByTsDesc(a[..i])
    modifies a
    ensures SortedByTsDesc(a[..i + 1])
    ensures multiset(a[..]) == multiset(old(a[..]))
    ensures a[i + 1..] == old(a[i + 1..])
  {
    var j := i;
    ghost var rest := a[i + 1..];
    InsertionStart(a[..], i);
    while j > 0 && a[j - 1].ts < a[j].ts
      invariant 0 <= j <= i
      invariant Inserting(a[..], j, i)
      invariant multiset(a[..]) == multiset(old(a[..]))
      invariant a[i + 1..] == rest
    {
      InsertionStep(a[..], j, i);
      SwapDown(a, j);
      j := j - 1;
    }
    InsertionDone(a[..], j, i);
  }

  /**
   * The state of an insertion step in s: apart from the moving record at j, s[..i + 1] is ordered, and
   * the moving record is at least every record after it.
   */
  ghost predicate Inserting(s: seq<TagInfo>, j: nat, i: nat)
  {
    j <= i < |s|
    && (forall p, q :: 0 <= p < q <= i && p != j && q != j ==> s[p].ts >= s[q].ts)
    && (forall q :: j < q <= i ==> s[j].ts >= s[q].ts)
  }

  lemma InsertionStart(s: seq<TagInfo>, i: nat)
    requires i < |s| && SortedByTsDesc(s[..i])
    ensures Inserting(s, i, i)
  {
    forall p, q | 0 <= p < q <= i && p != i && q != i ensures s[p].ts >= s[q].ts {
      assert s[..i][p] == s[p] && s[..i][q] == s[q];
    }
  }

  /** Swapping the moving record with a smaller predecessor moves it one place left. */
  lemma InsertionStep(s: seq<TagInfo>, j: nat, i: nat)
    requires 0 < j && Inserting(s, j, i) && s[j - 1].ts < s[j].ts
    ensures Inserting(s[j - 1 := s[j]][j := s[j - 1]], j - 1, i)
  {
  }

  /** Once the moving record has no smaller predecessor, the whole prefix through i is ordered. */
  lemma InsertionDone(s: seq<TagInfo>, j: nat, i: nat)
    requires Inserting(s, j, i) && (j == 0 || s[j - 1].ts >= s[j].ts)
    ensures SortedByTsDesc(s[..i + 1])
  {
    var t := s[..i + 1];
    forall p, q | 0 <= p < q < |t| ensures t[p].ts >= t[q].ts {
      if p == j {
      } else if q == j {
        assert s[p].ts >= s[j - 1].ts || p == j - 1;
      }
    }
  }

  /** Exchanges a[k - 1] and a[k]; the contents are the same multiset. */
  method SwapDown(a: array<TagInfo>, k: nat)
    requires 0 < k < a.Length
    modifies a
    ensures a[..] == old(a[..])[k - 1 := old(a[k])][k := old(a[k - 1])]
    ensures multiset(a[..]) == multiset(old(a[..]))
    ensures a[k + 1..] == old(a[k + 1..])
  {
    a[k - 1], a[k] := a[k], a[k - 1];
  }

  /**
   * The merge-tag list of the git package: the records of the decodable lines, rearranged so that
   * timestamps do not increase.
   */
  method GetMergedTags(lines: seq<string>) returns (tags: seq<TagInfo>)
    ensures multiset(tags) == multiset(Detected(lines))
    ensures SortedByTsDesc(tags)
  {
    var detected: seq<TagInfo> := [];
    for i := 0 to |lines|
      invariant detected == Detected(lines[..i])
    {
      DetectedSnoc(lines, i);
      var l := lines[i];
      if l == "" {
        continue;
      }
      var m := Decode(l);
      if m.None? {
        continue;
      }
      detected := detected + [m.value];
    }
    assert lines[..|lines|] == lines;
    var a := new TagInfo[|detected|](k requires 0 <= k < |detected| => detected[k]);
    assert a[..] == detected;
    SortByTsDesc(a);
    tags := a[..];
  }

  /** The picker entry for a decoded tag; date renders a timestamp as the local date and time. */
  function TagItem(t: TagInfo, date: nat -> string): Item
  {
    Item(t.name, date(t.ts) + ": " + t.source + " -> " + t.target, false, true)
  }

  /** The entries of the main program's tag picker, one per record, in the records' order. */
  method TagItems(tags: seq<TagInfo>, date: nat -> string) returns (items: seq<Item>)
    ensures |items| == |tags|
    ensures forall k :: 0 <= k < |items| ==> items[k] == TagItem(tags[k], date)
  {
    items := [];
    for i := 0 to |tags|
      invariant |items| == i
      invariant forall k :: 0 <= k < i ==> items[k] == TagItem(tags[k], date)
    {
      var item := TagItem(tags[i], date);
      items := items + [item];
    }
  }

  /**
   * The merge-tag list of the main program: the sorted records as entries that keep the raw tag name
   * as title, are marked as tags and start unchecked.
   */
  method MergedTagItems(lines: seq<string>, date: nat -> string) returns (tags: seq<TagInfo>, items: seq<Item>)
    ensures multiset(tags) == multiset(Detected(lines)) && SortedByTsDesc(tags)
    ensures |items| == |tags|
    ensures forall k :: 0 <= k < |items| ==> items[k] == TagItem(tags[k], date)
  {
    tags := GetMergedTags(lines);
    items := TagItems(tags, date);
  }

  /** A tag entry is always shown by its description, which is never empty, with an empty checkbox. */
  lemma TagItemLabel(t: TagInfo, date: nat -> string)
    ensures var i := TagItem(t, date);
      i.isTag && i.title == t.name && !i.selected && Label(i) == "[ ] " + i.description
  {
    var i := TagItem(t, date);
    assert |i.description| >= 2;
    assert Label(i)[..4] == "[ ] ";
    assert Label(i) == Label(i)[..4] + Label(i)[4..];
  }

  /** A branch entry is shown by its name with an empty checkbox. */
  lemma BranchItemLabel(name: string)
    ensures Label(BranchItem(name)) == "[ ] " + name
  {
    var r := Label(BranchItem(name));
    assert r == r[..4] + r[4..];
  }

  /** Three tags with timestamps 100, 300, 200 are listed as 300, 200, 100. */
  lemma SortExample(t1: TagInfo, t2: TagInfo, t3: TagInfo, s: seq<TagInfo>)
    requires t1.ts == 100 && t2.ts == 300 && t3.ts == 200
    requires multiset(s) == multiset([t1, t2, t3]) && SortedByTsDesc(s)
    ensures s == [t2, t3, t1]
  {
    assert |s| == 3 by {
      assert |multiset(s)| == |multiset([t1, t2, t3])|;
    }
    assert t1 in multiset(s) && t2 in multiset(s) && t3 in multiset(s);
    assert forall x :: x in s ==> x == t1 || x == t2 || x == t3 by {
      forall x | x in s ensures x == t1 || x == t2 || x == t3 {
        assert x in multiset(s);
      }
    }
    assert s[0] == t2;
    assert s[2] == t1;
    assert s[1] == t3;
  }
}
