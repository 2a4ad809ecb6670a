/**
 * The merge-tag name protocol: a (source branch, target branch, timestamp) triple is written as
 * `merged.{source}->{target}@timestamp`, and a tag name is read back with the anchored pattern
 * `merged\.?\{(.+)\}->\{(.+)\}@(\d+)` (listing) or `merged\.?\{(.+)\}->\{.*\}@\d+` (cleanup).
 *
 * Decoding is written as explicit string splitting. The relational predicate `Matches` is the
 * pattern itself; the lemmas `SplitSound` and `SplitComplete` show that the splitter returns a match
 * whenever one exists, and that its source group is the longest one, as the greedy groups of the
 * leftmost-first regular expression engine choose it.
 */
module Codec {
  import opened Wrappers

  /** The largest int64. strconv.ParseInt saturates at this value when the digits are out of range. */
  const MaxInt64: nat := 0x7fff_ffff_ffff_ffff

  /** A decoded merge tag: the raw name and its three groups. */
  datatype TagInfo = TagInfo(name: string, source: string, target: string, ts: nat)

  /** The three groups of a successful match, before the digits are converted. */
  datatype Parts = Parts(source: string, target: string, digits: string)

  predicate IsDigit(c: char) { '0' <= c <= '9' }

  predicate AllDigits(s: string) { forall i :: 0 <= i < |s| ==> IsDigit(s[i]) }

  /** The `.` of the pattern matches any character but a newline. */
  predicate NoNewline(s: string) { '\n' !in s }

  function DigitsValue(d: string): nat
    requires AllDigits(d)
  {
    if d == [] then 0 else DigitsValue(d[..|d| - 1]) * 10 + (d[|d| - 1] as int - '0' as int)
  }

  /** strconv.ParseInt(d, 10, 64) on a digit string whose error is ignored: saturates at MaxInt64. */
  function ParseInt64(d: string): (r: nat)
    requires AllDigits(d)
    ensures r <= MaxInt64 && r <= DigitsValue(d)
    ensures DigitsValue(d) <= MaxInt64 ==> r == DigitsValue(d)
    ensures DigitsValue(d) > MaxInt64 ==> r == MaxInt64
  {
    if DigitsValue(d) <= MaxInt64 then DigitsValue(d) else MaxInt64
  }

  function DigitChar(k: nat): char
    requires k < 10
  {
    ('0' as int + k) as char
  }

  /** The `%d` rendering of a non-negative integer. */
  function FormatInt(n: nat): string
  {
    if n < 10 then [DigitChar(n)] else FormatInt(n / 10) + [DigitChar(n % 10)]
  }

  /** `%d` yields a non-empty digit string without leading zeros whose value is n. */
  lemma {:induction false} FormatIntDigits(n: nat)
    ensures |FormatInt(n)| >= 1 && AllDigits(FormatInt(n))
    ensures DigitsValue(FormatInt(n)) == n
    ensures FormatInt(n)[0] == '0' ==> n == 0
  {
    if n >= 10 {
      FormatIntDigits(n / 10);
      var d := FormatInt(n);
      assert d[..|d| - 1] == FormatInt(n / 10);
    }
  }

  /** The literal text before the source group in each accepted form. */
  function Prefix(dot: bool): string
  {
    if dot then "merged.{" else "merged{"
  }

  /** A name laid out in either accepted form: `merged.{` (current) or `merged{` (legacy). */
  function Layout(dot: bool, source: string, target: string, digits: string): string
  {
    Prefix(dot) + source + "}->{" + target + "}@" + digits
  }

  /** The name written by both tag-creation call sites, given the argument order each uses. */
  function Encode(source: string, target: string, ts: nat): (r: string)
    ensures |source| >= 1 && NoNewline(source) && NoNewline(target) ==>
      Matches(r, source, target, FormatInt(ts), if target == "" then 0 else 1)
  {
    FormatIntDigits(ts);
    Layout(true, source, target, FormatInt(ts))
  }

  /**
   * The anchored pattern, matched with one choice of its groups: minTarget is 1 for the listing
   * pattern (target group `.+`) and 0 for the cleanup pattern (target group `.*`).
   */
  ghost predicate Matches(name: string, source: string, target: string, digits: string, minTarget: nat)
  {
    (name == Layout(true, source, target, digits) || name == Layout(false, source, target, digits))
    && |source| >= 1 && |target| >= minTarget && |digits| >= 1 && AllDigits(digits)
    && NoNewline(source) && NoNewline(target)
  }

  /** The name begins with the six letters `merged`. */
  predicate StartsMerged(name: string)
  {
    |name| >= 6 && name[0] == 'm' && name[1] == 'e' && name[2] == 'r' && name[3] == 'g'
    && name[4] == 'e' && name[5] == 'd'
  }

  /** Strips the literal prefix: which form it was, and the text after the first `{`. */
  function Body(name: string): (r: Option<(bool, string)>)
    ensures r.Some? ==> name == Prefix(r.value.0) + r.value.1
  {
    if !StartsMerged(name) || |name| < 7 then None
    else if name[6] == '{' then
      assert name == name[..7] + name[7..];
      Some((false, name[7..]))
    else if name[6] == '.' && |name| >= 8 && name[7] == '{' then
      assert name == name[..8] + name[8..];
      Some((true, name[8..]))
    else None
  }

  lemma BodyOf(dot: bool, rest: string)
    ensures Body(Prefix(dot) + rest) == Some((dot, rest))
  {
    var name := Prefix(dot) + rest;
    assert name[..|Prefix(dot)|] == Prefix(dot);
    if !dot {
      assert name[6] == '{';
    }
  }

  /** Length of the maximal run of digits at the end of s. */
  function TrailingDigits(s: string): (k: nat)
    ensures k <= |s| && AllDigits(s[|s| - k..])
  {
    if s != [] && IsDigit(s[|s| - 1]) then
      var k := TrailingDigits(s[..|s| - 1]) + 1;
      assert s[|s| - k..] == s[..|s| - 1][|s| - k..] + [s[|s| - 1]];
      k
    else 0
  }

  /** Splits off `}@` followed by the maximal trailing digit run, the only place that group can match. */
  function SplitDigits(rest: string): (r: Option<(string, string)>)
    ensures r.Some? ==> |r.value.1| >= 1 && AllDigits(r.value.1)
  {
    var k := TrailingDigits(rest);
    var m := |rest| - k;
    if k == 0 || m < 2 || rest[m - 2] != '}' || rest[m - 1] != '@' then None
    else Some((rest[..m - 2], rest[m..]))
  }

  lemma SplitDigitsShape(rest: string)
    ensures SplitDigits(rest).Some? ==> rest == SplitDigits(rest).value.0 + "}@" + SplitDigits(rest).value.1
  {
    if SplitDigits(rest).Some? {
      var m := |rest| - TrailingDigits(rest);
      assert rest == rest[..m - 2] + rest[m - 2..m] + rest[m..];
    }
  }

  lemma {:induction false} TrailingDigitsAfter(a: string, digits: string)
    requires a != [] && !IsDigit(a[|a| - 1]) && AllDigits(digits)
    ensures TrailingDigits(a + digits) == |digits|
  {
    if digits != [] {
      var s := a + digits;
      assert s[..|s| - 1] == a + digits[..|digits| - 1];
      TrailingDigitsAfter(a, digits[..|digits| - 1]);
    } else {
      assert a + digits == a;
    }
  }

  lemma SplitDigitsOf(x: string, digits: string)
    requires |digits| >= 1 && AllDigits(digits)
    ensures SplitDigits(x + "}@" + digits) == Some((x, digits))
  {
    var rest := x + "}@" + digits;
    TrailingDigitsAfter(x + "}@", digits);
    assert rest == (x + "}@") + digits;
    var k := TrailingDigits(rest);
    var m := |rest| - k;
    assert rest[m - 2..m] == "}@";
    assert rest[..m - 2] == x;
    assert rest[m..] == digits;
  }

  /** The separator `}->{` starts at position j of x. */
  predicate ArrowAt(x: string, j: int)
  {
    0 <= j && j + 4 <= |x| && x[j] == '}' && x[j + 1] == '-' && x[j + 2] == '>' && x[j + 3] == '{'
  }

  /**
   * Right-to-left scan for the separator: the largest position i with 1 <= i <= hi at which it
   * starts, or 0 when there is none.
   */
  function LastArrow(x: string, hi: int): (i: nat)
    requires hi + 4 <= |x|
    ensures i == 0 || (1 <= i <= hi && ArrowAt(x, i))
    ensures forall j :: i < j <= hi && 1 <= j ==> !ArrowAt(x, j)
    decreases hi
  {
    if hi < 1 then 0 else if ArrowAt(x, hi) then hi else LastArrow(x, hi - 1)
  }

  /**
   * Splits `source}->{target` at the last separator that leaves a non-empty source and a target of
   * at least minTarget characters: the choice of the greedy source group.
   */
  function SplitArrow(x: string, minTarget: nat): (r: Option<(string, string)>)
  {
    var i := LastArrow(x, |x| - 4 - minTarget);
    if i == 0 then None else Some((x[..i], x[i + 4..]))
  }

  lemma SplitArrowShape(x: string, minTarget: nat)
    ensures var r := SplitArrow(x, minTarget);
      r.Some? ==> x == r.value.0 + "}->{" + r.value.1 && |r.value.0| >= 1 && |r.value.1| >= minTarget
  {
    var i := LastArrow(x, |x| - 4 - minTarget);
    if i != 0 {
      assert x[i..i + 4] == "}->{";
      assert x == x[..i] + x[i..i + 4] + x[i + 4..];
    }
  }

  lemma SplitArrowComplete(source: string, target: string, minTarget: nat)
    requires |source| >= 1 && |target| >= minTarget
    ensures SplitArrow(source + "}->{" + target, minTarget).Some?
    ensures |SplitArrow(source + "}->{" + target, minTarget).value.0| >= |source|
  {
    var x := source + "}->{" + target;
    assert x[|source|..|source| + 4] == "}->{";
    assert ArrowAt(x, |source|);
  }

  lemma NoArrowInTarget(source: string, target: string, j: int)
    requires |source| < j && '}' !in target
    ensures !ArrowAt(source + "}->{" + target, j)
  {
    var x := source + "}->{" + target;
    if 0 <= j && j + 4 <= |x| {
      assert x[j..j + 4][0] == x[j];
      if j <= |source| + 3 {
        assert x[j] == "}->{"[j - |source|];
      } else {
        assert x[j] == target[j - |source| - 4];
      }
    }
  }

  lemma SplitArrowExact(source: string, target: string, minTarget: nat)
    requires |source| >= 1 && |target| >= minTarget && '}' !in target
    ensures SplitArrow(source + "}->{" + target, minTarget) == Some((source, target))
  {
    var x := source + "}->{" + target;
    SplitArrowComplete(source, target, minTarget);
    var i := LastArrow(x, |x| - 4 - minTarget);
    if i > |source| {
      NoArrowInTarget(source, target, i);
    }
    assert x[..i] == source;
    assert x[i + 4..] == target;
  }

  /** The shared splitter of both patterns. */
  function Split(name: string, minTarget: nat): Option<Parts>
  {
    match Body(name)
      case None => None
      case Some((_, rest)) =>
        match SplitDigits(rest)
        case None => None
        case Some((x, digits)) =>
          match SplitArrow(x, minTarget)
          case None => None
          case Some((source, target)) =>
            if NoNewline(source) && NoNewline(target) then Some(Parts(source, target, digits)) else None
  }

  /** The listing decoder: `merged\.?\{(.+)\}->\{(.+)\}@(\d+)` followed by ParseInt. */
  function Decode(name: string): (r: Option<TagInfo>)
    ensures r.Some? ==> r.value.name == name && r.value.source != "" && r.value.target != ""
    ensures r.Some? ==> r.value.ts <= MaxInt64
  {
    match Split(name, 1)
    case None => None
    case Some(p) => Some(TagInfo(name, p.source, p.target, ParseInt64(p.digits)))
  }

  /** The cleanup decoder: the source group of `merged\.?\{(.+)\}->\{.*\}@\d+`, or "" without a match. */
  function CleanupSource(name: string): (r: string)
    ensures NoNewline(r)
  {
    match Split(name, 0)
    case None => ""
    case Some(p) => p.source
  }

  /** A name decodes exactly when the listing pattern matches it, and the record holds the groups of a match. */
  lemma DecodeMatchesPattern(name: string)
    ensures Decode(name).Some? <==> exists s, t, d :: Matches(name, s, t, d, 1)
    ensures Decode(name).Some? ==>
      var r := Decode(name).value;
      exists d :: Matches(name, r.source, r.target, d, 1) && r.ts == ParseInt64(d)
  {
    SplitSound(name, 1);
    SplitFailsOnlyWithoutMatch(name, 1);
  }

  /**
   * Every decodable name starts with `merged.{` or `merged{` and ends with a digit: a name without the
   * prefix, with nothing after `@`, or with text after the digits never decodes.
   */
  lemma DecodeShape(name: string)
    ensures Decode(name).Some? ==>
      ((|name| >= 8 && name[..8] == "merged.{") || (|name| >= 7 && name[..7] == "merged{"))
      && IsDigit(name[|name| - 1])
  {
    if Decode(name).Some? {
      SplitSound(name, 1);
      var p := Split(name, 1).value;
      var dot := name == Layout(true, p.source, p.target, p.digits);
      var rest := (p.source + "}->{" + p.target) + "}@" + p.digits;
      LayoutParts(dot, p.source, p.target, p.digits);
      assert name == Prefix(dot) + rest;
      assert name[|name| - 1] == p.digits[|p.digits| - 1];
      assert name[..|Prefix(dot)|] == Prefix(dot);
    }
  }

  /** The cleanup source is non-empty exactly when the cleanup pattern matches, and is then a match's source. */
  lemma CleanupSourceMatchesPattern(name: string)
    ensures CleanupSource(name) != "" <==> exists s, t, d :: Matches(name, s, t, d, 0)
    ensures CleanupSource(name) != "" ==> exists t, d :: Matches(name, CleanupSource(name), t, d, 0)
  {
    SplitSound(name, 0);
    SplitFailsOnlyWithoutMatch(name, 0);
  }

  /** When the splitter fails, no choice of groups matches the pattern. */
  lemma SplitFailsOnlyWithoutMatch(name: string, minTarget: nat)
    ensures Split(name, minTarget).None? ==> forall s, t, d :: !Matches(name, s, t, d, minTarget)
  {
    forall s, t, d | Matches(name, s, t, d, minTarget) ensures Split(name, minTarget).Some? {
      SplitComplete(name, s, t, d, minTarget);
    }
  }

  /** The groups of any split of a newline-free `source}->{target` are newline-free. */
  lemma NoNewlineParts(source: string, target: string, s': string, t': string)
    requires NoNewline(source) && NoNewline(target)
    requires source + "}->{" + target == s' + "}->{" + t'
    ensures NoNewline(s') && NoNewline(t')
  {
    var x := source + "}->{" + target;
    assert forall k :: 0 <= k < |x| ==> x[k] != '\n' by {
      forall k | 0 <= k < |x| ensures x[k] != '\n' {
        if k < |source| {
          assert x[k] == source[k];
        } else if k >= |source| + 4 {
          assert x[k] == target[k - |source| - 4];
        }
      }
    }
    forall k | 0 <= k < |s'| ensures s'[k] != '\n' {
      assert s'[k] == x[k];
    }
    forall k | 0 <= k < |t'| ensures t'[k] != '\n' {
      assert t'[k] == x[|s'| + 4 + k];
    }
  }

  lemma LayoutParts(dot: bool, source: string, target: string, digits: string)
    ensures Layout(dot, source, target, digits) == Prefix(dot) + ((source + "}->{" + target) + "}@" + digits)
  {
  }

  /** Every splitter result is a match of the pattern. */
  lemma SplitSound(name: string, minTarget: nat)
    ensures Split(name, minTarget).Some? ==>
      var r := Split(name, minTarget).value;
      Matches(name, r.source, r.target, r.digits, minTarget)
  {
    if Split(name, minTarget).Some? {
      var r := Split(name, minTarget).value;
      var (dot, rest) := Body(name).value;
      SplitDigitsShape(rest);
      SplitArrowShape(SplitDigits(rest).value.0, minTarget);
      LayoutParts(dot, r.source, r.target, r.digits);
      assert name == Layout(dot, r.source, r.target, r.digits);
    }
  }

  /**
   * Whenever the name matches, the splitter succeeds, with the same digits and a source group at
   * least as long: together with SplitSound, the splitter picks the match with the longest source.
   */
  lemma SplitComplete(name: string, source: string, target: string, digits: string, minTarget: nat)
    requires Matches(name, source, target, digits, minTarget)
    ensures Split(name, minTarget).Some?
    ensures Split(name, minTarget).value.digits == digits
    ensures |Split(name, minTarget).value.source| >= |source|
  {
    var dot := name == Layout(true, source, target, digits);
    var x := source + "}->{" + target;
    var rest := x + "}@" + digits;
    LayoutParts(dot, source, target, digits);
    BodyOf(dot, rest);
    assert Body(name) == Some((dot, rest));
    SplitDigitsOf(x, digits);
    assert SplitDigits(rest) == Some((x, digits));
    SplitArrowComplete(source, target, minTarget);
    SplitArrowShape(x, minTarget);
    var (s', t') := SplitArrow(x, minTarget).value;
    NoNewlineParts(source, target, s', t');
    assert Split(name, minTarget) == Some(Parts(s', t', digits));
  }

  /**
   * Round trip: splitting a name laid out from (source, target, digits) gives back exactly those
   * groups, provided the groups are non-empty as the pattern needs, newline-free, and the target holds
   * no `}` (otherwise the greedy source group reaches into the target).
   */
  lemma SplitLayout(dot: bool, source: string, target: string, digits: string, minTarget: nat)
    requires |source| >= 1 && |target| >= minTarget && |digits| >= 1 && AllDigits(digits)
    requires NoNewline(source) && NoNewline(target) && '}' !in target
    ensures Split(Layout(dot, source, target, digits), minTarget) == Some(Parts(source, target, digits))
  {
    var rest := (source + "}->{" + target) + "}@" + digits;
    LayoutParts(dot, source, target, digits);
    BodyOf(dot, rest);
    assert Body(Layout(dot, source, target, digits)) == Some((dot, rest));
    SplitDigitsOf(source + "}->{" + target, digits);
    SplitArrowExact(source, target, minTarget);
  }

  /** Decoding the canonical name yields exactly the encoded triple. */
  lemma DecodeEncode(source: string, target: string, ts: nat)
    requires |source| >= 1 && |target| >= 1 && ts <= MaxInt64
    requires NoNewline(source) && NoNewline(target) && '}' !in target
    ensures Decode(Encode(source, target, ts)) == Some(TagInfo(Encode(source, target, ts), source, target, ts))
  {
    FormatIntDigits(ts);
    SplitLayout(true, source, target, FormatInt(ts), 1);
  }

  /** The cleanup decoder reads back the source of a canonical name; the target may be empty here. */
  lemma CleanupSourceEncode(source: string, target: string, ts: nat)
    requires |source| >= 1 && NoNewline(source) && NoNewline(target) && '}' !in target
    ensures CleanupSource(Encode(source, target, ts)) == source
  {
    FormatIntDigits(ts);
    SplitLayout(true, source, target, FormatInt(ts), 0);
  }

  lemma ValueOf100()
    ensures AllDigits("100") && ParseInt64("100") == 100
  {
    assert "100"[..2] == "10";
    assert "10"[..1] == "1";
    assert "1"[..0] == "";
  }

  /** Both the legacy `merged{` and the current `merged.{` forms decode to source a, target b, ts 100. */
  lemma DecodeBothForms()
    ensures Decode("merged{a}->{b}@100") == Some(TagInfo("merged{a}->{b}@100", "a", "b", 100))
    ensures Decode("merged.{a}->{b}@100") == Some(TagInfo("merged.{a}->{b}@100", "a", "b", 100))
  {
    assert "merged{a}->{b}@100" == Layout(false, "a", "b", "100");
    assert "merged.{a}->{b}@100" == Layout(true, "a", "b", "100");
    ValueOf100();
    SplitLayout(false, "a", "b", "100", 1);
    SplitLayout(true, "a", "b", "100", 1);
  }

  /** Non-conforming names are not merge tags: a wrong prefix, no digits after `@`, a trailing non-digit. */
  lemma DecodeRejectsPrefix()
    ensures Decode("mergedXYZ") == None
  {
    assert "mergedXYZ"[6] == 'X';
  }

  lemma DecodeRejectsNoDigits()
    ensures Decode("merged.{a}->{b}@") == None
  {
    assert Body("merged.{a}->{b}@") == Some((true, "a}->{b}@"));
  }

  lemma DecodeRejectsTrailingText()
    ensures Decode("merged.{a}->{b}@12x") == None
  {
    assert Body("merged.{a}->{b}@12x") == Some((true, "a}->{b}@12x"));
  }

  /** An empty source group is rejected. */
  lemma DecodeRejectsEmptySource()
    ensures Decode("merged.{}->{b}@1") == None
  {
    assert Body("merged.{}->{b}@1") == Some((true, "}->{b}@1"));
    SplitDigitsOf("}->{b", "1");
    assert SplitArrow("}->{b", 1) == None;
  }

  /** The cleanup pattern admits an empty target that the listing pattern rejects. */
  lemma CleanupAcceptsEmptyTarget()
    ensures CleanupSource("merged.{a}->{}@5") == "a"
  {
    assert "merged.{a}->{}@5" == Layout(true, "a", "", "5");
    SplitLayout(true, "a", "", "5", 0);
  }

  /** An empty target group is rejected by the listing pattern. */
  lemma DecodeRejectsEmptyTarget()
    ensures Decode("merged.{a}->{}@5") == None
  {
    assert Body("merged.{a}->{}@5") == Some((true, "a}->{}@5"));
    SplitDigitsOf("a}->{", "5");
    assert SplitArrow("a}->{", 1) == None;
  }

  /** The source group is greedy: it reaches up to the last `}->{` that leaves a non-empty target. */
  lemma DecodeIsGreedy()
    ensures Decode("merged.{a}->{b}->{c}@1") == Some(TagInfo("merged.{a}->{b}->{c}@1", "a}->{b", "c", 1))
  {
    assert "merged.{a}->{b}->{c}@1" == Layout(true, "a}->{b", "c", "1");
    assert "1"[..0] == "";
    assert ParseInt64("1") == 1;
    SplitLayout(true, "a}->{b", "c", "1", 1);
  }

  lemma LayoutNoNewline(dot: bool, source: string, target: string, digits: string)
    requires NoNewline(source) && NoNewline(target) && AllDigits(digits)
    ensures NoNewline(Layout(dot, source, target, digits))
  {
    var name := Layout(dot, source, target, digits);
    forall k | 0 <= k < |name| ensures name[k] != '\n' {
      var p := |Prefix(dot)|;
      if k < p {
        assert name[k] == Prefix(dot)[k];
      } else if k < p + |source| {
        assert name[k] == source[k - p];
      } else if k < p + |source| + 4 {
        assert name[k] == "}->{"[k - p - |source|];
      } else if k < p + |source| + 4 + |target| {
        assert name[k] == target[k - p - |source| - 4];
      } else if k < p + |source| + 4 + |target| + 2 {
        assert name[k] == "}@"[k - p - |source| - 4 - |target|];
      } else {
        assert name[k] == digits[k - p - |source| - 6 - |target|];
      }
    }
  }

  /** A name holding a newline never matches either pattern, since `.` does not match a newline. */
  lemma NewlineNeverMatches(name: string, minTarget: nat)
    requires !NoNewline(name)
    ensures Split(name, minTarget) == None
  {
    SplitSound(name, minTarget);
    if Split(name, minTarget).Some? {
      var r := Split(name, minTarget).value;
      if name == Layout(true, r.source, r.target, r.digits) {
        LayoutNoNewline(true, r.source, r.target, r.digits);
      } else {
        LayoutNoNewline(false, r.source, r.target, r.digits);
      }
    }
  }
}
