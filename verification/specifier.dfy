/**
 * `split_dependency` (src/c/tools/dependency_tools.py): turning a raw
 * requirement specifier such as `requests> 2.0; python_version>'3'` into a
 * `(package, version)` pair.
 *
 * The source matches the stripped specifier against
 *   ([\w\-]+)(?:\[[^\]]+\])?([<>=~!]\s[\d\w\.\*]+)?(;.+)?
 * anchored at its start only.  Because every part after the name is
 * optional, the match succeeds exactly when the first character is a word
 * character or a hyphen, and each part then takes its greedy extent.  The
 * scanner below follows the pattern part by part.
 */
module Specifier {
  import opened Wrappers
  import opened PyText

  /** What `split_dependency` returns: the pair `(package, version)`. */
  datatype Split = Split(package: string, version: string)

  /** `[\w\-]`: the characters of a package name. */
  predicate IsNameChar(c: char) { IsWordChar(c) || c == '-' }

  /** `[<>=~!]`: a one-character comparator. */
  predicate IsComparator(c: char) { c == '<' || c == '>' || c == '=' || c == '~' || c == '!' }

  /** `[\d\w\.\*]`: the characters of a version token. */
  predicate IsVersionChar(c: char) { IsWordChar(c) || c == '.' || c == '*' }

  /** The character classes the pattern repeats with `+`. */
  datatype CharClass = NameClass | NotCloseBracket | VersionClass | NotNewline

  /** Membership of `c` in the class `cls`; `NotNewline` is the regex `.`. */
  predicate InClass(c: char, cls: CharClass) {
    match cls
    case NameClass => IsNameChar(c)
    case NotCloseBracket => c != ']'
    case VersionClass => IsVersionChar(c)
    case NotNewline => c != '\n'
  }

  /** End of the longest run of characters satisfying `p` that starts at `i`. */
  function SpanEnd(s: string, i: nat, cls: CharClass): (e: nat)
    requires i <= |s|
    decreases |s| - i
    ensures i <= e <= |s|
    ensures forall k :: i <= k < e ==> InClass(s[k], cls)
    ensures e == |s| || !InClass(s[e], cls)
  {
    if i < |s| && InClass(s[i], cls) then SpanEnd(s, i + 1, cls) else i
  }

  /** End of the group `(?:\[[^\]]+\])?` tried at `i`; `i` itself when it does not match. */
  function ExtrasEnd(t: string, i: nat): (e: nat)
    requires i <= |t|
    ensures i <= e <= |t|
    ensures e != i ==> i + 3 <= e && t[i] == '[' && t[e - 1] == ']'
  {
    if i < |t| && t[i] == '[' then
      var close := SpanEnd(t, i + 1, NotCloseBracket);
      if i + 1 < close < |t| then close + 1 else i
    else i
  }

  /** End of the group `([<>=~!]\s[\d\w\.\*]+)?` tried at `i`; `i` itself when it does not match. */
  function ComparatorEnd(t: string, i: nat): (e: nat)
    requires i <= |t|
    ensures i <= e <= |t|
    ensures e != i ==> i + 3 <= e && IsComparator(t[i]) && IsSpace(t[i + 1])
                       && (forall k :: i + 2 <= k < e ==> IsVersionChar(t[k]))
  {
    if i + 2 < |t| && IsComparator(t[i]) && IsSpace(t[i + 1]) && IsVersionChar(t[i + 2])
    then SpanEnd(t, i + 2, VersionClass)
    else i
  }

  /** End of the group `(;.+)?` tried at `i`; `i` itself when it does not match. */
  function ConditionEnd(t: string, i: nat): (e: nat)
    requires i <= |t|
    ensures i <= e <= |t|
    ensures e != i ==> i + 2 <= e && t[i] == ';' && (forall k :: i + 1 <= k < e ==> t[k] != '\n')
  {
    if i + 1 < |t| && t[i] == ';' && t[i + 1] != '\n'
    then SpanEnd(t, i + 1, NotNewline)
    else i
  }

  /** The pattern matches the stripped specifier `t` at its start. */
  predicate Matches(t: string) {
    |t| > 0 && IsNameChar(t[0])
  }

  /** A non-empty string whose first character is not whitespace strips to a non-empty string starting with that character. */
  lemma StripKeepsFirst(s: string)
    requires |s| > 0 && !IsSpace(s[0])
    ensures |Strip(s)| > 0 && Strip(s)[0] == s[0]
  {
    assert SkipSpace(s, 0) == 0;
  }

  /**
   * `split_dependency(dep)`.  Never fails: when the pattern does not match
   * the stripped input, the ORIGINAL `dep` comes back with version
   * "Unknown".  Otherwise the package is the longest name-character prefix
   * of the stripped input (so an `[extras]` group never enters it), and the
   * version is never empty: it is "Unknown", or it begins with the matched
   * comparator or with the `;` of the matched condition.
   */
  function SplitDependency(dep: string): (r: Split)
    ensures !Matches(Strip(dep)) ==> r == Split(dep, "Unknown")
    ensures Matches(Strip(dep)) ==>
              var t := Strip(dep);
              0 < |r.package| <= |t| && r.package == t[..|r.package|]
              && (forall k :: 0 <= k < |r.package| ==> IsNameChar(r.package[k]))
              && (|r.package| == |t| || !IsNameChar(t[|r.package|]))
    ensures r.version != ""
    ensures r.version == "Unknown" || IsComparator(r.version[0]) || r.version[0] == ';'
  {
    var t := Strip(dep);
    if !Matches(t) then Split(dep, "Unknown")
    else
      var a := SpanEnd(t, 0, NameClass);
      var v := VersionText(t, ExtrasEnd(t, a));
      Split(t[..a], if v != "" then v else "Unknown")
  }

  /**
   * The version part of the match, before the "Unknown" default: the
   * stripped comparator clause tried at `b`, followed, when the condition
   * clause matched after it, by a space and the stripped condition, the
   * whole stripped again.
   */
  function VersionText(t: string, b: nat): (v: string)
    requires b <= |t|
    ensures v == "" || IsComparator(v[0]) || v[0] == ';'
  {
    var c := ComparatorEnd(t, b);
    var version := ClauseAt(t, b);
    var condition := ConditionAt(t, c);
    if condition != "" then JoinCondition(version, condition) else version
  }

  /** `(match.group(2) or "").strip()`: the comparator clause tried at `b`, or "". */
  function ClauseAt(t: string, b: nat): (version: string)
    requires b <= |t|
    ensures version == "" <==> ComparatorEnd(t, b) == b
    ensures version == "" || IsComparator(version[0])
  {
    var c := ComparatorEnd(t, b);
    if c != b then StripKeepsFirst(t[b..c]); Strip(t[b..c]) else Strip(t[b..c])
  }

  /** `(match.group(3) or "").strip()`: the condition clause tried at `c`, or "". */
  function ConditionAt(t: string, c: nat): (condition: string)
    requires c <= |t|
    ensures condition == "" <==> ConditionEnd(t, c) == c
    ensures condition == "" || condition[0] == ';'
  {
    var d := ConditionEnd(t, c);
    if d != c then StripKeepsFirst(t[c..d]); Strip(t[c..d]) else Strip(t[c..d])
  }

  /** `f"{version} {condition}".strip()` for a condition that starts with `;`. */
  function JoinCondition(version: string, condition: string): (v: string)
    requires version == "" || !IsSpace(version[0])
    requires |condition| > 0 && condition[0] == ';'
    ensures |v| > 0 && v[0] == (if version == "" then ';' else version[0])
  {
    var joined := version + " " + condition;
    if version == "" then
      assert joined == " " + condition;
      StripAfterSpace(" ", condition);
      StripKeepsFirst(condition);
      assert Strip(joined) == Strip(condition);
      Strip(joined)
    else
      StripKeepsFirst(joined);
      Strip(joined)
  }

  /** The `[<>=~!]\s[\d\w\.\*]+` clause as its three parts. */
  datatype Clause = Clause(op: char, gap: char, number: string)

  predicate WellFormedClause(cl: Clause) {
    IsComparator(cl.op) && IsSpace(cl.gap) && |cl.number| > 0
    && forall k :: 0 <= k < |cl.number| ==> IsVersionChar(cl.number[k])
  }

  function ClauseText(cl: Clause): string {
    [cl.op, cl.gap] + cl.number
  }

  function ExtrasText(extras: Option<string>): string {
    match extras case None => "" case Some(e) => "[" + e + "]"
  }

  function ClauseOptText(clause: Option<Clause>): string {
    match clause case None => "" case Some(cl) => ClauseText(cl)
  }

  function ConditionText(cond: Option<string>): string {
    match cond case None => "" case Some(c) => ";" + c
  }

  /**
   * A specifier assembled from a name, optional extras, an optional
   * comparator clause and an optional condition (the text after `;`).
   */
  function Compose(name: string, extras: Option<string>, clause: Option<Clause>, cond: Option<string>): string {
    name + ExtrasText(extras) + ClauseOptText(clause) + ConditionText(cond)
  }

  /** The version the pattern's groups give for such a specifier: the clause, then the condition after one space. */
  function ExpectedVersion(clause: Option<Clause>, cond: Option<string>): string {
    match (clause, cond)
    case (None, None) => "Unknown"
    case (Some(cl), None) => ClauseText(cl)
    case (None, Some(c)) => ";" + c
    case (Some(cl), Some(c)) => ClauseText(cl) + " " + (";" + c)
  }

  /** The parts of a specifier the pattern reads back unchanged. */
  predicate WellFormedParts(name: string, extras: Option<string>, clause: Option<Clause>, cond: Option<string>) {
    && |name| > 0 && (forall k :: 0 <= k < |name| ==> IsNameChar(name[k]))
    && (extras.Some? ==> |extras.value| > 0 && forall k :: 0 <= k < |extras.value| ==> extras.value[k] != ']')
    && (clause.Some? ==> WellFormedClause(clause.value))
    && (cond.Some? ==> |cond.value| > 0 && !IsSpace(cond.value[|cond.value| - 1])
                       && forall k :: 0 <= k < |cond.value| ==> cond.value[k] != '\n')
  }

  /** `SpanEnd` is determined by its contract. */
  lemma SpanEndIs(s: string, i: nat, cls: CharClass, e: nat)
    requires i <= e <= |s|
    requires forall k :: i <= k < e ==> InClass(s[k], cls)
    requires e == |s| || !InClass(s[e], cls)
    ensures SpanEnd(s, i, cls) == e
  {
  }

  /** An extras group `[e]` at `a` is skipped whole. */
  lemma ExtrasEndOf(t: string, a: nat, e: string)
    requires a + |e| + 2 <= |t| && t[a..a + |e| + 2] == "[" + e + "]"
    requires |e| > 0 && forall k :: 0 <= k < |e| ==> e[k] != ']'
    ensures ExtrasEnd(t, a) == a + |e| + 2
  {
    assert t[a] == '[' && t[a + |e| + 1] == ']';
    forall k | a + 1 <= k < a + |e| + 1 ensures InClass(t[k], NotCloseBracket) {
      assert t[k] == t[a..a + |e| + 2][k - a] == e[k - a - 1];
    }
    SpanEndIs(t, a + 1, NotCloseBracket, a + |e| + 1);
  }

  /** The characters of a well-formed clause text. */
  lemma ClauseTextChars(cl: Clause)
    requires WellFormedClause(cl)
    ensures var txt := ClauseText(cl);
            |txt| >= 3 && txt[0] == cl.op && txt[1] == cl.gap
            && (forall k :: 2 <= k < |txt| ==> IsVersionChar(txt[k]))
            && !IsSpace(txt[0]) && !IsSpace(txt[|txt| - 1])
  {
    var txt := ClauseText(cl);
    forall k | 2 <= k < |txt| ensures IsVersionChar(txt[k]) {
      assert txt[k] == cl.number[k - 2];
    }
  }

  /** A well-formed comparator clause at `b` is read back as it is. */
  lemma ClauseAtOf(t: string, b: nat, cl: Clause)
    requires WellFormedClause(cl)
    requires b + |ClauseText(cl)| <= |t| && t[b..b + |ClauseText(cl)|] == ClauseText(cl)
    requires b + |ClauseText(cl)| == |t| || !IsVersionChar(t[b + |ClauseText(cl)|])
    ensures ComparatorEnd(t, b) == b + |ClauseText(cl)|
    ensures ClauseAt(t, b) == ClauseText(cl)
  {
    var txt := ClauseText(cl);
    var n := |txt|;
    ClauseTextChars(cl);
    forall k | b <= k < b + n ensures t[k] == txt[k - b] {
      assert t[b..b + n][k - b] == t[k];
    }
    SpanEndIs(t, b + 2, VersionClass, b + n);
    assert ComparatorEnd(t, b) == b + n;
    StripUnpadded(txt);
  }

  /** A well-formed condition `;cv` running to the end of `t` is read back as it is. */
  lemma ConditionAtOf(t: string, c: nat, cv: string)
    requires c <= |t| && t[c..] == ";" + cv
    requires |cv| > 0 && !IsSpace(cv[|cv| - 1]) && forall k :: 0 <= k < |cv| ==> cv[k] != '\n'
    ensures ConditionAt(t, c) == ";" + cv
  {
    assert t[c] == ';' && t[c + 1] == cv[0];
    forall k | c + 1 <= k < |t| ensures InClass(t[k], NotNewline) {
      assert t[k] == t[c..][k - c] == cv[k - c - 1];
    }
    SpanEndIs(t, c + 1, NotNewline, |t|);
    StripUnpadded(";" + cv);
  }

  /** Joining a condition to a version that is already stripped. */
  lemma JoinConditionOf(version: string, condition: string)
    requires |condition| > 0 && condition[0] == ';' && !IsSpace(condition[|condition| - 1])
    requires version == "" || (!IsSpace(version[0]) && !IsSpace(version[|version| - 1]))
    ensures JoinCondition(version, condition) == if version == "" then condition else version + " " + condition
  {
    var joined := version + " " + condition;
    if version == "" {
      assert joined == " " + condition;
      StripAfterSpace(" ", condition);
      StripUnpadded(condition);
    } else {
      StripUnpadded(joined);
    }
  }

  /** The version once the stripped clause and condition are known. */
  lemma VersionOfParts(version: string, condition: string, clause: Option<Clause>, cond: Option<string>)
    requires clause.Some? ==> WellFormedClause(clause.value)
    requires cond.Some? ==> |cond.value| > 0 && !IsSpace(cond.value[|cond.value| - 1])
    requires version == ClauseOptText(clause) && condition == ConditionText(cond)
    ensures var v := if condition != "" then JoinCondition(version, condition) else version;
            (if v != "" then v else "Unknown") == ExpectedVersion(clause, cond)
  {
    match (clause, cond)
    case (None, None) =>
    case (Some(cl), None) =>
    case (None, Some(c)) =>
      JoinConditionOf(version, condition);
    case (Some(cl), Some(c)) =>
      ClauseTextChars(cl);
      JoinConditionOf(version, condition);
  }

  /** The version text once the clause and the condition are known. */
  lemma VersionTextOf(t: string, b: nat, clause: Option<Clause>, cond: Option<string>)
    requires b <= |t|
    requires clause.Some? ==> WellFormedClause(clause.value)
    requires cond.Some? ==> |cond.value| > 0 && !IsSpace(cond.value[|cond.value| - 1])
    requires ClauseAt(t, b) == ClauseOptText(clause)
    requires ConditionAt(t, ComparatorEnd(t, b)) == ConditionText(cond)
    ensures (if VersionText(t, b) != "" then VersionText(t, b) else "Unknown") == ExpectedVersion(clause, cond)
  {
    var version := ClauseAt(t, b);
    var condition := ConditionAt(t, ComparatorEnd(t, b));
    assert VersionText(t, b) == if condition != "" then JoinCondition(version, condition) else version;
    VersionOfParts(version, condition, clause, cond);
  }

  /** `split_dependency` on a stripped specifier, once the extent of each part is known. */
  lemma SplitOfExtents(t: string, a: nat, b: nat)
    requires |t| > 0 && !IsSpace(t[0]) && !IsSpace(t[|t| - 1]) && IsNameChar(t[0])
    requires a <= |t| && SpanEnd(t, 0, NameClass) == a && ExtrasEnd(t, a) == b
    ensures SplitDependency(t) == Split(t[..a], if VersionText(t, b) != "" then VersionText(t, b) else "Unknown")
  {
    StripUnpadded(t);
  }

  /** Where each part of a composed specifier sits. */
  lemma ComposeLayout(name: string, extras: Option<string>, clause: Option<Clause>, cond: Option<string>)
    ensures var t := Compose(name, extras, clause, cond);
            var a := |name|;
            var b := a + |ExtrasText(extras)|;
            var c := b + |ClauseOptText(clause)|;
            c <= |t| && t[..a] == name && t[a..b] == ExtrasText(extras)
            && t[b..c] == ClauseOptText(clause) && t[c..] == ConditionText(cond)
  {
  }

  /** The name part of a laid-out specifier is the longest name-character prefix. */
  lemma NameExtent(t: string, name: string, a: nat, next: char)
    requires |name| > 0 && (forall k :: 0 <= k < |name| ==> IsNameChar(name[k]))
    requires a == |name| <= |t| && t[..a] == name
    requires a < |t| ==> t[a] == next
    requires !IsNameChar(next)
    ensures |t| > 0 && IsNameChar(t[0]) && !IsSpace(t[0]) && SpanEnd(t, 0, NameClass) == a
  {
    assert t[0] == name[0];
    forall k | 0 <= k < a ensures InClass(t[k], NameClass) { assert t[k] == t[..a][k]; }
    SpanEndIs(t, 0, NameClass, a);
  }

  /** The extras part of a laid-out specifier is skipped whole, and nothing more. */
  lemma ExtrasExtent(t: string, extras: Option<string>, a: nat, b: nat)
    requires extras.Some? ==> |extras.value| > 0 && forall k :: 0 <= k < |extras.value| ==> extras.value[k] != ']'
    requires b == a + |ExtrasText(extras)| <= |t| && t[a..b] == ExtrasText(extras)
    requires extras.None? && a < |t| ==> t[a] != '['
    ensures ExtrasEnd(t, a) == b
  {
    if extras.Some? { ExtrasEndOf(t, a, extras.value); }
  }

  /** The comparator clause of a laid-out specifier is read back as it is. */
  lemma ClauseExtent(t: string, clause: Option<Clause>, b: nat, c: nat)
    requires clause.Some? ==> WellFormedClause(clause.value)
    requires c == b + |ClauseOptText(clause)| <= |t| && t[b..c] == ClauseOptText(clause)
    requires c < |t| ==> t[c] == ';'
    ensures ComparatorEnd(t, b) == c && ClauseAt(t, b) == ClauseOptText(clause)
  {
    if clause.Some? {
      ClauseAtOf(t, b, clause.value);
    } else {
      assert t[b..c] == [];
    }
  }

  /** The condition of a laid-out specifier is read back as it is. */
  lemma ConditionExtent(t: string, cond: Option<string>, c: nat)
    requires cond.Some? ==> |cond.value| > 0 && !IsSpace(cond.value[|cond.value| - 1])
                            && forall k :: 0 <= k < |cond.value| ==> cond.value[k] != '\n'
    requires c <= |t| && t[c..] == ConditionText(cond)
    ensures ConditionAt(t, c) == ConditionText(cond)
  {
    if cond.Some? {
      ConditionAtOf(t, c, cond.value);
    } else {
      assert t[c..c] == [];
    }
  }

  /** The last character of a laid-out specifier is not whitespace. */
  lemma LaidOutLast(t: string, name: string, extras: Option<string>, clause: Option<Clause>, cond: Option<string>, a: nat, b: nat, c: nat)
    requires WellFormedParts(name, extras, clause, cond)
    requires a == |name| && b == a + |ExtrasText(extras)| && c == b + |ClauseOptText(clause)|
    requires c <= |t| && t[..a] == name && t[a..b] == ExtrasText(extras)
             && t[b..c] == ClauseOptText(clause) && t[c..] == ConditionText(cond)
    ensures |t| > 0 && !IsSpace(t[|t| - 1])
  {
    if cond.Some? {
      assert t[|t| - 1] == t[c..][|t| - 1 - c];
    } else if clause.Some? {
      ClauseTextChars(clause.value);
      assert t[|t| - 1] == t[b..c][|t| - 1 - b];
    } else if extras.Some? {
      assert t[|t| - 1] == t[a..b][|t| - 1 - a];
    } else {
      assert t[|t| - 1] == t[..a][|t| - 1];
    }
  }

  /** The character that follows the extras part (or the name, when there are no extras). */
  function AfterExtras(clause: Option<Clause>): char {
    if clause.Some? then clause.value.op else ';'
  }

  /** The character that follows the name. */
  function AfterName(extras: Option<string>, clause: Option<Clause>): char {
    if extras.Some? then '[' else AfterExtras(clause)
  }

  /** The characters that follow the name and the extras in a laid-out specifier. */
  lemma LaidOutNext(t: string, extras: Option<string>, clause: Option<Clause>, cond: Option<string>, a: nat, b: nat, c: nat)
    requires clause.Some? ==> WellFormedClause(clause.value)
    requires b == a + |ExtrasText(extras)| && c == b + |ClauseOptText(clause)|
    requires c <= |t| && t[a..b] == ExtrasText(extras)
             && t[b..c] == ClauseOptText(clause) && t[c..] == ConditionText(cond)
    ensures b < |t| ==> t[b] == AfterExtras(clause)
    ensures a < |t| ==> t[a] == AfterName(extras, clause)
  {
    if clause.Some? {
      ClauseTextChars(clause.value);
      assert t[b] == t[b..c][0];
    } else if b < |t| {
      assert t[b] == t[c..][0];
    }
    if extras.Some? { assert t[a] == t[a..b][0]; }
  }

  /** Where the clause and the condition end in a specifier `t` laid out as the four parts. */
  lemma LaidOutTail(t: string, clause: Option<Clause>, cond: Option<string>, b: nat, c: nat)
    requires clause.Some? ==> WellFormedClause(clause.value)
    requires cond.Some? ==> |cond.value| > 0 && !IsSpace(cond.value[|cond.value| - 1])
                            && forall k :: 0 <= k < |cond.value| ==> cond.value[k] != '\n'
    requires c == b + |ClauseOptText(clause)| <= |t|
    requires t[b..c] == ClauseOptText(clause) && t[c..] == ConditionText(cond)
    ensures ComparatorEnd(t, b) == c && ClauseAt(t, b) == ClauseOptText(clause)
    ensures ConditionAt(t, c) == ConditionText(cond)
  {
    assert c < |t| ==> t[c] == ';' by {
      if c < |t| { assert t[c] == t[c..][0]; }
    }
    ClauseExtent(t, clause, b, c);
    ConditionExtent(t, cond, c);
  }

  /** The same, for a specifier `t` laid out as the four parts. */
  lemma {:induction false} SplitLaidOut(t: string, name: string, extras: Option<string>, clause: Option<Clause>, cond: Option<string>, a: nat, b: nat, c: nat)
    requires WellFormedParts(name, extras, clause, cond)
    requires a == |name| && b == a + |ExtrasText(extras)| && c == b + |ClauseOptText(clause)|
    requires c <= |t| && t[..a] == name && t[a..b] == ExtrasText(extras)
             && t[b..c] == ClauseOptText(clause) && t[c..] == ConditionText(cond)
    ensures SplitDependency(t) == Split(name, ExpectedVersion(clause, cond))
  {
    LaidOutNext(t, extras, clause, cond, a, b, c);
    NameExtent(t, name, a, AfterName(extras, clause));
    ExtrasExtent(t, extras, a, b);
    LaidOutLast(t, name, extras, clause, cond, a, b, c);
    LaidOutTail(t, clause, cond, b, c);
    SplitOfExtents(t, a, b);
    VersionTextOf(t, b, clause, cond);
  }

  /**
   * Splitting a well-formed composed specifier gives back its name, drops
   * its extras, and reports the comparator clause and the condition as
   * `ExpectedVersion` says.
   */
  lemma {:induction false} SplitCompose(name: string, extras: Option<string>, clause: Option<Clause>, cond: Option<string>)
    requires WellFormedParts(name, extras, clause, cond)
    ensures SplitDependency(Compose(name, extras, clause, cond)) == Split(name, ExpectedVersion(clause, cond))
  {
    ComposeLayout(name, extras, clause, cond);
    var a := |name|;
    var b := a + |ExtrasText(extras)|;
    SplitLaidOut(Compose(name, extras, clause, cond), name, extras, clause, cond, a, b, b + |ClauseOptText(clause)|);
  }

  /** A comparator character at `b` without whitespace after it: neither optional group matches there. */
  lemma NoVersionAt(t: string, b: nat)
    requires b + 1 < |t| && IsComparator(t[b]) && !IsSpace(t[b + 1])
    ensures VersionText(t, b) == ""
  {
    assert ComparatorEnd(t, b) == b;
    assert ConditionEnd(t, b) == b;
    assert t[b..b] == [];
  }

  /**
   * A comparator right after the name (and any extras) that is not
   * followed by whitespace never yields a version: the clause wants exactly
   * one comparator character and then whitespace, and the condition must
   * start with `;`, so whatever follows is ignored.  This covers the
   * two-character comparators `==`, `>=`, `~=` and conda's `=3.9` pin form.
   */
  lemma UnspacedComparatorIgnored(t: string, name: string, extras: Option<string>, op: char, next: char, rest: string)
    requires WellFormedParts(name, extras, None, None)
    requires IsComparator(op) && !IsSpace(next)
    requires rest == [] || !IsSpace(rest[|rest| - 1])
    requires t == Compose(name, extras, None, None) + [op, next] + rest
    ensures SplitDependency(t) == Split(name, "Unknown")
  {
    var head := Compose(name, extras, None, None);
    var a, b := |name|, |name| + |ExtrasText(extras)|;
    ComposeLayout(name, extras, None, None);
    assert |head| == b && t[..b] == head && t[b] == op && t[b + 1] == next;
    assert t[..a] == head[..a] && t[a..b] == head[a..b];
    assert !IsSpace(t[|t| - 1]) by {
      if rest != [] { assert t[|t| - 1] == rest[|rest| - 1]; }
    }
    assert a < |t| ==> t[a] == if extras.Some? then '[' else op by {
      if extras.Some? { assert t[a] == t[a..b][0]; }
    }
    NameExtent(t, name, a, if extras.Some? then '[' else op);
    ExtrasExtent(t, extras, a, b);
    NoVersionAt(t, b);
    SplitOfExtents(t, a, b);
  }

  /**
   * A text `tail` after a name, optional extras and an optional clause
   * that none of the pattern's groups reads: it does not start with `;`,
   * nor with a version character after a clause, nor, without a clause,
   * with a comparator (or, without extras either, with `[` or a name
   * character).  It ends in a non-whitespace character.
   */
  predicate StopsGroups(extras: Option<string>, clause: Option<Clause>, tail: string) {
    tail == [] ||
    (&& !IsSpace(tail[|tail| - 1])
     && tail[0] != ';'
     && if clause.Some? then !IsVersionChar(tail[0])
        else !IsComparator(tail[0]) && (extras.Some? || (tail[0] != '[' && !IsNameChar(tail[0]))))
  }

  /** The clause of a laid-out specifier followed by such a tail is read back, and no condition follows it. */
  lemma StoppedTail(t: string, extras: Option<string>, clause: Option<Clause>, tail: string, b: nat, c: nat)
    requires clause.Some? ==> WellFormedClause(clause.value)
    requires StopsGroups(extras, clause, tail)
    requires c == b + |ClauseOptText(clause)| <= |t|
    requires t[b..c] == ClauseOptText(clause) && t[c..] == tail
    ensures ComparatorEnd(t, b) == c && ClauseAt(t, b) == ClauseOptText(clause)
    ensures ConditionAt(t, c) == ""
  {
    assert c < |t| ==> t[c] == tail[0] by {
      if c < |t| { assert t[c] == t[c..][0]; }
    }
    if clause.Some? {
      ClauseAtOf(t, b, clause.value);
    } else {
      assert ComparatorEnd(t, b) == b;
      assert t[b..c] == [];
    }
    assert ConditionEnd(t, c) == c;
  }

  /**
   * Text the groups do not read after a name, optional extras and an
   * optional clause is ignored: `pkg> 1.0,<2.0` keeps `> 1.0`, and
   * `pkg (>=1.0)` or `pkg @ url` have no version.
   */
  lemma {:induction false} SplitStopped(name: string, extras: Option<string>, clause: Option<Clause>, tail: string)
    requires WellFormedParts(name, extras, clause, None)
    requires StopsGroups(extras, clause, tail)
    ensures SplitDependency(Compose(name, extras, clause, None) + tail) == Split(name, ExpectedVersion(clause, None))
  {
    var head := Compose(name, extras, clause, None);
    var t := head + tail;
    var a := |name|;
    var b := a + |ExtrasText(extras)|;
    var c := b + |ClauseOptText(clause)|;
    ComposeLayout(name, extras, clause, None);
    assert |head| == c && t[..c] == head && t[c..] == tail;
    assert t[..a] == name && t[a..b] == ExtrasText(extras) && t[b..c] == ClauseOptText(clause) by {
      assert t[..a] == head[..a] && t[a..b] == head[a..b] && t[b..c] == head[b..c];
    }
    var next := if extras.Some? then '[' else if clause.Some? then clause.value.op else if tail == [] then ';' else tail[0];
    assert a < |t| ==> t[a] == next by {
      if extras.Some? {
        assert t[a] == t[a..b][0];
      } else if clause.Some? {
        ClauseTextChars(clause.value);
        assert t[a] == t[b..c][0];
      } else if a < |t| {
        assert t[a] == t[c..][0];
      }
    }
    assert !IsSpace(t[|t| - 1]) by {
      if tail != [] {
        assert t[|t| - 1] == tail[|tail| - 1];
      } else {
        assert t == head;
        LaidOutLast(t, name, extras, clause, None, a, b, c);
      }
    }
    NameExtent(t, name, a, next);
    ExtrasExtent(t, extras, a, b);
    StoppedTail(t, extras, clause, tail, b, c);
    SplitOfExtents(t, a, b);
    VersionTextOf(t, b, clause, None);
  }

  /** A bare name has no version. */
  lemma SplitBareName()
    ensures SplitDependency("pkg") == Split("pkg", "Unknown")
  {
    SplitCompose("pkg", None, None, None);
    assert "pkg" == Compose("pkg", None, None, None);
  }

  /** A one-character comparator followed by a space is reported with its number. */
  lemma SplitSpacedComparator()
    ensures SplitDependency("pkg> 1.0") == Split("pkg", "> 1.0")
  {
    var cl := Clause('>', ' ', "1.0");
    assert ClauseText(cl) == "> 1.0";
    assert WellFormedParts("pkg", None, Some(cl), None) by {
      assert WellFormedClause(cl);
    }
    assert "pkg> 1.0" == Compose("pkg", None, Some(cl), None) by {
      assert ClauseOptText(Some(cl)) == "> 1.0";
    }
    SplitCompose("pkg", None, Some(cl), None);
  }

  /** `==` and `>=` are two-character comparators: no version is found. */
  lemma SplitPinnedVersion(s: string, op2: char)
    requires op2 == '=' || op2 == '>'
    requires s == [op2, '=', '1', '.', '0']
    ensures SplitDependency("pkg" + s) == Split("pkg", "Unknown")
  {
    assert "pkg" + s == Compose("pkg", None, None, None) + [op2, '='] + "1.0";
    UnspacedComparatorIgnored("pkg" + s, "pkg", None, op2, '=', "1.0");
  }

  /**
   * Extras and an environment marker (such as `; python_version>='3.8'`)
   * behind `>=` are dropped along with the version.
   */
  lemma SplitExtrasAndMarker(marker: string)
    requires marker == [] || !IsSpace(marker[|marker| - 1])
    ensures SplitDependency("pkg[extra]>=1.0" + marker) == Split("pkg", "Unknown")
  {
    var rest := "1.0" + marker;
    assert rest[|rest| - 1] == if marker == [] then '0' else marker[|marker| - 1];
    assert "pkg[extra]>=1.0" + marker == Compose("pkg", Some("extra"), None, None) + ['>', '='] + rest;
    UnspacedComparatorIgnored("pkg[extra]>=1.0" + marker, "pkg", Some("extra"), '>', '=', rest);
  }

  /** Conda's pin `python=3.9` has no whitespace after `=`: no version is found. */
  lemma SplitCondaPin()
    ensures SplitDependency("python=3.9") == Split("python", "Unknown")
  {
    assert "python=3.9" == Compose("python", None, None, None) + ['=', '3'] + ".9";
    UnspacedComparatorIgnored("python=3.9", "python", None, '=', '3', ".9");
  }

  /** A range `> 1.0,<2.0` keeps only its first clause: the comma stops the version. */
  lemma SplitCommaRange()
    ensures SplitDependency("pkg> 1.0,<2.0") == Split("pkg", "> 1.0")
  {
    var cl := Clause('>', ' ', "1.0");
    assert ClauseText(cl) == "> 1.0";
    assert WellFormedParts("pkg", None, Some(cl), None) by {
      assert WellFormedClause(cl);
    }
    assert "pkg> 1.0,<2.0" == Compose("pkg", None, Some(cl), None) + ",<2.0" by {
      assert ClauseOptText(Some(cl)) == "> 1.0";
    }
    SplitStopped("pkg", None, Some(cl), ",<2.0");
  }

  /** A parenthesised specifier `pkg (>=1.0)` has no version: the space stops every group. */
  lemma SplitParenthesised()
    ensures SplitDependency("pkg (>=1.0)") == Split("pkg", "Unknown")
  {
    assert "pkg (>=1.0)" == Compose("pkg", None, None, None) + " (>=1.0)";
    SplitStopped("pkg", None, None, " (>=1.0)");
  }

  /** A direct reference `pkg @ url` has no version. */
  lemma SplitDirectReference(url: string)
    requires |url| > 0 && !IsSpace(url[|url| - 1])
    ensures SplitDependency("pkg @ " + url) == Split("pkg", "Unknown")
  {
    var tail := " @ " + url;
    assert tail[|tail| - 1] == url[|url| - 1];
    assert "pkg @ " + url == Compose("pkg", None, None, None) + tail;
    SplitStopped("pkg", None, None, tail);
  }
}
