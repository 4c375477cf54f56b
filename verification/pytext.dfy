/**
 * Small building blocks shared by the whole model: an Option type and the
 * handful of Python `str` operations that the analysis code relies on
 * (`strip`, `startswith`, `endswith`, `split("==")`, the regex classes
 * `\s` and `\w`).
 */
module Wrappers {
  datatype Option<+T> = None | Some(value: T)
}

module PyText {
  import opened Wrappers

  /**
   * Python's `str.isspace`, which is also what the regex class `\s`
   * matches: it holds the six ASCII whitespace characters and never a
   * character of `\w`.
   */
  predicate IsSpace(c: char)
    ensures c in " \t\n\r\U{b}\U{c}" ==> IsSpace(c)
    ensures IsSpace(c) ==> !IsWordChar(c)
  {
    c == ' ' || ('\t' <= c <= '\r') || ('\U{1c}' <= c <= '\U{1f}')
    || c == '\U{85}' || c == '\U{a0}' || c == '\U{1680}'
    || ('\U{2000}' <= c <= '\U{200a}') || c == '\U{2028}' || c == '\U{2029}'
    || c == '\U{202f}' || c == '\U{205f}' || c == '\U{3000}'
  }

  /** The regex class `\w`, restricted to ASCII letters, digits and `_`. */
  predicate IsWordChar(c: char) {
    ('a' <= c <= 'z') || ('A' <= c <= 'Z') || ('0' <= c <= '9') || c == '_'
  }

  /** The first index at or after `i` that does not hold whitespace (or `|s|`). */
  function SkipSpace(s: string, i: nat): (j: nat)
    requires i <= |s|
    decreases |s| - i
    ensures i <= j <= |s|
    ensures forall k :: i <= k < j ==> IsSpace(s[k])
    ensures j == |s| || !IsSpace(s[j])
  {
    if i < |s| && IsSpace(s[i]) then SkipSpace(s, i + 1) else i
  }

  /** Going left from `j`, the end of the text once trailing whitespace down to `i` is dropped. */
  function TrimSpace(s: string, i: nat, j: nat): (e: nat)
    requires i <= j <= |s|
    decreases j
    ensures i <= e <= j
    ensures forall k :: e <= k < j ==> IsSpace(s[k])
    ensures e == i || !IsSpace(s[e - 1])
  {
    if j > i && IsSpace(s[j - 1]) then TrimSpace(s, i, j - 1) else j
  }

  /** `str.strip()` with no argument: `s` without its leading and trailing whitespace. */
  function Strip(s: string): (r: string)
    ensures |r| <= |s|
    ensures r == [] || (!IsSpace(r[0]) && !IsSpace(r[|r| - 1]))
  {
    var i := SkipSpace(s, 0);
    s[i..TrimSpace(s, i, |s|)]
  }

  /** `s` is `Strip(s)` padded with whitespace on both sides. */
  lemma StripPadding(s: string)
    ensures exists i: nat, j: nat :: i <= j <= |s| && s[i..j] == Strip(s)
              && (forall k :: 0 <= k < i ==> IsSpace(s[k]))
              && (forall k :: j <= k < |s| ==> IsSpace(s[k]))
  {
    var i := SkipSpace(s, 0);
    var j := TrimSpace(s, i, |s|);
    assert s[i..j] == Strip(s);
  }

  /** Stripping leaves a string alone when neither end is whitespace. */
  lemma StripUnpadded(s: string)
    requires s == [] || (!IsSpace(s[0]) && !IsSpace(s[|s| - 1]))
    ensures Strip(s) == s
  {
    assert s[0..|s|] == s;
  }

  /** Stripping drops whitespace put in front of a string. */
  lemma StripAfterSpace(w: string, s: string)
    requires forall k :: 0 <= k < |w| ==> IsSpace(w[k])
    ensures Strip(w + s) == Strip(s)
  {
    var t := w + s;
    var i := SkipSpace(s, 0);
    var j := TrimSpace(s, i, |s|);
    var a := SkipSpace(t, 0);
    assert a == |w| + i by {
      SkipLeadingSpace(w, s, 0);
    }
    var b := TrimSpace(t, a, |t|);
    assert b == |w| + j by {
      TrimSpaceShift(w, s, i, |s|);
      assert |t| == |w| + |s|;
    }
    assert Strip(t) == t[a..b];
    assert t[a..b] == s[i..j] by {
      SliceAfter(w, s, i, j);
    }
    assert s[i..j] == Strip(s);
    assert Strip(t) == Strip(s);
  }

  lemma SliceAfter(w: string, s: string, i: nat, j: nat)
    requires i <= j <= |s|
    ensures (w + s)[|w| + i..|w| + j] == s[i..j]
  {
    assert (w + s)[|w|..] == s;
  }

  /** Skipping whitespace in `w + s` from inside the all-blank `w` ends where skipping in `s` ends, shifted. */
  lemma SkipLeadingSpace(w: string, s: string, k: nat)
    requires k <= |w| && forall j :: k <= j < |w| ==> IsSpace(w[j])
    ensures SkipSpace(w + s, k) == |w| + SkipSpace(s, 0)
    decreases |w| - k
  {
    if k < |w| {
      assert (w + s)[k] == w[k];
      SkipLeadingSpace(w, s, k + 1);
    } else {
      SkipSpaceShift(w, s, 0);
    }
  }

  /** `SkipSpace` on `w + s` past `w` is `SkipSpace` on `s`, shifted by `|w|`. */
  lemma SkipSpaceShift(w: string, s: string, i: nat)
    requires i <= |s|
    ensures SkipSpace(w + s, |w| + i) == |w| + SkipSpace(s, i)
    decreases |s| - i
  {
    if i < |s| {
      assert (w + s)[|w| + i] == s[i];
      if IsSpace(s[i]) {
        SkipSpaceShift(w, s, i + 1);
      }
    }
  }

  /** `SkipSpace` is determined by its contract. */
  lemma SkipSpaceIs(s: string, i: nat, j: nat)
    requires i <= j <= |s|
    requires forall k :: i <= k < j ==> IsSpace(s[k])
    requires j == |s| || !IsSpace(s[j])
    ensures SkipSpace(s, i) == j
    decreases |s| - i
  {
    if i < j { SkipSpaceIs(s, i + 1, j); }
  }

  /** `TrimSpace` on `w + s` is `TrimSpace` on `s`, shifted by `|w|`. */
  lemma TrimSpaceShift(w: string, s: string, i: nat, j: nat)
    requires i <= j <= |s|
    ensures TrimSpace(w + s, |w| + i, |w| + j) == |w| + TrimSpace(s, i, j)
    decreases j
  {
    if j > i {
      assert (w + s)[|w| + j - 1] == s[j - 1];
      TrimSpaceShift(w, s, i, j - 1);
    }
  }

  /** `TrimSpace` is determined by its contract. */
  lemma TrimSpaceIs(s: string, i: nat, j: nat, e: nat)
    requires i <= e <= j <= |s|
    requires forall k :: e <= k < j ==> IsSpace(s[k])
    requires e == i || !IsSpace(s[e - 1])
    ensures TrimSpace(s, i, j) == e
    decreases j
  {
    if j > e { TrimSpaceIs(s, i, j - 1, e); }
  }

  /** Stripping drops whitespace put after a string whose ends are not whitespace. */
  lemma StripBeforeSpace(s: string, w: string)
    requires s != [] && !IsSpace(s[0]) && !IsSpace(s[|s| - 1])
    requires forall k :: 0 <= k < |w| ==> IsSpace(w[k])
    ensures Strip(s + w) == s
  {
    var t := s + w;
    assert t[0] == s[0];
    assert SkipSpace(t, 0) == 0;
    forall k | |s| <= k < |t| ensures IsSpace(t[k]) {
      assert t[k] == w[k - |s|];
    }
    assert t[|s| - 1] == s[|s| - 1];
    TrimSpaceIs(t, 0, |t|, |s|);
    assert t[0..|s|] == s;
  }

  /** `s.startswith(p)`. */
  predicate StartsWith(s: string, p: string) {
    |p| <= |s| && s[..|p|] == p
  }

  /** `s.endswith(p)`. */
  predicate EndsWith(s: string, p: string) {
    |p| <= |s| && s[|s| - |p|..] == p
  }

  /** `s.startswith(p)` exactly when `s` is `p` followed by some text. */
  lemma StartsWithIff(s: string, p: string)
    ensures StartsWith(s, p) <==> |p| <= |s| && s == p + s[|p|..]
  {
    if |p| <= |s| && s == p + s[|p|..] {
      assert s[..|p|] == (p + s[|p|..])[..|p|];
    }
  }

  /** `s.endswith(p)` exactly when `s` is some text followed by `p`. */
  lemma EndsWithIff(s: string, p: string)
    ensures EndsWith(s, p) <==> |p| <= |s| && s == s[..|s| - |p|] + p
  {
    if |p| <= |s| && s == s[..|s| - |p|] + p {
      assert s[|s| - |p|..] == (s[..|s| - |p|] + p)[|s| - |p|..];
    }
  }

  /** `p` occurs in `s` at index `k`. */
  predicate OccursAt(s: string, p: string, k: nat) {
    k + |p| <= |s| && s[k..k + |p|] == p
  }

  /** `s.find(p, from)`: the first index at or after `from` where `p` occurs, if any. */
  function Find(s: string, p: string, from: nat): (r: Option<nat>)
    requires |p| > 0
    decreases |s| - from
    ensures r.Some? ==> from <= r.value && OccursAt(s, p, r.value)
    ensures forall k :: from <= k && (r.None? || k < r.value) ==> !OccursAt(s, p, k)
  {
    if from + |p| > |s| then None
    else if s[from..from + |p|] == p then Some(from)
    else Find(s, p, from + 1)
  }

  /** The index `Find` returns is the only one it can return. */
  lemma FindAt(s: string, p: string, from: nat, i: nat)
    requires |p| > 0 && from <= i && OccursAt(s, p, i)
    requires forall k :: from <= k < i ==> !OccursAt(s, p, k)
    ensures Find(s, p, from) == Some(i)
  {
  }

  /** `p` does not occur anywhere in `s`. */
  predicate Absent(s: string, p: string) {
    forall k: nat | k < |s| :: !OccursAt(s, p, k)
  }

  /** An occurrence inside a prefix of `s` is an occurrence in `s`. */
  lemma OccursInPrefix(s: string, p: string, i: nat, k: nat)
    requires i <= |s| && OccursAt(s[..i], p, k)
    ensures OccursAt(s, p, k)
  {
    assert s[..i][k..k + |p|] == s[k..k + |p|];
  }

  /** An occurrence inside a suffix of `s` is an occurrence in `s`, shifted. */
  lemma OccursInSuffix(s: string, p: string, i: nat, k: nat)
    requires i <= |s| && OccursAt(s[i..], p, k)
    ensures OccursAt(s, p, i + k)
  {
    assert s[i..][k..k + |p|] == s[i + k..i + k + |p|];
  }

  /**
   * `s.split(sep)` reduced to the two pieces the requirement-list reader
   * uses: the text before the first `sep`, and, when `sep` occurs, the text
   * between its first and second occurrence (or the end).
   */
  function SplitFirstTwo(s: string, sep: string): (r: (string, Option<string>))
    requires |sep| > 0
    ensures r.1.None? <==> Absent(s, sep)
    ensures r.1.None? ==> r.0 == s
    ensures r.1.Some? ==> StartsWith(s, r.0 + sep + r.1.value) && Absent(r.0, sep) && Absent(r.1.value, sep)
    ensures r.1.Some? ==> Find(s, sep, 0) == Some(|r.0|)
    ensures r.1.Some? ==> NextOrEnd(s, sep, |r.0| + |sep|) == |r.0| + |sep| + |r.1.value|
  {
    match Find(s, sep, 0)
    case None => (s, None)
    case Some(i) =>
      var pieces := SplitAt(s, sep, i);
      (pieces.0, Some(pieces.1))
  }

  /** The text before the first occurrence `i` of `sep`, and the text from there to the next occurrence or the end. */
  function SplitAt(s: string, sep: string, i: nat): (r: (string, string))
    requires |sep| > 0 && OccursAt(s, sep, i) && forall k :: 0 <= k < i ==> !OccursAt(s, sep, k)
    ensures StartsWith(s, r.0 + sep + r.1) && Absent(r.0, sep) && Absent(r.1, sep)
    ensures |r.0| == i && NextOrEnd(s, sep, i + |sep|) == i + |sep| + |r.1|
  {
    var e := NextOrEnd(s, sep, i + |sep|);
    SplitPieces(s, sep, i, e);
    (s[..i], s[i + |sep|..e])
  }

  /** Where the piece starting at `from` ends: the next occurrence of `sep`, or the end of `s`. */
  function NextOrEnd(s: string, sep: string, from: nat): (e: nat)
    requires |sep| > 0 && from <= |s|
    ensures from <= e <= |s| && (e == |s| || OccursAt(s, sep, e))
    ensures forall k :: from <= k < e ==> !OccursAt(s, sep, k)
  {
    match Find(s, sep, from) case None => |s| case Some(j) => j
  }

  /** The two pieces `SplitFirstTwo` returns when `sep` first occurs at `i` and next at `e`, if anywhere. */
  lemma SplitPieces(s: string, sep: string, i: nat, e: nat)
    requires |sep| > 0 && OccursAt(s, sep, i) && forall k :: 0 <= k < i ==> !OccursAt(s, sep, k)
    requires i + |sep| <= e <= |s| && forall k :: i + |sep| <= k < e ==> !OccursAt(s, sep, k)
    ensures StartsWith(s, s[..i] + sep + s[i + |sep|..e])
    ensures Absent(s[..i], sep) && Absent(s[i + |sep|..e], sep)
  {
    var rest := i + |sep|;
    assert s[..i] + sep + s[rest..e] == s[..e] by {
      assert s[..rest] == s[..i] + sep;
      assert s[..e] == s[..rest] + s[rest..e];
    }
    forall k: nat | k < i && OccursAt(s[..i], sep, k) ensures false {
      OccursInPrefix(s, sep, i, k);
    }
    forall k: nat | k < e - rest && OccursAt(s[rest..e], sep, k) ensures false {
      assert s[rest..e] == s[rest..][..e - rest];
      OccursInPrefix(s[rest..], sep, e - rest, k);
      OccursInSuffix(s, sep, rest, k);
    }
  }

  /** `SplitFirstTwo` cuts at the first occurrence of `sep` and at the one after it. */
  lemma SplitFirstTwoAt(s: string, sep: string, i: nat, e: nat)
    requires |sep| > 0 && OccursAt(s, sep, i) && forall k :: 0 <= k < i ==> !OccursAt(s, sep, k)
    requires i + |sep| <= e && OccursAt(s, sep, e) && forall k :: i + |sep| <= k < e ==> !OccursAt(s, sep, k)
    ensures SplitFirstTwo(s, sep) == (s[..i], Some(s[i + |sep|..e]))
  {
    assert SplitFirstTwo(s, sep) == (SplitAt(s, sep, i).0, Some(SplitAt(s, sep, i).1)) by {
      FindAt(s, sep, 0, i);
    }
    assert NextOrEnd(s, sep, i + |sep|) == e by {
      FindAt(s, sep, i + |sep|, e);
    }
    assert SplitAt(s, sep, i) == (s[..i], s[i + |sep|..e]);
  }

  /** An occurrence starts with the first character of the pattern. */
  lemma OccurrenceStart(s: string, p: string, k: nat)
    ensures OccursAt(s, p, k) && |p| > 0 ==> s[k] == p[0]
  {
    if OccursAt(s, p, k) && |p| > 0 {
      assert s[k..k + |p|][0] == s[k];
    }
  }

  /** An occurrence inside a piece `t` of `s` is an occurrence in `t`. */
  lemma OccursWithin(s: string, t: string, p: string, off: nat, k: nat)
    requires off + |t| <= |s| && s[off..off + |t|] == t
    ensures off <= k && k + |p| <= off + |t| && OccursAt(s, p, k) ==> OccursAt(t, p, k - off)
  {
    if off <= k && k + |p| <= off + |t| && OccursAt(s, p, k) {
      var u := s[off..off + |t|];
      var inT, inS := u[k - off..k - off + |p|], s[k..k + |p|];
      forall j | 0 <= j < |p| ensures inT[j] == inS[j] {
        assert u[k - off + j] == s[k + j];
      }
      assert inT == inS;
    }
  }

  /** An occurrence continues with the second character of the pattern. */
  lemma OccurrenceSecond(s: string, p: string, k: nat)
    ensures OccursAt(s, p, k) && |p| > 1 ==> s[k + 1] == p[1]
  {
    if OccursAt(s, p, k) && |p| > 1 {
      assert s[k..k + |p|][1] == s[k + 1];
    }
  }

  /** An occurrence in `x + y` past `x` is an occurrence in `y`. */
  lemma OccursPast(x: string, y: string, p: string, k: nat)
    requires OccursAt(x + y, p, |x| + k)
    ensures OccursAt(y, p, k)
  {
    var s := x + y;
    assert s[|x|..] == y;
    assert s[|x| + k..|x| + k + |p|] == s[|x|..][k..k + |p|];
  }

  /** Splitting `a + sep + b` gives back `a` and `b` when `sep` first occurs right after `a` and not in `b`. */
  lemma SplitFirstTwoJoin(a: string, sep: string, b: string)
    requires |sep| > 0
    requires forall k :: 0 <= k < |a| ==> !OccursAt(a + sep + b, sep, k)
    requires Absent(b, sep)
    ensures SplitFirstTwo(a + sep + b, sep) == (a, Some(b))
  {
    var x := a + sep;
    var s := x + b;
    assert s[|a|..|x|] == sep;
    FindAt(s, sep, 0, |a|);
    assert Find(s, sep, |x|).None? by {
      if Find(s, sep, |x|).Some? {
        var j := Find(s, sep, |x|).value;
        OccursPast(x, b, sep, j - |x|);
      }
    }
    assert s[..|a|] == a;
    assert s[|x|..|s|] == b;
  }
}

/** The two `os` services the walkers use: the entries of `os.walk` and `os.path.join`. */
module PyPath {
  import opened PyText

  /** One entry of `os.walk`: a directory and the names of the files in it. */
  datatype Directory = Directory(path: string, files: seq<string>)

  /** `os.path.join(root, name)` for a relative `name`. */
  function JoinPath(root: string, name: string): (r: string)
    ensures StartsWith(r, root) && EndsWith(r, name) && |r| <= |root| + 1 + |name|
  {
    if root == [] || EndsWith(root, "/") then root + name else root + "/" + name
  }

  /** The join adds nothing but one "/" between the root and the name, and only when the root lacks one. */
  lemma JoinPathSeparator(root: string, name: string)
    ensures var r := JoinPath(root, name);
            (r == root + name || r == root + "/" + name)
            && (root != [] ==> EndsWith(r[..|r| - |name|], "/"))
  {
    var r := JoinPath(root, name);
    if root == [] || EndsWith(root, "/") {
      assert r[..|r| - |name|] == root;
    } else {
      assert r[..|r| - |name|] == root + "/";
    }
  }
}
