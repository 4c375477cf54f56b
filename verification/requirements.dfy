/**
 * `get_pip_dependencies` (src/c/tools/dependency_tools.py): the reader of
 * `requirements.txt`.  Each line is stripped; blank lines and comments are
 * skipped; any other line is split on "==", the text before the first "=="
 * being the package and the text up to the next "==" the version.
 *
 * The reader takes the lines the file yields (each with its line break)
 * up to the end of the file or to the first read error: everything runs
 * inside one `try`, so an error while reading only ends the list early.
 */
module Requirements {
  import opened Wrappers
  import opened PyText
  import opened Manifests

  /** A line the reader keeps: not blank and not a comment once stripped. */
  predicate IsRequirementLine(line: string) {
    var s := Strip(line);
    s != "" && !StartsWith(s, "#")
  }

  /** The row of a kept line: `package, *version = line.split("==")`, both parts stripped. */
  function RequirementRecord(path: string, line: string): Dep {
    var parts := SplitFirstTwo(Strip(line), "==");
    Dep(path, Strip(parts.0), match parts.1 case Some(v) => Strip(v) case None => "Unknown")
  }

  /** The rows of `lines`, in order: one per kept line. */
  function RequirementsDeps(path: string, lines: seq<string>): (r: seq<Dep>)
    ensures |r| <= |lines|
  {
    if lines == [] then []
    else
      var init := RequirementsDeps(path, lines[..|lines| - 1]);
      var line := lines[|lines| - 1];
      if IsRequirementLine(line) then init + [RequirementRecord(path, line)] else init
  }

  /** `get_pip_dependencies`, given the lines read from the file. */
  method GetPipDependencies(path: string, lines: seq<string>) returns (deps: seq<Dep>)
    ensures deps == RequirementsDeps(path, lines)
  {
    deps := [];
    for i := 0 to |lines|
      invariant deps == RequirementsDeps(path, lines[..i])
    {
      assert lines[..i + 1][..i] == lines[..i];
      var line := Strip(lines[i]);
      if line != "" && !StartsWith(line, "#") {
        var parts := SplitFirstTwo(line, "==");
        var version := if parts.1.Some? then Strip(parts.1.value) else "Unknown";
        deps := deps + [Dep(path, Strip(parts.0), version)];
      }
    }
    assert lines[..|lines|] == lines;
  }

  /** The reader handles a file piece by piece: the rows of `a + b` are those of `a`, then those of `b`. */
  lemma {:induction false} RequirementsAppend(path: string, a: seq<string>, b: seq<string>)
    ensures RequirementsDeps(path, a + b) == RequirementsDeps(path, a) + RequirementsDeps(path, b)
  {
    if b == [] {
      assert a + b == a;
    } else {
      assert (a + b)[..|a + b| - 1] == a + b[..|b| - 1];
      RequirementsAppend(path, a, b[..|b| - 1]);
    }
  }

  /** Blank lines and comments can be inserted anywhere without changing the rows. */
  lemma SkippedLineIgnored(path: string, a: seq<string>, line: string, b: seq<string>)
    requires !IsRequirementLine(line)
    ensures RequirementsDeps(path, a + [line] + b) == RequirementsDeps(path, a + b)
  {
    RequirementsAppend(path, a + [line], b);
    RequirementsAppend(path, a, [line]);
    RequirementsAppend(path, a, b);
    assert [line][..0] == [];
  }

  /** A line of whitespace and a line whose first non-blank character is `#` are skipped. */
  lemma BlankAndCommentSkipped(w: string, comment: string)
    requires forall k :: 0 <= k < |w| ==> IsSpace(w[k])
    ensures !IsRequirementLine(w)
    ensures !IsRequirementLine(w + "#" + comment)
  {
    StripAfterSpace(w, "");
    assert w + "" == w;
    var c := "#" + comment;
    StripAfterSpace(w, c);
    assert w + "#" + comment == w + c;
    assert SkipSpace(c, 0) == 0;
    assert c[0] == '#' && !IsSpace('#');
    assert TrimSpace(c, 0, |c|) >= 1;
    assert Strip(c)[..1] == "#";
  }

  /** A kept line without "==" keeps its whole stripped text as the package, version "Unknown". */
  lemma UnpinnedRequirement(path: string, line: string)
    requires Absent(Strip(line), "==")
    ensures RequirementRecord(path, line) == Dep(path, Strip(line), "Unknown")
  {
    StripUnpadded(Strip(line));
  }

  /** The pin `p==v` as `pip freeze` writes it, with its line break. */
  function PinLine(p: string, v: string): string {
    p + "==" + v + "\n"
  }

  /**
   * A package and version that survive the round trip: neither has
   * surrounding whitespace or contains "==", the package is non-empty,
   * does not start a comment and does not end with '='.
   */
  predicate ValidPin(p: string, v: string) {
    && p != [] && !IsSpace(p[0]) && p[0] != '#' && !IsSpace(p[|p| - 1]) && p[|p| - 1] != '='
    && Absent(p, "==")
    && (v == [] || (!IsSpace(v[0]) && !IsSpace(v[|v| - 1])))
    && Absent(v, "==")
  }

  /** Writing a pin as a line and reading it back gives the package and version back. */
  lemma PinRoundTrip(path: string, p: string, v: string)
    requires ValidPin(p, v)
    ensures IsRequirementLine(PinLine(p, v))
    ensures RequirementRecord(path, PinLine(p, v)) == Dep(path, p, v)
  {
    var s := p + "==" + v;
    assert PinLine(p, v) == s + "\n";
    assert s[0] == p[0];
    assert s[|s| - 1] == if v == [] then '=' else v[|v| - 1];
    StripBeforeSpace(s, "\n");
    assert s[..1] == [p[0]];
    forall k | 0 <= k < |p| && OccursAt(s, "==", k) ensures false {
      if k + 2 <= |p| {
        assert s[k..k + 2] == p[k..k + 2];
        assert OccursAt(p, "==", k);
      } else {
        OccurrenceStart(s, "==", k);
      }
    }
    SplitFirstTwoJoin(p, "==", v);
    StripUnpadded(p);
    StripUnpadded(v);
  }

  /** The lines of a requirements file listing `pins`, one per line. */
  function PinLines(pins: seq<(string, string)>): seq<string> {
    seq(|pins|, k requires 0 <= k < |pins| => PinLine(pins[k].0, pins[k].1))
  }

  /** A file of valid pins reads back as exactly those pins, in order. */
  lemma {:induction false} PinnedFileRoundTrip(path: string, pins: seq<(string, string)>)
    requires forall k :: 0 <= k < |pins| ==> ValidPin(pins[k].0, pins[k].1)
    ensures var r := RequirementsDeps(path, PinLines(pins));
            |r| == |pins| && forall k :: 0 <= k < |r| ==> r[k] == Dep(path, pins[k].0, pins[k].1)
  {
    if pins != [] {
      var n := |pins| - 1;
      var lines := PinLines(pins);
      assert lines[..n] == PinLines(pins[..n]);
      PinnedFileRoundTrip(path, pins[..n]);
      PinRoundTrip(path, pins[n].0, pins[n].1);
      assert lines[n] == PinLine(pins[n].0, pins[n].1);
      var init := RequirementsDeps(path, PinLines(pins[..n]));
      var r := RequirementsDeps(path, lines);
      assert r == init + [Dep(path, pins[n].0, pins[n].1)];
      forall k | 0 <= k < |r| ensures r[k] == Dep(path, pins[k].0, pins[k].1) {
        if k < n {
          assert r[k] == init[k] && pins[..n][k] == pins[k];
        }
      }
    }
  }

  /**
   * A line with a second "==" keeps only the text between the first two
   * as the version: `p==v==c` reads as package p, version v, and c is lost.
   */
  lemma SecondPinDropped(path: string, p: string, v: string, c: string)
    requires ValidPin(p, v) && (v == [] || v[|v| - 1] != '=')
    requires c == [] || !IsSpace(c[|c| - 1])
    ensures IsRequirementLine(p + "==" + v + "==" + c + "\n")
    ensures RequirementRecord(path, p + "==" + v + "==" + c + "\n") == Dep(path, p, v)
  {
    var s := p + "==" + v + "==" + c;
    assert Strip(s + "\n") == s by {
      assert s[0] == p[0];
      assert s[|s| - 1] == if c == [] then '=' else c[|c| - 1];
      StripBeforeSpace(s, "\n");
    }
    assert s[..1] == [p[0]];
    assert SplitFirstTwo(s, "==") == (p, Some(v)) by {
      SecondPinCuts(p, v, c);
    }
    StripUnpadded(p);
    StripUnpadded(v);
  }

  /** In `p==v==c`, the first "==" is the one after `p` and the next is the one after `v`. */
  lemma SecondPinCuts(p: string, v: string, c: string)
    requires ValidPin(p, v) && (v == [] || v[|v| - 1] != '=')
    ensures SplitFirstTwo(p + "==" + v + "==" + c, "==") == (p, Some(v))
  {
    var s := p + "==" + v + "==" + c;
    var x := |p| + 2;
    var e := x + |v|;
    assert s[..|p|] == p && s[0..|p|] == p;
    assert s[x..e] == v by {
      var t := p + "==" + v;
      assert s[..e] == t;
      assert s[x..e] == t[x..];
    }
    assert OccursAt(s, "==", |p|) by {
      assert s[|p|..x] == "==";
    }
    assert OccursAt(s, "==", e) by {
      assert s[e..e + 2] == "==";
    }
    forall k | 0 <= k < |p| ensures !OccursAt(s, "==", k) {
      OccursWithin(s, p, "==", 0, k);
      OccurrenceStart(s, "==", k);
      assert s[k] == p[k];
    }
    forall k | x <= k < e ensures !OccursAt(s, "==", k) {
      OccursWithin(s, v, "==", x, k);
      OccurrenceStart(s, "==", k);
      assert s[k] == v[k - x];
    }
    SplitFirstTwoAt(s, "==", |p|, e);
  }

  /** A valid pin stays valid when its version, not starting with '=', gains one more '=' in front. */
  lemma EqualsPrefixValid(p: string, v: string)
    requires ValidPin(p, v) && (v == [] || v[0] != '=')
    ensures ValidPin(p, "=" + v)
  {
    var w := "=" + v;
    forall k: nat | k < |w| && OccursAt(w, "==", k) ensures false {
      if k > 0 {
        OccursPast("=", v, "==", k - 1);
      } else {
        OccurrenceSecond(w, "==", k);
      }
    }
    assert v != [] ==> w[|w| - 1] == v[|v| - 1];
  }

  /**
   * PEP 440's arbitrary equality `p===v` is not recognised: the first "=="
   * ends the package and the version keeps the third '=', as in `=1.0`.
   */
  lemma ArbitraryEqualityPin(path: string, p: string, v: string)
    requires ValidPin(p, v) && (v == [] || v[0] != '=')
    ensures RequirementRecord(path, p + "===" + v + "\n") == Dep(path, p, "=" + v)
  {
    var w := "=" + v;
    assert PinLine(p, w) == p + "===" + v + "\n" by {
      assert "==" + w == "===" + v;
      assert p + "==" + w == p + ("==" + w);
      assert p + "===" + v == p + ("===" + v);
    }
    EqualsPrefixValid(p, v);
    PinRoundTrip(path, p, w);
  }

  /** `pkg==` pins to the empty version, not to "Unknown". */
  lemma EmptyPin(path: string, p: string)
    requires ValidPin(p, "")
    ensures RequirementRecord(path, PinLine(p, "")) == Dep(path, p, "")
  {
    PinRoundTrip(path, p, "");
  }
}
