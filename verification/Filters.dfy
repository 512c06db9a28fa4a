/**
 The output filters of src/cli/base_cli_lib.c: `_print` sends a text line by line through the
 chain of filters and stops at the first that rejects the line; every filter keeps its own
 state.

 The chain is proved to be the composition of its filters, each applied to the whole output in
 order, and each filter is characterised on whole outputs.  A regular expression is any
 predicate.
 */
module Filters {
  import opened Words
  import opened Wrappers

  /** include, exclude, grep and egrep; begin and between; count. */
  datatype Kind = Match(test: string -> bool, invert: bool) | Range(from: string, to: Option<string>) | Count

  /** A filter with its state. */
  datatype Stage = Stage(kind: Kind, matched: bool, count: nat)

  ghost predicate OccursAt(sub: string, s: string, i: nat) {
    i + |sub| <= |s| && s[i..i + |sub|] == sub
  }

  /** The text occurs somewhere in the line. */
  ghost predicate Occurs(sub: string, s: string) {
    exists i: nat :: OccursAt(sub, s, i)
  }

  /** strstr(s, sub) != NULL */
  predicate Contains(s: string, sub: string) {
    sub <= s || (s != "" && Contains(s[1..], sub))
  }

  lemma OccursBehind(sub: string, s: string, i: nat)
    requires s != ""
    ensures OccursAt(sub, s, i + 1) <==> OccursAt(sub, s[1..], i)
  {
    if i + 1 + |sub| <= |s| {
      assert s[i + 1..i + 1 + |sub|] == s[1..][i..i + |sub|];
    }
  }

  lemma OccursFirst(sub: string, s: string)
    ensures OccursAt(sub, s, 0) <==> sub <= s
  {
  }

  lemma {:induction false} ContainsMeans(s: string, sub: string)
    ensures Contains(s, sub) <==> Occurs(sub, s)
  {
    hide OccursAt;
    OccursFirst(sub, s);
    if s == "" {
      forall i: nat | OccursAt(sub, s, i) ensures sub <= s {
        OccursNowhere(sub, s, i);
      }
    } else {
      ContainsMeans(s[1..], sub);
      if i: nat :| OccursAt(sub, s, i) {
        if i > 0 {
          OccursBehind(sub, s, i - 1);
        }
      }
      if i: nat :| OccursAt(sub, s[1..], i) {
        OccursBehind(sub, s, i);
      }
    }
  }

  lemma OccursNowhere(sub: string, s: string, i: nat)
    requires s == "" && OccursAt(sub, s, i)
    ensures sub == ""
  {
  }

  /** The line is the last of a segment. */
  ghost predicate Closes(to: Option<string>, line: string) {
    to.Some? && Occurs(to.value, line)
  }

  ghost predicate Blank(line: string) {
    SkipSpaces(line) == ""
  }

  // ---------------------------------------------------------------------------------------
  // One filter
  // ---------------------------------------------------------------------------------------

  ghost predicate Passes(f: Stage, line: string) {
    match f.kind
    case Match(test, invert) => test(line) != invert
    case Range(from, to) => f.matched || Occurs(from, line)
    case Count => false
  }

  ghost function Next(f: Stage, line: string): Stage {
    match f.kind
    case Match(test, invert) => f
    case Range(from, to) => f.(matched := (f.matched || Occurs(from, line)) && !Closes(to, line))
    case Count => f.(count := f.count + if Blank(line) then 0 else 1)
  }

  /** What is left of a list of lines when only those with a mark stay. */
  ghost function Marked(lines: seq<string>, marks: seq<bool>): seq<string>
    requires |marks| == |lines|
  {
    if lines == [] then []
    else (if marks[0] then [lines[0]] else []) + Marked(lines[1..], marks[1..])
  }

  /** One filter on the whole output. */
  ghost function After(f: Stage, lines: seq<string>): Stage
    decreases |lines|
  {
    if lines == [] then f else After(Next(f, lines[0]), lines[1..])
  }

  ghost function Output(f: Stage, lines: seq<string>): seq<string>
    decreases |lines|
  {
    if lines == [] then []
    else (if Passes(f, lines[0]) then [lines[0]] else []) + Output(Next(f, lines[0]), lines[1..])
  }

  // ---------------------------------------------------------------------------------------
  // The chain
  // ---------------------------------------------------------------------------------------

  datatype Sent = Sent(fs: seq<Stage>, out: seq<string>)

  /** One line through the chain: a rejected line does not reach the filters behind. */
  ghost function Feed(fs: seq<Stage>, line: string): (r: Sent)
    ensures |r.fs| == |fs|
  {
    if fs == [] then Sent([], [line])
    else if !Passes(fs[0], line) then Sent([Next(fs[0], line)] + fs[1..], [])
    else
      var r := Feed(fs[1..], line);
      Sent([Next(fs[0], line)] + r.fs, r.out)
  }

  ghost function Stream(fs: seq<Stage>, lines: seq<string>): (r: Sent)
    ensures |r.fs| == |fs|
    decreases |lines|
  {
    if lines == [] then Sent(fs, [])
    else
      var a := Feed(fs, lines[0]);
      var b := Stream(a.fs, lines[1..]);
      Sent(b.fs, a.out + b.out)
  }

  /** Every filter in turn on the whole output of the one before. */
  ghost function Compose(fs: seq<Stage>, lines: seq<string>): (r: Sent)
    ensures |r.fs| == |fs|
  {
    if fs == [] then Sent([], lines)
    else
      var r := Compose(fs[1..], Output(fs[0], lines));
      Sent([After(fs[0], lines)] + r.fs, r.out)
  }

  lemma {:induction false} ComposeNothing(fs: seq<Stage>)
    ensures Compose(fs, []) == Sent(fs, [])
  {
    if fs != [] {
      ComposeNothing(fs[1..]);
      assert fs == [fs[0]] + fs[1..];
    }
  }

  lemma {:induction false} ComposeCons(fs: seq<Stage>, x: string, xs: seq<string>)
    ensures var a := Feed(fs, x); var b := Compose(a.fs, xs);
      Compose(fs, [x] + xs) == Sent(b.fs, a.out + b.out)
  {
    assert ([x] + xs)[1..] == xs;
    if fs != [] {
      var g := Next(fs[0], x);
      var a, out := Feed(fs, x), Output(g, xs);
      assert a.fs[0] == g;
      if Passes(fs[0], x) {
        assert a.fs[1..] == Feed(fs[1..], x).fs;
        ComposeCons(fs[1..], x, out);
      } else {
        assert a.fs[1..] == fs[1..];
        assert Output(fs[0], [x] + xs) == out;
      }
    }
  }

  /** Sending the lines one by one is the same as composing the filters: the same lines come
      out, and every filter ends in the same state. */
  lemma {:induction false} StreamIsCompose(fs: seq<Stage>, lines: seq<string>)
    ensures Stream(fs, lines) == Compose(fs, lines)
    decreases |lines|
  {
    if lines == [] {
      ComposeNothing(fs);
    } else {
      ComposeCons(fs, lines[0], lines[1..]);
      assert lines == [lines[0]] + lines[1..];
      StreamIsCompose(Feed(fs, lines[0]).fs, lines[1..]);
    }
  }

  lemma {:induction false} StreamAppend(fs: seq<Stage>, xs: seq<string>, ys: seq<string>)
    ensures var a := Stream(fs, xs); var b := Stream(a.fs, ys);
      Stream(fs, xs + ys) == Sent(b.fs, a.out + b.out)
    decreases |xs|
  {
    hide Feed;
    if xs == [] {
      assert xs + ys == ys;
    } else {
      var a := Feed(fs, xs[0]);
      assert (xs + ys)[1..] == xs[1..] + ys;
      StreamAppend(a.fs, xs[1..], ys);
      var b, c := Stream(a.fs, xs[1..]), Stream(Stream(a.fs, xs[1..]).fs, ys);
      assert a.out + (b.out + c.out) == a.out + b.out + c.out;
    }
  }

  // ---------------------------------------------------------------------------------------
  // What the filters mean
  // ---------------------------------------------------------------------------------------

  /** Line i lies in a segment: some line up to it opens one, and no line from there up to the
      one before i closes it. */
  ghost predicate InSegment(lines: seq<string>, i: nat, from: string, to: Option<string>, open: bool)
    requires i < |lines|
  {
    || (open && forall k | 0 <= k < i :: !Closes(to, lines[k]))
    || exists j | 0 <= j <= i :: Occurs(from, lines[j]) && forall k | j <= k < i :: !Closes(to, lines[k])
  }

  ghost function Segments(lines: seq<string>, from: string, to: Option<string>, open: bool): seq<bool> {
    seq(|lines|, i requires 0 <= i < |lines| => InSegment(lines, i, from, to, open))
  }

  lemma SegmentStep(lines: seq<string>, i: nat, from: string, to: Option<string>, open: bool)
    requires 0 < i < |lines|
    ensures InSegment(lines, i, from, to, open)
       <==> InSegment(lines[1..], i - 1, from, to, (open || Occurs(from, lines[0])) && !Closes(to, lines[0]))
  {
  }

  /** `between` prints the segments, both ends included, and opens again after each. */
  lemma {:induction false} RangeIsSegments(f: Stage, lines: seq<string>)
    requires f.kind.Range?
    ensures Output(f, lines) == Marked(lines, Segments(lines, f.kind.from, f.kind.to, f.matched))
    decreases |lines|
  {
    if lines != [] {
      var from, to, g := f.kind.from, f.kind.to, Next(f, lines[0]);
      var marks := Segments(lines, from, to, f.matched);
      assert marks[0] == Passes(f, lines[0]);
      forall i | 0 <= i < |lines| - 1 ensures marks[1..][i] == Segments(lines[1..], from, to, g.matched)[i] {
        SegmentStep(lines, i + 1, from, to, f.matched);
      }
      assert marks[1..] == Segments(lines[1..], from, to, g.matched);
      RangeIsSegments(g, lines[1..]);
    }
  }

  /** The first line that contains the text, or the number of lines. */
  ghost function FirstWith(lines: seq<string>, from: string): (n: nat)
    ensures n <= |lines| && (n < |lines| ==> Occurs(from, lines[n]))
    ensures forall i | 0 <= i < n :: !Occurs(from, lines[i])
  {
    if lines == [] || Occurs(from, lines[0]) then 0 else 1 + FirstWith(lines[1..], from)
  }

  lemma {:induction false} OpenPassesAll(f: Stage, lines: seq<string>)
    requires f.kind.Range? && f.kind.to.None? && f.matched
    ensures Output(f, lines) == lines
  {
    if lines != [] {
      OpenPassesAll(Next(f, lines[0]), lines[1..]);
      assert lines == [lines[0]] + lines[1..];
    }
  }

  /** `begin` prints everything from the first line with the text on. */
  lemma {:induction false} BeginIsSuffix(f: Stage, lines: seq<string>)
    requires f.kind.Range? && f.kind.to.None? && !f.matched
    ensures Output(f, lines) == lines[FirstWith(lines, f.kind.from)..]
  {
    if lines != [] {
      if Occurs(f.kind.from, lines[0]) {
        OpenPassesAll(f.(matched := true), lines);
      } else {
        BeginIsSuffix(f, lines[1..]);
      }
    }
  }

  lemma BlankMeans(line: string)
    ensures Blank(line) <==> forall i | 0 <= i < |line| :: IsSpace(line[i])
  {
    hide IsSpace;
    var n := FirstSolid(line);
    SkipsSpaces(line, n);
  }

  ghost function FirstSolid(line: string): (n: nat)
    ensures n <= |line| && (forall i | 0 <= i < n :: IsSpace(line[i])) && (n < |line| ==> !IsSpace(line[n]))
  {
    if line == "" || !IsSpace(line[0]) then 0 else 1 + FirstSolid(line[1..])
  }

  ghost function NonBlank(lines: seq<string>): nat {
    if lines == [] then 0 else (if Blank(lines[0]) then 0 else 1) + NonBlank(lines[1..])
  }

  lemma {:induction false} CountCounts(f: Stage, lines: seq<string>)
    requires f.kind.Count?
    ensures Output(f, lines) == [] && After(f, lines) == f.(count := f.count + NonBlank(lines))
    decreases |lines|
  {
    if lines != [] {
      CountCounts(Next(f, lines[0]), lines[1..]);
    }
  }

  ghost function Chosen(lines: seq<string>, test: string -> bool, invert: bool): seq<bool> {
    seq(|lines|, i requires 0 <= i < |lines| => test(lines[i]) != invert)
  }

  /** `include` and the like select lines one by one. */
  lemma {:induction false} MatchSelects(f: Stage, lines: seq<string>)
    requires f.kind.Match?
    ensures After(f, lines) == f && Output(f, lines) == Marked(lines, Chosen(lines, f.kind.test, f.kind.invert))
    decreases |lines|
  {
    if lines != [] {
      MatchSelects(f, lines[1..]);
      assert Chosen(lines, f.kind.test, f.kind.invert)[1..] == Chosen(lines[1..], f.kind.test, f.kind.invert);
    }
  }

  lemma {:induction false} ComposeAppend(fs: seq<Stage>, gs: seq<Stage>, lines: seq<string>)
    ensures var a := Compose(fs, lines); var b := Compose(gs, a.out);
      Compose(fs + gs, lines) == Sent(a.fs + b.fs, b.out)
  {
    if fs == [] {
      assert fs + gs == gs;
    } else {
      assert (fs + gs)[1..] == fs[1..] + gs;
      ComposeAppend(fs[1..], gs, Output(fs[0], lines));
    }
  }

  /** A count at any place in the chain ends at the number of non-blank lines that survive the
      filters before it; nothing is printed, and the filters behind it see nothing. */
  lemma CountIsSurvivors(fs: seq<Stage>, f: Stage, gs: seq<Stage>, lines: seq<string>)
    requires f.kind.Count?
    ensures var r := Stream(fs + [f] + gs, lines); var survivors := Stream(fs, lines);
      && r.out == []
      && r.fs == survivors.fs + [f.(count := f.count + NonBlank(survivors.out))] + gs
  {
    hide Feed, Stream, Passes, Next, Output, After;
    var a := Compose(fs, lines);
    StreamIsCompose(fs, lines);
    StreamIsCompose(fs + [f] + gs, lines);
    ComposeAppend(fs, [f] + gs, lines);
    assert fs + [f] + gs == fs + ([f] + gs) && ([f] + gs)[1..] == gs;
    CountCounts(f, a.out);
    ComposeNothing(gs);
  }

  lemma {:induction false} AfterKeepsKind(f: Stage, lines: seq<string>)
    ensures After(f, lines).kind == f.kind
    decreases |lines|
  {
    if lines != [] {
      AfterKeepsKind(Next(f, lines[0]), lines[1..]);
    }
  }

  ghost predicate NoCount(fs: seq<Stage>) {
    fs != [] ==> !fs[0].kind.Count? && NoCount(fs[1..])
  }

  lemma {:induction false} ComposeKeepsKinds(fs: seq<Stage>, lines: seq<string>)
    requires NoCount(fs)
    ensures NoCount(Compose(fs, lines).fs)
  {
    if fs != [] {
      AfterKeepsKind(fs[0], lines);
      ComposeKeepsKinds(fs[1..], Output(fs[0], lines));
    }
  }
}
