/**
 The chain of filters in place: state structs that are updated line by line, and the printing
 loop and clean-up that drive them (`_print`, the filter functions and the end of
 `cli_find_command` in src/cli/base_cli_lib.c).
 */
module FilterChain {
  import opened Filters
  import opened Words

  class Filter {
    const kind: Kind
    var matched: bool
    var count: nat

    constructor (kind: Kind)
      ensures View() == Stage(kind, false, 0)
    {
      this.kind, matched, count := kind, false, 0;
    }

    function View(): Stage
      reads this
    {
      Stage(kind, matched, count)
    }

    /** cli_match_filter, cli_range_filter and cli_count_filter on a line */
    method Line(line: string) returns (ok: bool)
      modifies this
      ensures View() == Next(old(View()), line)
      ensures ok == Passes(old(View()), line)
    {
      match kind {
        case Match(test, invert) =>
          ok := test(line);
          if invert {
            ok := !ok;
          }
        case Range(from, to) =>
          ContainsMeans(line, from);
          ok := false;
          if !matched {
            matched := Contains(line, from);
          }
          if matched {
            ok := true;
            if to.Some? && Contains(line, to.value) {
              matched := false;
            }
            if to.Some? {
              ContainsMeans(line, to.value);
            }
          }
        case Count =>
          var p := SkipTo(line);
          assert line[p..] == "" <==> p == |line|;
          if p < |line| {
            count := count + 1;
          }
          ok := false;
      }
    }
  }

  ghost function Views(fs: seq<Filter>): (vs: seq<Stage>)
    reads fs
    ensures |vs| == |fs|
  {
    if fs == [] then [] else Views(fs[..|fs| - 1]) + [fs[|fs| - 1].View()]
  }

  lemma {:induction false} ViewsAt(fs: seq<Filter>, i: nat)
    requires i < |fs|
    ensures Views(fs)[i] == fs[i].View()
  {
    if i < |fs| - 1 {
      ViewsAt(fs[..|fs| - 1], i);
    }
  }

  lemma ViewsTail(fs: seq<Filter>)
    requires fs != []
    ensures Views(fs)[1..] == Views(fs[1..])
  {
    forall i | 0 <= i < |fs| - 1 ensures Views(fs)[1..][i] == Views(fs[1..])[i] {
      ViewsAt(fs, i + 1);
      ViewsAt(fs[1..], i);
    }
  }

  // ---------------------------------------------------------------------------------------
  // Text and lines
  // ---------------------------------------------------------------------------------------

  /** The pieces of a text between its line feeds; one more than there are line feeds. */
  ghost function Lines(text: string): (r: seq<string>)
    ensures r != []
    ensures forall i | 0 <= i < |r| :: '\n' !in r[i]
  {
    if text == "" then [""]
    else
      var r := Lines(text[1..]);
      if text[0] == '\n' then [""] + r else [[text[0]] + r[0]] + r[1..]
  }

  ghost function Unlines(ls: seq<string>): string {
    if ls == [] then "" else if |ls| == 1 then ls[0] else ls[0] + "\n" + Unlines(ls[1..])
  }

  /** Nothing of a text is lost by cutting it into lines. */
  lemma {:induction false} LinesAreText(text: string)
    ensures Unlines(Lines(text)) == text
  {
    if text != "" {
      var r := Lines(text[1..]);
      LinesAreText(text[1..]);
      if text[0] == '\n' {
        assert ([""] + r)[1..] == r;
      } else {
        var a := [text[0]] + r[0];
        assert ([a] + r[1..])[1..] == r[1..];
        assert text == [text[0]] + text[1..];
      }
    }
  }

  /** The first line ends at the first line feed. */
  lemma {:induction false} FirstLine(text: string, k: nat)
    requires k <= |text| && '\n' !in text[..k] && (k < |text| ==> text[k] == '\n')
    ensures Lines(text) == if k < |text| then [text[..k]] + Lines(text[k + 1..]) else [text]
  {
    if k > 0 {
      assert text[..k] == [text[0]] + text[1..][..k - 1];
      assert k < |text| ==> text[1..][k..] == text[k + 1..];
      FirstLine(text[1..], k - 1);
      assert [text[0]] + text[1..] == text;
    }
  }

  lemma FirstLineFrom(text: string, p: nat, next: nat)
    requires p <= next <= |text| && '\n' !in text[p..next] && (next < |text| ==> text[next] == '\n')
    ensures Lines(text[p..]) == if next < |text| then [text[p..next]] + Lines(text[next + 1..]) else [text[p..next]]
  {
    assert text[p..][..next - p] == text[p..next] && next < |text| ==> text[p..][next - p + 1..] == text[next + 1..];
    assert next == |text| ==> text[p..] == text[p..next];
    FirstLine(text[p..], next - p);
  }

  // ---------------------------------------------------------------------------------------
  // Printing
  // ---------------------------------------------------------------------------------------

  /** What the client receives: lines, and the number a count prints when it is cleaned up. */
  datatype Item = Text(line: string) | Number(n: nat)

  ghost function Texts(lines: seq<string>): seq<Item> {
    seq(|lines|, i requires 0 <= i < |lines| => Text(lines[i]))
  }

  ghost function Numbers(fs: seq<Stage>): seq<Item> {
    if fs == [] then []
    else (if fs[0].kind.Count? then [Number(fs[0].count)] else []) + Numbers(fs[1..])
  }

  /** The line has passed the first i filters, or it has been rejected by one of them. */
  ghost predicate Halfway(was: seq<Stage>, now: seq<Stage>, i: nat, shown: bool, line: string)
    requires i <= |now| == |was|
  {
    if shown then
      && now[i..] == was[i..]
      && Feed(was, line) == Sent(now[..i] + Feed(was[i..], line).fs, Feed(was[i..], line).out)
    else Feed(was, line) == Sent(now, [])
  }

  lemma HalfwayStart(was: seq<Stage>, line: string)
    ensures Halfway(was, was, 0, true, line)
  {
  }

  lemma HalfwayEnd(was: seq<Stage>, now: seq<Stage>, i: nat, shown: bool, line: string)
    requires i <= |now| == |was| && (shown ==> i == |was|) && Halfway(was, now, i, shown, line)
    ensures Feed(was, line) == Sent(now, if shown then [line] else [])
  {
  }

  lemma HalfwayStep(was: seq<Stage>, now: seq<Stage>, i: nat, line: string)
    requires i < |now| == |was| && Halfway(was, now, i, true, line)
    ensures now[i] == was[i] && Halfway(was, now[i := Next(was[i], line)], i + 1, Passes(was[i], line), line)
  {
    hide Next, Passes;
    var g := Next(was[i], line);
    var next := now[i := g];
    assert now[i] == now[i..][0] == was[i..][0] && was[i..][1..] == was[i + 1..];
    if Passes(was[i], line) {
      var rest := Feed(was[i + 1..], line).fs;
      assert now[..i] + ([g] + rest) == next[..i + 1] + rest && next[i + 1..] == now[i..][1..];
    } else {
      assert now[i..][1..] == now[i + 1..] && now[..i] + ([g] + was[i + 1..]) == next;
    }
  }

  /** What _print has to do when it stands at p, or is done. */
  ghost function ToPrint(fs: seq<Stage>, filtered: bool, text: string, p: nat, more: bool): Sent
    requires p <= |text|
  {
    if !more then Sent(fs, [])
    else if filtered then Stream(fs, Lines(text[p..]))
    else Sent(fs, Lines(text[p..]))
  }

  lemma StreamCons(fs: seq<Stage>, line: string, rest: seq<string>)
    ensures Stream(fs, [line] + rest)
         == Sent(Stream(Feed(fs, line).fs, rest).fs, Feed(fs, line).out + Stream(Feed(fs, line).fs, rest).out)
    ensures Stream(fs, [line]) == Feed(fs, line)
  {
  }

  /** One line of the text. */
  lemma PrintStep(fs: seq<Stage>, filtered: bool, text: string, p: nat, next: nat)
    requires p <= next <= |text| && '\n' !in text[p..next] && (next < |text| ==> text[next] == '\n')
    ensures var line := text[p..next]; var a := if filtered then Feed(fs, line) else Sent(fs, [line]);
      var b := ToPrint(a.fs, filtered, text, if next < |text| then next + 1 else p, next < |text|);
      ToPrint(fs, filtered, text, p, true) == Sent(b.fs, a.out + b.out)
  {
    hide Stream, Feed, Lines;
    FirstLineFrom(text, p, next);
    StreamCons(fs, text[p..next], if next < |text| then Lines(text[next + 1..]) else []);
  }

  /** What is printed already, followed by what remains, is all. */
  ghost predicate Remaining(all: Sent, done: seq<string>, r: Sent) {
    all == Sent(r.fs, done + r.out)
  }

  lemma RemainingStep(all: Sent, done: seq<string>, a: Sent, b: Sent)
    requires Remaining(all, done, Sent(b.fs, a.out + b.out))
    ensures Remaining(all, done + a.out, b)
    ensures a.out == [] ==> Remaining(all, done, b)
  {
  }

  lemma PrintBegins(fs: seq<Stage>, filtered: bool, text: string, sent: seq<Item>)
    ensures ToPrint(fs, filtered, text, 0, true) == if filtered then Stream(fs, Lines(text)) else Sent(fs, Lines(text))
    ensures var all := ToPrint(fs, filtered, text, 0, true); Remaining(all, [], all) && sent + Texts([]) == sent
  {
  }

  lemma PrintEnds(all: Sent, done: seq<string>, fs: seq<Stage>, filtered: bool, text: string, p: nat)
    requires p <= |text| && Remaining(all, done, ToPrint(fs, filtered, text, p, false))
    ensures all == Sent(fs, done)
  {
  }

  lemma TextsSnoc(sent: seq<Item>, done: seq<string>, line: string)
    ensures sent + Texts(done) + [Text(line)] == sent + Texts(done + [line])
  {
  }

  lemma NumbersStep(sent: seq<Item>, fs: seq<Stage>)
    requires fs != []
    ensures sent + Numbers(fs)
         == (if fs[0].kind.Count? then sent + [Number(fs[0].count)] else sent) + Numbers(fs[1..])
  {
  }

  lemma NumbersCons(f: Stage, rest: seq<Stage>)
    ensures Numbers([f] + rest) == (if f.kind.Count? then [Number(f.count)] else []) + Numbers(rest)
  {
    assert ([f] + rest)[1..] == rest;
  }

  lemma {:induction false} NumbersAppend(fs: seq<Stage>, gs: seq<Stage>)
    ensures Numbers(fs + gs) == Numbers(fs) + Numbers(gs)
  {
    hide Numbers;
    if fs == [] {
      assert fs + gs == gs;
      NumbersOfNone();
    } else {
      var f, rest := fs[0], fs[1..];
      assert fs == [f] + rest && fs + gs == [f] + (rest + gs);
      NumbersAppend(rest, gs);
      NumbersCons(f, rest);
      NumbersCons(f, rest + gs);
    }
  }

  lemma NumbersOfNone()
    ensures Numbers([]) == []
  {
  }

  lemma {:induction false} NoNumbers(fs: seq<Stage>)
    requires NoCount(fs)
    ensures Numbers(fs) == []
  {
    if fs != [] {
      NoNumbers(fs[1..]);
    }
  }

  lemma OneNumber(f: Stage)
    requires f.kind.Count?
    ensures Numbers([f]) == [Number(f.count)]
  {
    assert [f][1..] == [];
  }

  /** What the client receives when one filter of the chain, anywhere in it, is a count: the
      number of lines that are not blank among those that the filters before it let through,
      and nothing else. */
  lemma CountIsPrinted(fs: seq<Stage>, f: Stage, gs: seq<Stage>, lines: seq<string>)
    requires NoCount(fs) && f.kind.Count? && f.count == 0 && NoCount(gs)
    ensures var r := Compose(fs + [f] + gs, lines);
      Texts(r.out) + Numbers(r.fs) == [Number(NonBlank(Compose(fs, lines).out))]
  {
    hide Compose, Stream, NoCount, Numbers;
    var a, g := Compose(fs, lines), f.(count := NonBlank(Compose(fs, lines).out));
    CountIsSurvivors(fs, f, gs, lines);
    StreamIsCompose(fs, lines);
    StreamIsCompose(fs + [f] + gs, lines);
    ComposeKeepsKinds(fs, lines);
    NumbersAppend(a.fs + [g], gs);
    NumbersAppend(a.fs, [g]);
    NoNumbers(a.fs);
    NoNumbers(gs);
    OneNumber(g);
  }

  ghost function Fresh(kinds: seq<Kind>): seq<Stage> {
    seq(|kinds|, i requires 0 <= i < |kinds| => Stage(kinds[i], false, 0))
  }

  ghost function AllLines(texts: seq<string>): seq<string> {
    if texts == [] then [] else AllLines(texts[..|texts| - 1]) + Lines(texts[|texts| - 1])
  }

  /** The lines of several texts are those of the first ones and then those of the rest. */
  lemma {:induction false} AllLinesAppend(a: seq<string>, b: seq<string>)
    ensures AllLines(a + b) == AllLines(a) + AllLines(b)
    ensures |a| == 1 ==> AllLines(a) == Lines(a[0])
    decreases |b|
  {
    hide Lines;
    if b == [] {
      assert a + b == a;
    } else {
      AllLinesAppend(a, b[..|b| - 1]);
      assert (a + b)[..|a + b| - 1] == a + b[..|b| - 1];
    }
  }

  /** The lines have gone through the filters fs, which are as in `now`, to the client. */
  ghost predicate Printed(fs: seq<Stage>, lines: seq<string>, now: seq<Stage>, sent: seq<Item>, client: seq<Item>) {
    now == Stream(fs, lines).fs && client == sent + Texts(Stream(fs, lines).out)
  }

  lemma PrintedNothing(fs: seq<Stage>, sent: seq<Item>)
    ensures Printed(fs, [], fs, sent, sent)
  {
  }

  lemma TextsAppend(sent: seq<Item>, a: seq<string>, b: seq<string>)
    ensures sent + Texts(a) + Texts(b) == sent + Texts(a + b)
  {
  }

  lemma PrintedStep(fs: seq<Stage>, lines: seq<string>, now: seq<Stage>, sent: seq<Item>, client: seq<Item>,
                    more: seq<string>)
    requires Printed(fs, lines, now, sent, client)
    ensures var r := Stream(now, more); Printed(fs, lines + more, r.fs, sent, client + Texts(r.out))
  {
    hide Stream, Feed, Texts;
    StreamAppend(fs, lines, more);
    TextsAppend(sent, Stream(fs, lines).out, Stream(now, more).out);
  }

  class Printer {
    var filters: seq<Filter>
    var client: seq<Item>

    ghost predicate Valid()
      reads this
    {
      forall i, j | 0 <= i < j < |filters| :: filters[i] != filters[j]
    }

    constructor ()
      ensures Valid() && filters == [] && client == []
    {
      filters, client := [], [];
    }

    /** A filter that has been set up goes to the end of the chain. */
    method Add(kind: Kind)
      requires Valid()
      modifies this
      ensures Valid() && client == old(client)
      ensures Views(filters) == old(Views(filters)) + [Stage(kind, false, 0)]
    {
      var f := new Filter(kind);
      filters := filters + [f];
    }

    /** One filter gets a line; the others keep their state. */
    method Ask(i: nat, line: string) returns (ok: bool)
      requires Valid() && i < |filters|
      modifies filters[i]
      ensures Views(filters) == old(Views(filters))[i := Next(old(Views(filters)[i]), line)]
      ensures ok == Passes(old(Views(filters)[i]), line)
    {
      hide Next, Passes, Views;
      ghost var was := Views(filters);
      forall j | 0 <= j < |filters| ensures was[j] == filters[j].View() {
        ViewsAt(filters, j);
      }
      ok := filters[i].Line(line);
      forall j | 0 <= j < |filters| ensures Views(filters)[j] == if j == i then Next(was[i], line) else was[j] {
        ViewsAt(filters, j);
      }
      assert Views(filters) == was[i := Next(was[i], line)];
    }

    /** A line through the chain, as far as it gets. */
    method Offer(line: string) returns (shown: bool)
      requires Valid()
      modifies filters
      ensures Feed(old(Views(filters)), line) == Sent(Views(filters), if shown then [line] else [])
    {
      hide Feed, Next, Passes, Halfway, Views, Valid;
      ghost var was := Views(filters);
      HalfwayStart(was, line);
      shown := true;
      var i := 0;
      while shown && i < |filters|
        invariant 0 <= i <= |filters| == |was| && Halfway(was, Views(filters), i, shown, line)
      {
        HalfwayStep(was, Views(filters), i, line);
        shown := Ask(i, line);
        i := i + 1;
      }
      HalfwayEnd(was, Views(filters), i, shown, line);
    }

    /** strchr(p, '\n') */
    static method LineEnd(text: string, p: nat) returns (next: nat)
      requires p <= |text|
      ensures p <= next <= |text| && '\n' !in text[p..next] && (next < |text| ==> text[next] == '\n')
    {
      next := p;
      while next < |text| && text[next] != '\n'
        invariant p <= next <= |text| && '\n' !in text[p..next]
      {
        next := next + 1;
      }
    }

    /** _print without buffering: error messages are not filtered. */
    method Print(text: string, filtered: bool)
      requires Valid()
      modifies this`client, filters
      ensures Valid()
      ensures var fs := old(Views(filters));
        var r := if filtered then Stream(fs, Lines(text)) else Sent(fs, Lines(text));
        Views(filters) == r.fs && client == old(client) + Texts(r.out)
    {
      hide Stream, Feed, Lines, ToPrint, Texts, Passes, Next, Views;
      ghost var was, sent := Views(filters), client;
      ghost var done: seq<string> := [];
      ghost var all := ToPrint(was, filtered, text, 0, true);
      PrintBegins(was, filtered, text, sent);
      var p := 0;
      var more := true;
      while more
        invariant 0 <= p <= |text| && client == sent + Texts(done) && Valid()
        invariant Remaining(all, done, ToPrint(Views(filters), filtered, text, p, more))
        decreases more, |text| - p
      {
        var next := LineEnd(text, p);
        ghost var fs := Views(filters);
        PrintStep(fs, filtered, text, p, next);
        var shown := true;
        if filtered {
          shown := Offer(text[p..next]);
        }
        ghost var a := Sent(Views(filters), if shown then [text[p..next]] else []);
        assert a == if filtered then Feed(fs, text[p..next]) else Sent(fs, [text[p..next]]);
        RemainingStep(all, done, a,
                      ToPrint(a.fs, filtered, text, if next < |text| then next + 1 else p, next < |text|));
        if shown {
          client := client + [Text(text[p..next])];
          TextsSnoc(sent, done, text[p..next]);
          done := done + [text[p..next]];
        }
        assert Views(filters) == a.fs;
        more := next < |text|;
        if more {
          p := next + 1;
        }
      }
      PrintEnds(all, done, Views(filters), filtered, text, p);
    }

    /** The clean-up call to every filter, first to last. */
    method CleanUp()
      modifies this
      ensures Valid() && filters == [] && client == old(client) + Numbers(old(Views(filters)))
    {
      ghost var want := client + Numbers(Views(filters));
      while filters != []
        invariant client + Numbers(Views(filters)) == want
        decreases |filters|
      {
        var f := filters[0];
        NumbersStep(client, Views(filters));
        ViewsAt(filters, 0);
        ViewsTail(filters);
        if f.kind.Count? {
          client := client + [Number(f.count)];
        }
        filters := filters[1..];
      }
    }

    /** The filters of a line, in order. */
    method SetUp(kinds: seq<Kind>)
      requires Valid() && filters == []
      modifies this
      ensures Valid() && client == old(client) && Views(filters) == Fresh(kinds)
    {
      var i := 0;
      while i < |kinds|
        invariant 0 <= i <= |kinds| && Valid() && client == old(client)
        invariant Views(filters) == Fresh(kinds[..i])
      {
        Add(kinds[i]);
        assert Fresh(kinds[..i + 1]) == Fresh(kinds[..i]) + [Stage(kinds[i], false, 0)];
        i := i + 1;
      }
      assert kinds[..i] == kinds;
    }

    /** The callback prints its texts through the filters, and the chain is cleaned up: the
        client receives what the filters, one after the other, make of the whole output, and
        then the counts. */
    method RunFiltered(texts: seq<string>)
      requires Valid()
      modifies this, filters
      ensures Valid() && filters == []
      ensures var r := Compose(old(Views(filters)), AllLines(texts));
        client == old(client) + Texts(r.out) + Numbers(r.fs)
    {
      hide Stream, Compose, Lines, Valid, Views, Numbers, Texts;
      ghost var fs, sent := Views(filters), client;
      var i := 0;
      PrintedNothing(fs, sent);
      while i < |texts|
        invariant 0 <= i <= |texts| && Valid() && filters == old(filters)
        invariant Printed(fs, AllLines(texts[..i]), Views(filters), sent, client)
      {
        PrintedStep(fs, AllLines(texts[..i]), Views(filters), sent, client, Lines(texts[i]));
        Print(texts[i], true);
        assert texts[..i + 1][..i] == texts[..i];
        i := i + 1;
      }
      assert texts[..i] == texts;
      StreamIsCompose(fs, AllLines(texts));
      CleanUp();
    }
  }
}
