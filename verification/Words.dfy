/**
 Splitting a command line into words and joining words again (`cli_parse_line` and
 `join_words` of src/cli/base_cli_lib.c).

 `Lex` reads a line by the grammar the pointer-stepping loop implements; `ParseLine` is that
 loop and is proved to compute `Parse`.  A line is a string without its terminating NUL.
 */
module Words {

  predicate IsSpace(c: char) {
    c == ' ' || c == '\t' || c == '\n' || c == '\r' || c == '\U{0B}' || c == '\U{0C}'
  }

  predicate IsQuote(c: char) {
    c == '"' || c == '\''
  }

  /** The characters that end an unquoted word or begin something else. */
  predicate Special(c: char) {
    IsSpace(c) || IsQuote(c) || c == '|'
  }

  // ---------------------------------------------------------------------------------------
  // The grammar
  // ---------------------------------------------------------------------------------------

  /** The length of the longest prefix without a special character. */
  function PlainLength(s: string): (k: nat)
    ensures k <= |s| && (k < |s| ==> Special(s[k]))
    ensures forall i | 0 <= i < k :: !Special(s[i])
  {
    if s == [] || Special(s[0]) then 0 else 1 + PlainLength(s[1..])
  }

  /** The length of the longest prefix without a quote. */
  function UnquotedLength(s: string): (k: nat)
    ensures k <= |s| && (k < |s| ==> IsQuote(s[k]))
    ensures forall i | 0 <= i < k :: !IsQuote(s[i])
  {
    if s == [] || IsQuote(s[0]) then 0 else 1 + UnquotedLength(s[1..])
  }

  function SkipSpaces(s: string): (r: string)
    ensures |r| <= |s| && (r != [] ==> !IsSpace(r[0]))
  {
    if s != [] && IsSpace(s[0]) then SkipSpaces(s[1..]) else s
  }

  /** Exactly the spaces in front are skipped. */
  lemma {:induction false} SkipsSpaces(s: string, n: nat)
    requires n <= |s| && (forall i | 0 <= i < n :: IsSpace(s[i])) && (n < |s| ==> !IsSpace(s[n]))
    ensures SkipSpaces(s) == s[n..]
  {
    if n > 0 {
      SkipsSpaces(s[1..], n - 1);
    }
  }

  /** The spaces of the C locale, by their codes. */
  lemma SpaceCodes(c: char)
    ensures IsSpace(c) <==> c as int == 32 || 9 <= c as int <= 13
  {
  }

  /** No word has begun. */
  ghost function Between(s: string): seq<string>
    decreases 2 * |s| + 1
  {
    if s == [] then []
    else if IsSpace(s[0]) then Between(s[1..])
    else if s[0] == '|' then ["|"] + Between(s[1..])
    else if IsQuote(s[0]) then Quoted(s[1..], s[0])
    else Word(s)
  }

  /** A word has begun at the start of s.  A quote inside it makes the loop forget the word so
      far and begin again behind the quote. */
  ghost function Word(s: string): seq<string>
    decreases 2 * |s| + if s != [] && Special(s[0]) then 2 else 0
  {
    var k := PlainLength(s);
    if k == |s| then [s]
    else if IsQuote(s[k]) then Quoted(s[k + 1..], s[k])
    else [s[..k]] + Between(s[k..])
  }

  /** Behind an opening quote q: everything up to the closing one is one word.  The other kind
      of quote inside it makes the loop begin again behind that. */
  ghost function Quoted(s: string, q: char): seq<string>
    decreases 2 * |s| + 2
  {
    var k := UnquotedLength(s);
    if k == |s| then [s]
    else if s[k] == q then [s[..k]] + Between(s[k + 1..])
    else Quoted(s[k + 1..], s[k])
  }

  /** All the words of a line. */
  ghost function Lex(line: string): seq<string> {
    var s := SkipSpaces(line);
    if s == [] then [] else Word(s)
  }

  ghost function Take<T>(s: seq<T>, n: nat): seq<T> {
    if n <= |s| then s[..n] else s
  }

  /** How many words an array of that many pointers may receive. */
  function Room(maxWords: int): nat {
    if maxWords >= 1 then maxWords - 1 else 0
  }

  ghost function Parse(line: string, maxWords: int): seq<string> {
    Take(Lex(line), Room(maxWords))
  }

  // ---------------------------------------------------------------------------------------
  // The loop
  // ---------------------------------------------------------------------------------------

  /** The words still to come when the loop stands at p: `start` is where the current word
      began, or -1, and `quote` the quote it is in, or NUL. */
  ghost function Rest(line: string, p: nat, start: int, quote: char): seq<string>
    requires p <= |line| && -1 <= start <= p
  {
    if start < 0 then Between(line[p..])
    else if quote != '\0' then Quoted(line[start..], quote)
    else Word(line[start..])
  }

  /** Between the start of the current word and p there is nothing that would end it. */
  ghost predicate Clean(line: string, p: nat, start: int, quote: char)
    requires p <= |line| && -1 <= start <= p
  {
    && (start < 0 ==> quote == '\0')
    && (start >= 0 ==> forall i | start <= i < p ::
          if quote != '\0' then !IsQuote(line[i]) else !Special(line[i]))
    && (quote != '\0' ==> IsQuote(quote))
  }

  lemma UnquotedAfter(s: string, k: nat)
    requires k <= |s| && (forall i | 0 <= i < k :: !IsQuote(s[i])) && (k < |s| ==> IsQuote(s[k]))
    ensures UnquotedLength(s) == k
  {
  }

  lemma PlainAfter(s: string, k: nat)
    requires k <= |s| && (forall i | 0 <= i < k :: !Special(s[i])) && (k < |s| ==> Special(s[k]))
    ensures PlainLength(s) == k
  {
  }

  /** The words to come when the current one ends at p. */
  ghost function RestAfter(line: string, p: nat, quote: char): seq<string>
    requires p <= |line|
  {
    if p == |line| then [] else Rest(line, if quote != '\0' then p + 1 else p, -1, '\0')
  }

  lemma QuotedEnds(s: string, q: char, k: nat)
    requires k <= |s| && (forall i | 0 <= i < k :: !IsQuote(s[i])) && (k < |s| ==> s[k] == q && IsQuote(q))
    ensures Quoted(s, q) == [s[..k]] + if k < |s| then Between(s[k + 1..]) else []
  {
    hide Between, UnquotedLength;
    UnquotedAfter(s, k);
    assert s[..|s|] == s;
  }

  lemma WordStops(s: string, k: nat)
    requires k <= |s| && (forall i | 0 <= i < k :: !Special(s[i])) && (k < |s| ==> Special(s[k]) && !IsQuote(s[k]))
    ensures Word(s) == [s[..k]] + if k < |s| then Between(s[k..]) else []
  {
    hide Between, PlainLength;
    PlainAfter(s, k);
    assert s[..|s|] == s;
  }

  /** What the loop does when the word from `start` ends at p. */
  lemma WordEnds(line: string, p: nat, start: nat, quote: char)
    requires start <= p <= |line| && Clean(line, p, start, quote)
    requires p == |line| || (line[p] == quote && quote != '\0')
          || (quote == '\0' && (IsSpace(line[p]) || line[p] == '|'))
    ensures Rest(line, p, start, quote) == [line[start..p]] + RestAfter(line, p, quote)
  {
    hide Between, Word, Quoted;
    var s, k := line[start..], p - start;
    assert s[..k] == line[start..p] && s[k..] == line[p..];
    assert p < |line| ==> s[k + 1..] == line[p + 1..];
    if quote != '\0' {
      QuotedEnds(s, quote, k);
    } else {
      WordStops(s, k);
    }
  }

  lemma QuoteOpens(line: string, p: nat, start: int, quote: char)
    requires p < |line| && -1 <= start <= p && Clean(line, p, start, quote)
    requires IsQuote(line[p]) && line[p] != quote
    ensures Rest(line, p, start, quote) == Rest(line, p + 1, p + 1, line[p])
  {
    hide Between, PlainLength, UnquotedLength;
    if start >= 0 {
      var s, k := line[start..], p - start;
      assert s[k] == line[p] && s[k + 1..] == line[p + 1..];
      if quote != '\0' {
        UnquotedAfter(s, k);
      } else {
        PlainAfter(s, k);
      }
    } else {
      assert line[p..][1..] == line[p + 1..];
      BetweenQuote(line[p..]);
    }
  }

  lemma BetweenQuote(s: string)
    requires s != [] && IsQuote(s[0])
    ensures Between(s) == Quoted(s[1..], s[0])
  {
  }

  /** Between words, a space or a bar is read, or a word begins. */
  lemma BetweenStep(line: string, p: nat)
    requires p < |line| && !IsQuote(line[p])
    ensures Rest(line, p, -1, '\0') ==
      if line[p] == '|' then ["|"] + Rest(line, p + 1, -1, '\0')
      else if IsSpace(line[p]) then Rest(line, p + 1, -1, '\0')
      else Rest(line, p + 1, p, '\0')
  {
  }

  /** Inside a word, reading on changes nothing. */
  lemma RestStays(line: string, p: nat, start: nat, quote: char)
    requires start <= p < |line|
    ensures Rest(line, p + 1, start, quote) == Rest(line, p, start, quote)
  {
  }

  lemma LexStart(line: string, p: nat)
    requires p <= |line| && SkipSpaces(line) == line[p..]
    ensures p < |line| ==> Lex(line) == Rest(line, p, p, '\0')
    ensures p == |line| ==> Lex(line) == Rest(line, p, -1, '\0')
  {
  }

  /** The first character that is not a space, or the end. */
  method SkipTo(line: string) returns (p: nat)
    ensures p <= |line| && SkipSpaces(line) == line[p..]
  {
    p := 0;
    while p < |line| && IsSpace(line[p])
      invariant p <= |line| && SkipSpaces(line) == SkipSpaces(line[p..])
    {
      assert line[p..][1..] == line[p + 1..];
      p := p + 1;
    }
  }

  /** cli_parse_line: the words of a line, as many as there is room for. */
  method ParseLine(line: string, maxWords: int) returns (words: seq<string>)
    requires '\0' !in line
    ensures words == Parse(line, maxWords)
  {
    hide SkipSpaces, Lex, Rest, IsSpace;
    words := [];
    var quote := '\0';
    var p: nat := SkipTo(line);
    var start: int := if p < |line| then p else -1;
    LexStart(line, p);
    while |words| < maxWords - 1
      invariant p <= |line| && -1 <= start <= p && Clean(line, p, start, quote)
      invariant Lex(line) == words + Rest(line, p, start, quote)
      invariant |words| <= Room(maxWords)
      decreases |line| - p, start + 1
    {
      if p == |line| || line[p] == quote || (start >= 0 && quote == '\0' && (IsSpace(line[p]) || line[p] == '|')) {
        if start >= 0 {
          WordEnds(line, p, start, quote);
          Regroup(words, line[start..p], RestAfter(line, p, quote));
          words := words + [line[start..p]];
        }
        if p == |line| {
          LineEnds(line);
          return;
        }
        if quote != '\0' {
          p := p + 1;
        }
        quote := '\0';
        start := -1;
      } else if line[p] == '"' || line[p] == '\'' {
        QuoteOpens(line, p, start, quote);
        quote := line[p];
        p := p + 1;
        start := p;
      } else {
        if start >= 0 {
          RestStays(line, p, start, quote);
        }
        if start < 0 {
          BetweenStep(line, p);
          if line[p] == '|' {
            Regroup(words, "|", Rest(line, p + 1, -1, '\0'));
            words := words + ["|"];
          } else if !IsSpace(line[p]) {
            start := p;
          }
        }
        p := p + 1;
      }
    }
  }

  lemma Regroup<T>(ws: seq<T>, w: T, rest: seq<T>)
    ensures ws + ([w] + rest) == ws + [w] + rest
    ensures ws + ([w] + []) == ws + [w]
  {
  }

  lemma LineEnds(line: string)
    ensures Rest(line, |line|, -1, '\0') == []
  {
  }

  // ---------------------------------------------------------------------------------------
  // Joining
  // ---------------------------------------------------------------------------------------

  ghost function Join(ws: seq<string>): string {
    if ws == [] then "" else ws[0] + JoinTail(ws[1..])
  }

  /** The words, each behind a space. */
  ghost function JoinTail(ws: seq<string>): string {
    if ws == [] then "" else " " + ws[0] + JoinTail(ws[1..])
  }

  lemma {:induction false} JoinTailSnoc(ws: seq<string>, w: string)
    ensures JoinTail(ws + [w]) == JoinTail(ws) + " " + w
  {
    if ws == [] {
      assert ws + [w] == [w] && [w][1..] == [];
    } else {
      assert (ws + [w])[1..] == ws[1..] + [w];
      JoinTailSnoc(ws[1..], w);
    }
  }

  lemma JoinNothing()
    ensures Join([]) == ""
  {
  }

  lemma JoinSnoc(ws: seq<string>, w: string)
    ensures Join(ws + [w]) == if ws == [] then w else Join(ws) + " " + w
  {
    if ws == [] {
      assert ([] + [w])[1..] == [] && w + "" == w;
    } else {
      hide JoinTail;
      assert (ws + [w])[1..] == ws[1..] + [w];
      JoinTailSnoc(ws[1..], w);
    }
  }

  /** join_words */
  method JoinWords(argv: seq<string>) returns (p: string)
    ensures p == Join(argv)
  {
    hide Join;
    p := "";
    JoinNothing();
    var i := 0;
    while i < |argv|
      invariant 0 <= i <= |argv| && p == Join(argv[..i])
    {
      if i > 0 {
        p := p + " ";
      }
      p := p + argv[i];
      JoinSnoc(argv[..i], argv[i]);
      assert argv[..i + 1] == argv[..i] + [argv[i]];
      i := i + 1;
    }
    assert argv[..i] == argv;
  }

  // ---------------------------------------------------------------------------------------
  // Splitting undoes joining
  // ---------------------------------------------------------------------------------------

  predicate QuoteFree(s: string) {
    forall i | 0 <= i < |s| :: !IsQuote(s[i])
  }

  predicate Plain(w: string) {
    w != "" && forall i | 0 <= i < |w| :: !Special(w[i])
  }

  predicate Token(w: string) {
    w == "|" || Plain(w)
  }

  ghost predicate AllTokens(ws: seq<string>) {
    ws != [] ==> Token(ws[0]) && AllTokens(ws[1..])
  }

  /** What splitting a line without quotes can give: plain words and lone bars.  A line that
      begins with a bar gives an empty word before it. */
  ghost predicate Splittable(ws: seq<string>) {
    || (AllTokens(ws) && (ws != [] ==> ws[0] != "|"))
    || (|ws| >= 2 && ws[0] == "" && ws[1] == "|" && AllTokens(ws[1..]))
  }

  lemma WordOfPlain(w: string, t: string)
    requires forall i | 0 <= i < |w| :: !Special(w[i])
    requires t == [] || (Special(t[0]) && !IsQuote(t[0]))
    ensures Word(w + t) == [w] + Between(t)
  {
    var s := w + t;
    PlainAfter(s, |w|);
    assert s[..|w|] == w && s[|w|..] == t;
    assert t == [] ==> s == w && [w] + Between(t) == [w];
  }

  lemma BetweenSpace(s: string)
    ensures Between(" " + s) == Between(s)
  {
  }

  lemma BetweenToken(w: string, t: string)
    requires Token(w) && (t == [] || (Special(t[0]) && !IsQuote(t[0])))
    ensures Between(w + t) == [w] + Between(t)
  {
    if w == "|" {
      assert (w + t)[1..] == t;
    } else {
      WordOfPlain(w, t);
    }
  }

  /** Reading the joined words back, from between two words. */
  lemma {:induction false} BetweenJoinTail(ws: seq<string>)
    requires AllTokens(ws)
    ensures Between(JoinTail(ws)) == ws
  {
    if ws != [] {
      var w, t := ws[0], JoinTail(ws[1..]);
      BetweenJoinTail(ws[1..]);
      BetweenSpace(w + t);
      BetweenToken(w, t);
      assert JoinTail(ws) == " " + (w + t) && ws == [w] + ws[1..];
    }
  }

  lemma LexJoin(ws: seq<string>)
    requires Splittable(ws)
    ensures Lex(Join(ws)) == ws
  {
    if ws != [] {
      var w, t := ws[0], JoinTail(ws[1..]);
      if w == "" {
        var u := "|" + JoinTail(ws[2..]);
        assert ws[1..][0] == "|" && ws[1..][1..] == ws[2..];
        assert t == " " + u && SkipSpaces(t) == u by {
          assert t[1..] == u;
        }
        WordOfPlain("", u);
        BetweenJoinTail(ws[1..]);
        assert Between(t) == Between(u);
        assert "" + t == t && "" + u == u;
      } else {
        BetweenJoinTail(ws[1..]);
        WordOfPlain(w, t);
      }
      assert ws == [w] + ws[1..];
    }
  }

  lemma {:induction false} BetweenTokens(s: string)
    requires QuoteFree(s)
    ensures AllTokens(Between(s))
    decreases |s|
  {
    if s != [] {
      if Special(s[0]) {
        BetweenTokens(s[1..]);
      } else {
        WordTokens(s);
      }
    }
  }

  lemma {:induction false} WordTokens(s: string)
    requires QuoteFree(s) && s != [] && !Special(s[0])
    ensures AllTokens(Word(s)) && Word(s) != [] && Word(s)[0] != "|"
    decreases |s|, 0
  {
    var k := PlainLength(s);
    assert k > 0;
    if k < |s| {
      BetweenTokens(s[k..]);
      assert ([s[..k]] + Between(s[k..]))[1..] == Between(s[k..]);
    }
  }

  lemma {:induction false} SkipSpacesQuoteFree(s: string)
    requires QuoteFree(s)
    ensures QuoteFree(SkipSpaces(s))
  {
    if s != [] && IsSpace(s[0]) {
      SkipSpacesQuoteFree(s[1..]);
    }
  }

  /** Does the first word of the line begin with a bar? */
  ghost predicate BarFirst(line: string) {
    var s := SkipSpaces(line);
    s != [] && s[0] == '|'
  }

  lemma LexSplittable(line: string)
    requires QuoteFree(line)
    ensures Splittable(Lex(line))
    ensures BarFirst(line) <==> Lex(line) != [] && Lex(line)[0] == ""
  {
    var s := SkipSpaces(line);
    SkipSpacesQuoteFree(line);
    if s != [] {
      if s[0] == '|' {
        WordOfPlain("", s);
        assert "" + s == s;
        BetweenTokens(s[1..]);
        assert (["|"] + Between(s[1..]))[1..] == Between(s[1..]);
        var ws := [""] + Between(s);
        assert ws[1..] == Between(s);
      } else {
        WordTokens(s);
      }
    }
  }

  lemma {:induction false} JoinQuoteFree(ws: seq<string>)
    requires forall i | 0 <= i < |ws| :: QuoteFree(ws[i])
    ensures QuoteFree(JoinTail(ws)) && QuoteFree(Join(ws))
  {
    if ws != [] {
      assert forall i | 0 <= i < |ws[1..]| :: ws[1..][i] == ws[i + 1];
      JoinQuoteFree(ws[1..]);
    }
  }

  /** Splitting the joined words gives the words back exactly when they could have come from
      splitting a line. */
  lemma SplitUndoesJoin(ws: seq<string>, maxWords: int)
    requires forall i | 0 <= i < |ws| :: QuoteFree(ws[i])
    requires |ws| <= Room(maxWords)
    ensures Parse(Join(ws), maxWords) == ws <==> Splittable(ws)
  {
    if Splittable(ws) {
      LexJoin(ws);
    } else if Parse(Join(ws), maxWords) == ws {
      JoinQuoteFree(ws);
      LexSplittable(Join(ws));
      TakeSplittable(Lex(Join(ws)), Room(maxWords));
    }
  }

  lemma {:induction false} AllTokensTake(ws: seq<string>, n: nat)
    requires AllTokens(ws) && n <= |ws|
    ensures AllTokens(ws[..n])
  {
    if n > 0 {
      AllTokensTake(ws[1..], n - 1);
      assert ws[..n][1..] == ws[1..][..n - 1];
    }
  }

  lemma TakeSplittable(ws: seq<string>, n: nat)
    requires Splittable(ws)
    ensures Splittable(Take(ws, n)) <==> !(n == 1 && ws != [] && ws[0] == "")
    ensures n == 1 && ws != [] && ws[0] == "" ==> Take(ws, n) == [""]
  {
    if n <= |ws| {
      if ws != [] && ws[0] == "" {
        if n >= 2 {
          AllTokensTake(ws[1..], n - 1);
          assert ws[..n][1..] == ws[1..][..n - 1];
        }
      } else {
        AllTokensTake(ws, n);
      }
    }
  }

  /** Splitting what joining the words of a quote-free line gives is the same as splitting the
      line, except when the line begins with a bar and there is room for one word only. */
  lemma SplitJoinSplit(line: string, maxWords: int)
    requires QuoteFree(line)
    ensures Parse(Join(Parse(line, maxWords)), maxWords) == Parse(line, maxWords)
       <==> !(BarFirst(line) && maxWords == 2)
  {
    var n := Room(maxWords);
    var ws := Parse(line, maxWords);
    LexSplittable(line);
    TakeSplittable(Lex(line), n);
    if Splittable(ws) {
      LexJoin(ws);
    } else {
      assert ws[1..] == [];
      assert Join(ws) == "";
    }
  }

  // ---------------------------------------------------------------------------------------
  // Nothing is lost
  // ---------------------------------------------------------------------------------------

  /** The line without its spaces. */
  ghost function Solid(s: string): string {
    if s == "" then "" else (if IsSpace(s[0]) then "" else [s[0]]) + Solid(s[1..])
  }

  ghost function Flat(ws: seq<string>): string {
    if ws == [] then "" else ws[0] + Flat(ws[1..])
  }

  lemma {:induction false} SolidPlain(w: string, t: string)
    requires forall i | 0 <= i < |w| :: !Special(w[i])
    ensures Solid(w + t) == w + Solid(t)
  {
    if w == "" {
      assert w + t == t;
    } else {
      assert (w + t)[1..] == w[1..] + t;
      SolidPlain(w[1..], t);
    }
  }

  lemma FlatCons(w: string, ws: seq<string>)
    ensures Flat([w] + ws) == w + Flat(ws) && Flat([w]) == w
  {
    assert ([w] + ws)[1..] == ws;
  }

  lemma {:induction false} BetweenKeeps(s: string)
    requires QuoteFree(s)
    ensures Flat(Between(s)) == Solid(s)
    decreases 2 * |s| + 1
  {
    hide Word, Flat;
    if s == "" {
      NothingFlat();
    } else if Special(s[0]) {
      BetweenKeeps(s[1..]);
      FlatCons("|", Between(s[1..]));
    } else {
      WordKeeps(s);
    }
  }

  lemma NothingFlat()
    ensures Flat([]) == ""
  {
  }

  lemma {:induction false} WordKeeps(s: string)
    requires QuoteFree(s)
    ensures Flat(Word(s)) == Solid(s)
    decreases 2 * |s| + if s != [] && Special(s[0]) then 2 else 0
  {
    hide Between, Flat, Solid;
    var k := PlainLength(s);
    assert s == s[..k] + s[k..];
    SolidPlain(s[..k], s[k..]);
    FlatCons(s[..k], Between(s[k..]));
    if k < |s| {
      BetweenKeeps(s[k..]);
    } else {
      assert s[..k] == s;
      SolidNothing();
    }
  }

  lemma SolidNothing()
    ensures Solid("") == ""
  {
  }

  lemma {:induction false} SkippingKeeps(s: string)
    ensures Solid(SkipSpaces(s)) == Solid(s)
  {
    if s != "" && IsSpace(s[0]) {
      SkippingKeeps(s[1..]);
    }
  }

  /** Splitting a line without quotes loses nothing but spaces, and changes no order: one after
      the other the words are the line without them. */
  lemma LexKeeps(line: string)
    requires QuoteFree(line)
    ensures Flat(Lex(line)) == Solid(line)
  {
    hide Flat, Solid, Word;
    SkipSpacesQuoteFree(line);
    SkippingKeeps(line);
    NothingFlat();
    SolidNothing();
    WordKeeps(SkipSpaces(line));
  }

  /** The room is for one word less than there are pointers; the first words get it. */
  lemma ParseRoom(line: string, maxWords: int)
    ensures Parse(line, maxWords) <= Lex(line)
    ensures maxWords >= 1 ==> |Parse(line, maxWords)| < maxWords
    ensures |Lex(line)| < maxWords ==> Parse(line, maxWords) == Lex(line)
    ensures |Lex(line)| >= maxWords >= 1 ==> |Parse(line, maxWords)| == maxWords - 1
    ensures maxWords < 1 ==> Parse(line, maxWords) == []
  {
    hide Lex;
  }

  // ---------------------------------------------------------------------------------------
  // Quotes
  // ---------------------------------------------------------------------------------------

  /** The words, each in quotes. */
  ghost function Wrapped(ws: seq<string>, q: char): seq<string> {
    if ws == [] then [] else [[q] + ws[0] + [q]] + Wrapped(ws[1..], q)
  }

  lemma QuotedWord(w: string, q: char, rest: string)
    requires QuoteFree(w) && IsQuote(q)
    ensures Quoted(w + [q] + rest, q) == [w] + Between(rest)
  {
    var s, k := w + [q] + rest, |w|;
    assert s[..k] == w && s[k] == q && s[k + 1..] == rest;
    QuotedEnds(s, q, k);
  }

  lemma BetweenOpens(q: char, s: string)
    requires IsQuote(q)
    ensures Between(" " + ([q] + s)) == Quoted(s, q)
  {
    hide Quoted;
    BetweenSpace([q] + s);
    BetweenQuote([q] + s);
    assert ([q] + s)[1..] == s;
  }

  lemma LexOpens(q: char, s: string)
    requires IsQuote(q)
    ensures Lex([q] + s) == Quoted(s, q)
  {
    hide Quoted;
    PlainAfter([q] + s, 0);
    assert ([q] + s)[1..] == s;
  }

  lemma WrappedCons(ws: seq<string>, q: char)
    requires ws != []
    ensures var s := ws[0] + [q] + JoinTail(Wrapped(ws[1..], q));
      JoinTail(Wrapped(ws, q)) == " " + ([q] + s) && Join(Wrapped(ws, q)) == [q] + s
  {
    hide JoinTail;
    assert Wrapped(ws, q)[1..] == Wrapped(ws[1..], q);
    JoinTailCons([q] + ws[0] + [q], Wrapped(ws[1..], q));
    InQuotes(q, ws[0], JoinTail(Wrapped(ws[1..], q)));
  }

  lemma InQuotes(q: char, w: string, t: string)
    ensures [q] + w + [q] + t == [q] + (w + [q] + t)
    ensures " " + ([q] + w + [q]) + t == " " + ([q] + (w + [q] + t))
  {
  }

  lemma JoinTailCons(w: string, ws: seq<string>)
    ensures JoinTail([w] + ws) == " " + w + JoinTail(ws)
  {
    assert ([w] + ws)[1..] == ws;
  }

  lemma {:induction false} BetweenWrapped(ws: seq<string>, q: char)
    requires IsQuote(q) && forall i | 0 <= i < |ws| :: QuoteFree(ws[i])
    ensures Between(JoinTail(Wrapped(ws, q))) == ws
  {
    hide Quoted, QuoteFree, IsQuote, Wrapped, JoinTail, Between;
    if ws == [] {
      NothingWrapped(q);
    } else {
      var w, t := ws[0], JoinTail(Wrapped(ws[1..], q));
      BetweenWrapped(ws[1..], q);
      WrappedCons(ws, q);
      BetweenOpens(q, w + [q] + t);
      QuotedWord(w, q, t);
      assert ws == [w] + ws[1..];
    }
  }

  lemma NothingWrapped(q: char)
    ensures Between(JoinTail(Wrapped([], q))) == [] && Lex(Join(Wrapped([], q))) == []
  {
  }

  /** Words in quotes are read back as they are, whatever spaces and bars they hold, and empty
      ones too. */
  lemma QuotingKeepsWords(ws: seq<string>, q: char)
    requires IsQuote(q) && forall i | 0 <= i < |ws| :: QuoteFree(ws[i])
    ensures Lex(Join(Wrapped(ws, q))) == ws
  {
    hide Quoted, QuoteFree, IsQuote, Lex, Wrapped, JoinTail, Join, Between;
    if ws == [] {
      NothingWrapped(q);
    } else {
      var w, t := ws[0], JoinTail(Wrapped(ws[1..], q));
      WrappedCons(ws, q);
      LexOpens(q, w + [q] + t);
      QuotedWord(w, q, t);
      BetweenWrapped(ws[1..], q);
      assert ws == [w] + ws[1..];
    }
  }

  /** A quote right behind a word makes the loop forget the word. */
  lemma QuoteForgetsWord(w: string, q: char, rest: string)
    requires IsQuote(q) && Plain(w)
    ensures Lex(w + ([q] + rest)) == Lex([q] + rest)
  {
    hide Between, Quoted, PlainLength;
    LexOpens(q, rest);
    var s := w + ([q] + rest);
    PlainAfter(s, |w|);
    assert s[0] == w[0] && s[|w|] == q && s[|w| + 1..] == rest;
  }

  /** A quote of the other kind makes it forget everything since the opening quote. */
  lemma QuoteForgetsQuoted(w: string, q: char, other: char, rest: string)
    requires IsQuote(q) && IsQuote(other) && q != other && QuoteFree(w)
    ensures Lex([q] + (w + ([other] + rest))) == Lex([other] + rest)
  {
    hide Between, Lex, UnquotedLength;
    LexOpens(other, rest);
    var s := w + ([other] + rest);
    LexOpens(q, s);
    UnquotedAfter(s, |w|);
    assert s[|w|] == other && s[|w| + 1..] == rest;
  }
}
