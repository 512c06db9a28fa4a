/**
 Looking a command up (`cli_find_command` and `cli_run_command` of src/cli/base_cli_lib.c).

 Callbacks are entries in a log with a given answer; setting up the filters behind a bar is
 given by its result.
 */
module Lookup {
  import opened Commands
  import opened Words
  import opened Wrappers

  datatype Rc = Ok | Error | ErrorArg | Quit | Other(code: int)

  /** A change of mode or privilege. */
  datatype Change = Mode(mode: int) | Privilege(privilege: int)

  /** What a callback does as far as lookups are concerned: its result, and the changes it makes
      to the session, in order. */
  datatype Reply = Reply(rc: Rc, changes: seq<Change>)

  /** A callback made: for which command, with which arguments. */
  datatype Call = Call(id: nat, args: seq<string>)

  datatype State = State(mode: int, privilege: int, lens: map<nat, nat>, calls: seq<Call>)

  datatype Outcome = Outcome(rc: Rc, s: State)

  /** What does not change during a session. */
  datatype Shell = Shell(modeAny: int, modeConfig: int, commands: seq<Node>) {
    function EnvOf(s: State): Env {
      Env(s.mode, s.privilege, modeAny, modeConfig)
    }
  }

  /** What does not change during a lookup either: the words, how many of them belong to the
      command, the reply of every callback, and the code with which setting up the filters
      fails, if it does. */
  datatype Context = Context(shell: Shell, words: seq<string>, cWords: nat, setup: Option<Rc>, answer: nat -> Reply)

  /** A command registered since the lengths were computed has length 0. */
  function UniqueOf(lens: map<nat, nat>, c: Node): nat {
    if c.id in lens then lens[c.id] else 0
  }

  /** The word ends in a question mark.  (For an empty word the original looks before it.) */
  predicate IsHelp(w: string) {
    w != "" && w[|w| - 1] == '?'
  }

  predicate Candidate(c: Node, w: string, s: State) {
    s.privilege >= c.privilege && Matches(c.name, UniqueOf(s.lens, c), w)
  }

  // ---------------------------------------------------------------------------------------
  // The lookup
  // ---------------------------------------------------------------------------------------

  /** How the loop over the siblings ends: at a command that is taken at once, or with what it
      remembers (-1 for nothing) of the configuration mode and of any mode. */
  datatype Pick = Now(at: nat) | Later(config: int, any: int)

  ghost function Scan(x: Context, ns: seq<Node>, i: nat, w: string, s: State, config: int, any: int): (p: Pick)
    requires i <= |ns| && -1 <= config < |ns| && -1 <= any < |ns|
    ensures p.Now? ==> p.at < |ns|
    ensures p.Later? ==> -1 <= p.config < |ns| && -1 <= p.any < |ns|
    decreases |ns| - i
  {
    if i == |ns| then Later(config, any)
    else
      var c := ns[i];
      if !Candidate(c, w, s) then Scan(x, ns, i + 1, w, s, config, any)
      else if c.mode == s.mode || (c.mode == x.shell.modeAny && any >= 0) then Now(i)
      else if s.mode > x.shell.modeConfig && c.mode == x.shell.modeConfig then Scan(x, ns, i + 1, w, s, i, any)
      else if c.mode == x.shell.modeAny then Scan(x, ns, i + 1, w, s, config, i)
      else Scan(x, ns, i + 1, w, s, config, any)
  }

  /** The unique lengths are computed anew. */
  ghost function Rebuilt(sh: Shell, s: State): State {
    s.(lens := Built(s.lens, sh.commands, sh.commands, sh.EnvOf(s)))
  }

  /** cli_set_configmode */
  ghost function ToMode(sh: Shell, mode: int, s: State): State {
    if s.mode == mode then s else Rebuilt(sh, s.(mode := mode))
  }

  /** cli_set_privilege */
  ghost function ToPrivilege(sh: Shell, privilege: int, s: State): State {
    if s.privilege == privilege then s else Rebuilt(sh, s.(privilege := privilege))
  }

  ghost function ToConfig(sh: Shell, s: State): State {
    ToMode(sh, sh.modeConfig, s)
  }

  ghost function Changed(sh: Shell, c: Change, s: State): State {
    match c
    case Mode(mode) => ToMode(sh, mode, s)
    case Privilege(privilege) => ToPrivilege(sh, privilege, s)
  }

  ghost function ChangedAll(sh: Shell, cs: seq<Change>, s: State): (r: State)
    ensures r.calls == s.calls
  {
    if cs == [] then s else Changed(sh, cs[|cs| - 1], ChangedAll(sh, cs[..|cs| - 1], s))
  }

  /** The session after a callback. */
  ghost function Called(x: Context, call: Call, s: State): State {
    ChangedAll(x.shell, x.answer(call.id).changes, s.(calls := s.calls + [call]))
  }

  ghost function Run(x: Context, c: Node, k: nat, s: State): Outcome
    requires k < x.cWords <= |x.words|
  {
    match x.setup
    case Some(rc) => Outcome(rc, s)
    case None => Outcome(x.answer(c.id).rc, Called(x, Call(c.id, x.words[k + 1..x.cWords]), s))
  }

  ghost function Accept(x: Context, ns: seq<Node>, i: nat, k: nat, s: State): Outcome
    requires i < |ns| && k < x.cWords <= |x.words|
    decreases ns, 0
  {
    var c := ns[i];
    if c.children == [] || k == x.cWords - 1 then
      if c.callback then Run(x, c, k, s) else Outcome(Error, s)
    else
      var o := Find(x, c.children, k + 1, s);
      if o.rc == ErrorArg && c.callback then Run(x, c, k, o.s) else o
  }

  /** cli_find_command */
  ghost function Find(x: Context, ns: seq<Node>, k: nat, s: State): Outcome
    requires k < x.cWords <= |x.words|
    decreases ns, 1
  {
    if IsHelp(x.words[k]) then Outcome(Ok, s)
    else
      match Scan(x, ns, 0, x.words[k], s, -1, -1)
      case Now(i) => Accept(x, ns, i, k, s)
      case Later(config, any) =>
        if config >= 0 then Accept(x, ns, config, k, ToConfig(x.shell, s))
        else if any >= 0 then Accept(x, ns, any, k, s)
        else Outcome(ErrorArg, s)
  }

  // ---------------------------------------------------------------------------------------
  // A typed path reaches its command
  // ---------------------------------------------------------------------------------------

  /** Sibling names can be told apart. */
  ghost predicate Distinct(ns: seq<Node>) {
    && (forall i | 0 <= i < |ns| :: LowerCase(ns[i].name))
    && (forall i, j | 0 <= i < j < |ns| :: ns[i].name != ns[j].name && ns[i].id != ns[j].id)
  }

  /** w is the whole name, letter case aside. */
  predicate IsName(w: string, name: string) {
    |w| == |name| && Abbreviates(w, name)
  }

  /** w is long enough for ns[i] and is not the whole name of another one. */
  ghost predicate Picks(ns: seq<Node>, i: nat, w: string, env: Env)
    requires i < |ns|
  {
    && Abbreviates(w, ns[i].name) && (|w| >= UniqueLen(ns[i], ns, env) || |w| == |ns[i].name|)
    && w != "" && !IsHelp(w)
    && forall j | 0 <= j < |ns| :: IsName(w, ns[j].name) ==> j == i
  }

  /** The lookup goes no further than this command: there is no word behind it or no command
      below it, or the first word behind it is nobody's name among those below. */
  ghost predicate Ends(c: Node, args: seq<string>) {
    || args == [] || c.children == []
    || (!IsHelp(args[0]) && forall j | 0 <= j < |c.children| :: !Abbreviates(args[0], c.children[j].name))
  }

  /** What is reported of a command without a callback: that the line is incomplete, or that the
      word behind it is unknown. */
  function Complaint(c: Node, args: seq<string>): Rc {
    if args == [] || c.children == [] then Error else ErrorArg
  }

  /** The words ws lead down the path: at every level the next one picks a visible command, and
      at the end of the path the rest are arguments. */
  ghost predicate Leads(ns: seq<Node>, path: seq<nat>, ws: seq<string>, env: Env)
    decreases |path|
  {
    && path != [] && |ws| >= |path| && path[0] < |ns|
    && Distinct(ns) && Visible(ns[path[0]], env) && Picks(ns, path[0], ws[0], env)
    && (if |path| == 1 then Ends(ns[path[0]], ws[1..])
        else Leads(ns[path[0]].children, path[1..], ws[1..], env))
  }

  ghost function Target(ns: seq<Node>, path: seq<nat>, ws: seq<string>, env: Env): Node
    requires Leads(ns, path, ws, env)
    decreases |path|
  {
    if |path| == 1 then ns[path[0]] else Target(ns[path[0]].children, path[1..], ws[1..], env)
  }

  lemma {:induction false} ShortenedAt(lens: map<nat, nat>, ns: seq<Node>, all: seq<Node>, env: Env, i: nat)
    requires Shortened(lens, ns, all, env) && i < |ns|
    ensures UniqueOf(lens, ns[i]) == UniqueLen(ns[i], all, env)
    ensures Visible(ns[i], env) ==> Shortened(lens, ns[i].children, ns[i].children, env)
    decreases i
  {
    if i > 0 {
      ShortenedAt(lens, ns[1..], all, env, i - 1);
    }
  }

  /** Only ns[i] is a candidate for a word that picks it, whatever the other siblings' modes. */
  lemma OnlyCandidate(x: Context, ns: seq<Node>, i: nat, w: string, s: State, j: nat)
    requires i < |ns| && j < |ns| && Distinct(ns) && Visible(ns[i], x.shell.EnvOf(s))
    requires Picks(ns, i, w, x.shell.EnvOf(s)) && Shortened(s.lens, ns, ns, x.shell.EnvOf(s))
    ensures Candidate(ns[j], w, s) <==> j == i
  {
    var env := x.shell.EnvOf(s);
    ShortenedAt(s.lens, ns, ns, env, i);
    ShortenedAt(s.lens, ns, ns, env, j);
    MatchesMeans(ns[i].name, UniqueLen(ns[i], ns, env), w);
    MatchesMeans(ns[j].name, UniqueLen(ns[j], ns, env), w);
    if j != i {
      if Visible(ns[j], env) {
        AbbreviationsAreSound(ns[i], ns[j], ns, env, w);
      }
    }
  }

  /** What the scan remembers when only ns[i] is a candidate. */
  lemma {:induction false} ScanPicks(x: Context, ns: seq<Node>, i: nat, w: string, s: State, j: nat, any: int)
    requires i < |ns| && j <= |ns| && any == (if j <= i then -1 else i) && x.shell.modeAny != x.shell.modeConfig
    requires forall m | 0 <= m < |ns| :: Candidate(ns[m], w, s) <==> m == i
    requires Visible(ns[i], x.shell.EnvOf(s)) && (j > i ==> ns[i].mode != s.mode)
    ensures Scan(x, ns, j, w, s, -1, any) == if ns[i].mode == s.mode then Now(i) else Later(-1, i)
    decreases |ns| - j
  {
    if j < |ns| && !(j == i && ns[i].mode == s.mode) {
      ScanPicks(x, ns, i, w, s, j + 1, if j < i then -1 else i);
    }
  }

  /** One level of the lookup: the picked command is taken, in the mode the session is in. */
  lemma FindStep(x: Context, ns: seq<Node>, i: nat, k: nat, s: State)
    requires k < x.cWords <= |x.words| && i < |ns| && x.shell.modeAny != x.shell.modeConfig
    requires Distinct(ns) && Visible(ns[i], x.shell.EnvOf(s)) && Picks(ns, i, x.words[k], x.shell.EnvOf(s))
    requires Shortened(s.lens, ns, ns, x.shell.EnvOf(s))
    ensures Find(x, ns, k, s) == Accept(x, ns, i, k, s)
  {
    forall j | 0 <= j < |ns|
      ensures Candidate(ns[j], x.words[k], s) <==> j == i
    {
      OnlyCandidate(x, ns, i, x.words[k], s, j);
    }
    ScanPicks(x, ns, i, x.words[k], s, 0, -1);
  }

  lemma {:induction false} ScanFindsNothing(x: Context, ns: seq<Node>, i: nat, w: string, s: State)
    requires i <= |ns| && forall j | 0 <= j < |ns| :: !Abbreviates(w, ns[j].name)
    ensures Scan(x, ns, i, w, s, -1, -1) == Later(-1, -1)
    decreases |ns| - i
  {
    if i < |ns| {
      MatchesMeans(ns[i].name, UniqueOf(s.lens, ns[i]), w);
      ScanFindsNothing(x, ns, i + 1, w, s);
    }
  }

  /** At the end of the path the callback is made with the words that are left, also when a
      lookup among the children has come back without a result; without a callback there is only
      a complaint. */
  lemma AcceptRuns(x: Context, ns: seq<Node>, i: nat, k: nat, s: State)
    requires k < x.cWords <= |x.words| && i < |ns| && Ends(ns[i], x.words[k + 1..x.cWords])
    ensures Accept(x, ns, i, k, s)
         == if ns[i].callback then Run(x, ns[i], k, s) else Outcome(Complaint(ns[i], x.words[k + 1..x.cWords]), s)
  {
    if ns[i].children != [] && k < x.cWords - 1 {
      assert x.words[k + 1..x.cWords][0] == x.words[k + 1];
      ScanFindsNothing(x, ns[i].children, 0, x.words[k + 1], s);
    }
  }

  /** Words that lead down a path end at its command: its callback is made first, with the
      words behind the path as arguments, and unless that complains of them it is the only one. */
  lemma {:induction false} FindReaches(x: Context, ns: seq<Node>, path: seq<nat>, k: nat, s: State)
    requires k < x.cWords <= |x.words| && x.setup.None? && x.shell.modeAny != x.shell.modeConfig
    requires Leads(ns, path, x.words[k..x.cWords], x.shell.EnvOf(s)) && Shortened(s.lens, ns, ns, x.shell.EnvOf(s))
    requires Target(ns, path, x.words[k..x.cWords], x.shell.EnvOf(s)).callback
    ensures var t := Target(ns, path, x.words[k..x.cWords], x.shell.EnvOf(s)).id; var o := Find(x, ns, k, s);
      var call := Call(t, x.words[k..x.cWords][|path|..]);
      && s.calls + [call] <= o.s.calls
      && (x.answer(t).rc != ErrorArg ==> o == Outcome(x.answer(t).rc, Called(x, call, s)))
    decreases |path|
  {
    hide Find, Scan, Shortened, Candidate, Picks, Distinct;
    var i, ws := path[0], x.words[k..x.cWords];
    FindStep(x, ns, i, k, s);
    assert ws[1..] == x.words[k + 1..x.cWords];
    if |path| == 1 {
      AcceptRuns(x, ns, i, k, s);
    } else {
      ShortenedAt(s.lens, ns, ns, x.shell.EnvOf(s), i);
      FindReaches(x, ns[i].children, path[1..], k + 1, s);
      assert ws[1..][|path| - 1..] == ws[|path|..];
    }
  }

  /** The callbacks on a path that are tried, the deepest first: the next one up when the last has
      complained of its arguments. */
  ghost function Tried(x: Context, ns: seq<Node>, path: seq<nat>, ws: seq<string>, env: Env): (calls: seq<Call>)
    requires Leads(ns, path, ws, env) && Target(ns, path, ws, env).callback
    ensures calls != [] && calls[0] == Call(Target(ns, path, ws, env).id, ws[|path|..])
    decreases |path|
  {
    var c := ns[path[0]];
    if |path| == 1 then [Call(c.id, ws[1..])]
    else
      var below := Tried(x, c.children, path[1..], ws[1..], env);
      assert ws[1..][|path| - 1..] == ws[|path|..];
      if c.callback && x.answer(below[|below| - 1].id).rc == ErrorArg then below + [Call(c.id, ws[1..])] else below
  }

  /** Words that lead down a path make exactly these callbacks, each with the words behind its own
      command, and report the result of the last. */
  lemma {:induction false} FindTries(x: Context, ns: seq<Node>, path: seq<nat>, k: nat, s: State)
    requires k < x.cWords <= |x.words| && x.setup.None? && x.shell.modeAny != x.shell.modeConfig
    requires Leads(ns, path, x.words[k..x.cWords], x.shell.EnvOf(s)) && Shortened(s.lens, ns, ns, x.shell.EnvOf(s))
    requires Target(ns, path, x.words[k..x.cWords], x.shell.EnvOf(s)).callback
    ensures var o := Find(x, ns, k, s); var calls := Tried(x, ns, path, x.words[k..x.cWords], x.shell.EnvOf(s));
      o.s.calls == s.calls + calls && o.rc == x.answer(calls[|calls| - 1].id).rc
    decreases |path|
  {
    hide Find, Scan, Shortened, Candidate, Picks, Distinct, ChangedAll;
    var i, ws := path[0], x.words[k..x.cWords];
    FindStep(x, ns, i, k, s);
    assert ws[1..] == x.words[k + 1..x.cWords];
    if |path| == 1 {
      AcceptRuns(x, ns, i, k, s);
    } else {
      ShortenedAt(s.lens, ns, ns, x.shell.EnvOf(s), i);
      FindTries(x, ns[i].children, path[1..], k + 1, s);
    }
  }

  /** When the filters of such a line cannot be set up, that is all that is reported: no callback is
      made, and the session stays as it is. */
  lemma {:induction false} FindFails(x: Context, ns: seq<Node>, path: seq<nat>, k: nat, s: State)
    requires k < x.cWords <= |x.words| && x.setup.Some? && x.shell.modeAny != x.shell.modeConfig
    requires Leads(ns, path, x.words[k..x.cWords], x.shell.EnvOf(s)) && Shortened(s.lens, ns, ns, x.shell.EnvOf(s))
    requires Target(ns, path, x.words[k..x.cWords], x.shell.EnvOf(s)).callback
    ensures Find(x, ns, k, s) == Outcome(x.setup.value, s)
    decreases |path|
  {
    hide Find, Scan, Shortened, Candidate, Picks, Distinct;
    var i, ws := path[0], x.words[k..x.cWords];
    FindStep(x, ns, i, k, s);
    assert ws[1..] == x.words[k + 1..x.cWords];
    if |path| == 1 {
      AcceptRuns(x, ns, i, k, s);
    } else {
      ShortenedAt(s.lens, ns, ns, x.shell.EnvOf(s), i);
      FindFails(x, ns[i].children, path[1..], k + 1, s);
    }
  }

  /** Words that lead to a command without a callback, with nothing behind it that could go on,
      are an incomplete line: no callback is made, not even one on the way. */
  lemma {:induction false} FindComplains(x: Context, ns: seq<Node>, path: seq<nat>, k: nat, s: State)
    requires k < x.cWords <= |x.words| && x.shell.modeAny != x.shell.modeConfig
    requires Leads(ns, path, x.words[k..x.cWords], x.shell.EnvOf(s)) && Shortened(s.lens, ns, ns, x.shell.EnvOf(s))
    requires var ws := x.words[k..x.cWords]; var t := Target(ns, path, ws, x.shell.EnvOf(s));
      !t.callback && (|ws| == |path| || t.children == [])
    ensures Find(x, ns, k, s) == Outcome(Error, s)
    decreases |path|
  {
    hide Find, Scan, Shortened, Candidate, Picks, Distinct;
    var i, ws := path[0], x.words[k..x.cWords];
    FindStep(x, ns, i, k, s);
    assert ws[1..] == x.words[k + 1..x.cWords];
    if |path| == 1 {
      AcceptRuns(x, ns, i, k, s);
    } else {
      ShortenedAt(s.lens, ns, ns, x.shell.EnvOf(s), i);
      FindComplains(x, ns[i].children, path[1..], k + 1, s);
    }
  }

  // ---------------------------------------------------------------------------------------
  // Which commands may be run
  // ---------------------------------------------------------------------------------------

  /** A word asks for help exactly when it ends in a question mark. */
  lemma HelpMeans(w: string)
    ensures IsHelp(w) <==> exists v: string :: v + "?" == w
  {
    if IsHelp(w) {
      assert w[..|w| - 1] + "?" == w;
    }
  }

  /** In that mode and with that privilege, the word may stand for the command: the mode of the
      command is the same, any, or the configuration mode for a submode, to drop out of it. */
  ghost predicate Permits(sh: Shell, c: Node, w: string, mode: int, privilege: int) {
    && c.privilege <= privilege
    && (c.mode == mode || c.mode == sh.modeAny || (c.mode == sh.modeConfig && sh.modeConfig < mode))
    && Abbreviates(w, c.name)
  }

  /** Apart from dropping out of a submode these are the commands that are visible, for which the
      lengths are made. */
  lemma PermitsVisible(sh: Shell, c: Node, w: string, s: State)
    ensures Permits(sh, c, w, s.mode, s.privilege) <==>
      && Abbreviates(w, c.name)
      && (Visible(c, sh.EnvOf(s)) || (sh.modeConfig < s.mode && Visible(c, sh.EnvOf(s.(mode := sh.modeConfig)))))
  {
  }

  /** It does stand for it if it is also long enough.  A command registered since the lengths
      were computed takes any length. */
  ghost predicate Answers(sh: Shell, c: Node, w: string, s: State) {
    Permits(sh, c, w, s.mode, s.privilege) && (c.id in s.lens ==> |w| >= s.lens[c.id] || |w| == |c.name|)
  }

  lemma AnswersMeans(sh: Shell, c: Node, w: string, s: State)
    ensures Answers(sh, c, w, s) <==>
      && Candidate(c, w, s)
      && (c.mode == s.mode || c.mode == sh.modeAny || (c.mode == sh.modeConfig && sh.modeConfig < s.mode))
  {
    MatchesMeans(c.name, UniqueOf(s.lens, c), w);
  }

  /** A command that is taken at once: one of the session's mode, or the second of any mode. */
  ghost predicate Takes(sh: Shell, ns: seq<Node>, i: nat, w: string, s: State)
    requires i < |ns|
  {
    && Answers(sh, ns[i], w, s)
    && (ns[i].mode == s.mode
        || (ns[i].mode == sh.modeAny && exists j | 0 <= j < i :: Answers(sh, ns[j], w, s) && ns[j].mode == sh.modeAny))
  }

  /** `last` is the last one of that mode before n that answers, or -1. */
  ghost predicate IsLast(sh: Shell, ns: seq<Node>, n: nat, w: string, s: State, mode: int, last: int)
    requires n <= |ns|
  {
    && -1 <= last < n
    && (last >= 0 ==> ns[last].mode == mode && Answers(sh, ns[last], w, s))
    && forall j | last < j < n :: !(ns[j].mode == mode && Answers(sh, ns[j], w, s))
  }

  /** What has been seen of the siblings before n when none of them has been taken. */
  ghost predicate Seen(sh: Shell, ns: seq<Node>, n: nat, w: string, s: State, config: int, any: int)
    requires n <= |ns|
  {
    && (forall j | 0 <= j < n :: !Takes(sh, ns, j, w, s))
    && (if sh.modeConfig < s.mode then IsLast(sh, ns, n, w, s, sh.modeConfig, config) else config == -1)
    && IsLast(sh, ns, n, w, s, sh.modeAny, any)
  }

  /** The first that is to be taken at once is taken; if there is none, all siblings are seen. */
  ghost predicate Chooses(sh: Shell, ns: seq<Node>, w: string, s: State, p: Pick) {
    match p
    case Now(at) => at < |ns| && Takes(sh, ns, at, w, s) && forall j | 0 <= j < at :: !Takes(sh, ns, j, w, s)
    case Later(config, any) => Seen(sh, ns, |ns|, w, s, config, any)
  }

  lemma SeenNothing(sh: Shell, ns: seq<Node>, w: string, s: State)
    ensures Seen(sh, ns, 0, w, s, -1, -1)
  {
  }

  lemma SeenStep(sh: Shell, ns: seq<Node>, i: nat, w: string, s: State, config: int, any: int)
    requires i < |ns| && sh.modeAny != sh.modeConfig && Seen(sh, ns, i, w, s, config, any)
    ensures Takes(sh, ns, i, w, s)
       <==> Answers(sh, ns[i], w, s) && (ns[i].mode == s.mode || (ns[i].mode == sh.modeAny && any >= 0))
    ensures !Takes(sh, ns, i, w, s) ==>
      Seen(sh, ns, i + 1, w, s,
           if Answers(sh, ns[i], w, s) && ns[i].mode == sh.modeConfig < s.mode then i else config,
           if Answers(sh, ns[i], w, s) && ns[i].mode == sh.modeAny then i else any)
  {
    hide Answers;
  }

  lemma {:induction false} ScanFrom(x: Context, ns: seq<Node>, i: nat, w: string, s: State, config: int, any: int)
    requires i <= |ns| && -1 <= config < |ns| && -1 <= any < |ns|
    requires x.shell.modeAny != x.shell.modeConfig && Seen(x.shell, ns, i, w, s, config, any)
    ensures Chooses(x.shell, ns, w, s, Scan(x, ns, i, w, s, config, any))
    decreases |ns| - i
  {
    hide Answers, Seen, Takes, Candidate;
    if i < |ns| {
      AnswersMeans(x.shell, ns[i], w, s);
      SeenStep(x.shell, ns, i, w, s, config, any);
      SeenTakes(x.shell, ns, i, w, s, config, any);
      if !Takes(x.shell, ns, i, w, s) {
        ScanFrom(x, ns, i + 1, w, s,
                 if Answers(x.shell, ns[i], w, s) && ns[i].mode == x.shell.modeConfig < s.mode then i else config,
                 if Answers(x.shell, ns[i], w, s) && ns[i].mode == x.shell.modeAny then i else any);
      }
    }
  }

  lemma SeenTakes(sh: Shell, ns: seq<Node>, n: nat, w: string, s: State, config: int, any: int)
    requires n <= |ns| && Seen(sh, ns, n, w, s, config, any)
    ensures forall j | 0 <= j < n :: !Takes(sh, ns, j, w, s)
  {
  }

  /** Whatever the siblings and however many of them answer: the loop takes the first that is to
      be taken at once, and remembers the last of the configuration mode and the one of any. */
  lemma ScanMeans(x: Context, ns: seq<Node>, w: string, s: State)
    requires x.shell.modeAny != x.shell.modeConfig
    ensures Chooses(x.shell, ns, w, s, Scan(x, ns, 0, w, s, -1, -1))
  {
    SeenNothing(x.shell, ns, w, s);
    ScanFrom(x, ns, 0, w, s, -1, -1);
  }

  /** Nothing is found exactly when no sibling answers: of another mode, above the privilege of
      the session, or not abbreviated by the word. */
  lemma ScanRefuses(x: Context, ns: seq<Node>, w: string, s: State)
    requires x.shell.modeAny != x.shell.modeConfig
    ensures Scan(x, ns, 0, w, s, -1, -1) == Later(-1, -1) <==>
      forall j | 0 <= j < |ns| :: !Answers(x.shell, ns[j], w, s)
  {
    hide Scan, Answers;
    ScanMeans(x, ns, w, s);
    forall j | 0 <= j < |ns| && Answers(x.shell, ns[j], w, s)
      ensures Scan(x, ns, 0, w, s, -1, -1) != Later(-1, -1)
    {
      AnswersMode(x.shell, ns[j], w, s);
      assert ns[j].mode == s.mode ==> Takes(x.shell, ns, j, w, s);
    }
  }

  lemma AnswersMode(sh: Shell, c: Node, w: string, s: State)
    requires Answers(sh, c, w, s)
    ensures c.mode == s.mode || c.mode == sh.modeAny || (c.mode == sh.modeConfig && sh.modeConfig < s.mode)
  {
  }

  /** A word that may stand for no sibling is refused, and the session stays as it is. */
  lemma FindRefuses(x: Context, ns: seq<Node>, k: nat, s: State)
    requires k < x.cWords <= |x.words| && x.shell.modeAny != x.shell.modeConfig && !IsHelp(x.words[k])
    requires forall j | 0 <= j < |ns| :: !Permits(x.shell, ns[j], x.words[k], s.mode, s.privilege)
    ensures Find(x, ns, k, s) == Outcome(ErrorArg, s)
  {
    ScanRefuses(x, ns, x.words[k], s);
  }

  /** Asking for help runs nothing. */
  lemma FindHelps(x: Context, ns: seq<Node>, k: nat, s: State, v: string)
    requires k < x.cWords <= |x.words| && x.words[k] == v + "?"
    ensures Find(x, ns, k, s) == Outcome(Ok, s)
  {
  }

  /** The mode in which the words behind a command are looked up. */
  function ModeBehind(sh: Shell, c: Node, mode: int): int {
    if c.mode == sh.modeConfig < mode then sh.modeConfig else mode
  }

  /** The words from k on allow that call, in that mode and with that privilege: the first of them
      may stand for a command that allows it. */
  ghost predicate Allows(x: Context, ns: seq<Node>, k: nat, mode: int, privilege: int, call: Call)
    requires k < x.cWords <= |x.words|
    decreases ns
  {
    && !IsHelp(x.words[k])
    && exists i | 0 <= i < |ns| ::
         && Permits(x.shell, ns[i], x.words[k], mode, privilege)
         && AllowsHere(x, ns[i], k, ModeBehind(x.shell, ns[i], mode), privilege, call)
  }

  /** The call is the callback of c, with the words behind k as arguments, or these words allow it
      below c. */
  ghost predicate AllowsHere(x: Context, c: Node, k: nat, mode: int, privilege: int, call: Call)
    requires k < x.cWords <= |x.words|
    decreases c
  {
    || (c.callback && call == Call(c.id, x.words[k + 1..x.cWords]))
    || (k + 1 < x.cWords && Allows(x, c.children, k + 1, mode, privilege, call))
  }

  ghost predicate AllowsAll(x: Context, ns: seq<Node>, k: nat, mode: int, privilege: int, calls: seq<Call>)
    requires k < x.cWords <= |x.words|
  {
    forall j | 0 <= j < |calls| :: Allows(x, ns, k, mode, privilege, calls[j])
  }

  /** All the callbacks made complained of their arguments, except that the last one need not
      have, and its result is reported. */
  ghost predicate Complained(x: Context, calls: seq<Call>, rc: Rc) {
    && (forall j | 0 <= j < |calls| - 1 :: x.answer(calls[j].id).rc == ErrorArg)
    && (if calls != [] then rc == x.answer(calls[|calls| - 1].id).rc
        else rc == Ok || rc == Error || rc == ErrorArg || x.setup == Some(rc))
  }

  /** From s to o, these calls were made.  None is when the filters cannot be set up, and without
      any the session is as it was, or has dropped out of a submode. */
  ghost predicate Makes(x: Context, s: State, o: Outcome, calls: seq<Call>) {
    && o.s.calls == s.calls + calls && Complained(x, calls, o.rc)
    && (x.setup.Some? ==> calls == [])
    && (calls == [] ==>
          o.s.privilege == s.privilege && (o.s.mode == s.mode || o.s.mode == x.shell.modeConfig < s.mode))
  }

  lemma MakesNone(x: Context, s: State, o: Outcome)
    requires o.s == s && (o.rc == Ok || o.rc == Error || o.rc == ErrorArg)
    ensures Makes(x, s, o, [])
  {
  }

  lemma RunMakes(x: Context, c: Node, k: nat, s: State, o: Outcome, before: seq<Call>) returns (calls: seq<Call>)
    requires k < x.cWords <= |x.words| && Makes(x, s, o, before) && o.rc == ErrorArg
    ensures Makes(x, s, Run(x, c, k, o.s), calls)
    ensures calls == before || calls == before + [Call(c.id, x.words[k + 1..x.cWords])]
  {
    hide ChangedAll;
    calls := if x.setup.None? then before + [Call(c.id, x.words[k + 1..x.cWords])] else before;
  }

  lemma {:induction false} AcceptMakes(x: Context, ns: seq<Node>, i: nat, k: nat, s: State) returns (calls: seq<Call>)
    requires i < |ns| && k < x.cWords <= |x.words| && x.shell.modeAny != x.shell.modeConfig
    ensures Makes(x, s, Accept(x, ns, i, k, s), calls)
    ensures forall j | 0 <= j < |calls| :: AllowsHere(x, ns[i], k, s.mode, s.privilege, calls[j])
    decreases ns, 0
  {
    hide Find, Makes, Run, Allows;
    var c := ns[i];
    if c.children == [] || k == x.cWords - 1 {
      calls := [];
      MakesNone(x, s, Outcome(Error, s));
      MakesNone(x, s, Outcome(ErrorArg, s));
      if c.callback {
        calls := RunMakes(x, c, k, s, Outcome(ErrorArg, s), []);
      }
    } else {
      var o := Find(x, c.children, k + 1, s);
      calls := FindMakes(x, c.children, k + 1, s);
      if o.rc == ErrorArg && c.callback {
        calls := RunMakes(x, c, k, s, o, calls);
      }
    }
  }

  /** One sibling has been chosen in mode s.mode; the lookup goes on in the mode of t. */
  lemma AllowsBehind(x: Context, ns: seq<Node>, i: nat, k: nat, s: State, t: State, calls: seq<Call>)
    requires i < |ns| && k < x.cWords <= |x.words| && !IsHelp(x.words[k])
    requires Permits(x.shell, ns[i], x.words[k], s.mode, s.privilege)
    requires t.mode == ModeBehind(x.shell, ns[i], s.mode) && t.privilege == s.privilege
    requires forall j | 0 <= j < |calls| :: AllowsHere(x, ns[i], k, t.mode, t.privilege, calls[j])
    ensures AllowsAll(x, ns, k, s.mode, s.privilege, calls)
  {
  }

  /** What is chosen is permitted, and in which mode the lookup goes on. */
  lemma ChosenPermits(sh: Shell, ns: seq<Node>, w: string, s: State, p: Pick, i: nat)
    requires Chooses(sh, ns, w, s, p) && sh.modeAny != sh.modeConfig && i < |ns|
    requires i == match p case Now(at) => at case Later(config, any) => if config >= 0 then config else any
    ensures Permits(sh, ns[i], w, s.mode, s.privilege)
    ensures ModeBehind(sh, ns[i], s.mode) == if p.Later? && p.config >= 0 then sh.modeConfig else s.mode
    ensures p.Later? && p.config >= 0 ==> sh.modeConfig < s.mode
  {
  }

  /** Dropping out of a submode makes no call. */
  lemma DroppingMakesNone(x: Context, s: State, o: Outcome, calls: seq<Call>)
    requires x.shell.modeConfig < s.mode && Makes(x, ToConfig(x.shell, s), o, calls)
    ensures Makes(x, s, o, calls)
  {
  }

  /** Which callbacks a lookup makes: only such as the words allow in the mode and with the
      privilege that the session has when it begins, each after another has complained of its
      arguments.  A command of another mode or above the privilege is not run. */
  lemma {:induction false} FindMakes(x: Context, ns: seq<Node>, k: nat, s: State) returns (calls: seq<Call>)
    requires k < x.cWords <= |x.words| && x.shell.modeAny != x.shell.modeConfig
    ensures Makes(x, s, Find(x, ns, k, s), calls) && AllowsAll(x, ns, k, s.mode, s.privilege, calls)
    decreases ns, 1
  {
    hide Makes, Scan, Accept, Permits, Chooses, Allows, AllowsHere, ModeBehind;
    calls := [];
    MakesNone(x, s, Outcome(Ok, s));
    MakesNone(x, s, Outcome(ErrorArg, s));
    if !IsHelp(x.words[k]) {
      var p := Scan(x, ns, 0, x.words[k], s, -1, -1);
      var i := match p case Now(at) => at case Later(config, any) => if config >= 0 then config else any;
      ScanMeans(x, ns, x.words[k], s);
      if i >= 0 {
        var t := if p.Later? && p.config >= 0 then ToConfig(x.shell, s) else s;
        ChosenPermits(x.shell, ns, x.words[k], s, p, i);
        calls := AcceptMakes(x, ns, i, k, t);
        AllowsBehind(x, ns, i, k, s, t, calls);
        if p.Later? && p.config >= 0 {
          DroppingMakesNone(x, s, Accept(x, ns, i, k, t), calls);
        }
      }
    }
  }

  /** The command stands somewhere in the tree. */
  ghost predicate Within(ns: seq<Node>, c: Node)
    decreases ns
  {
    exists i | 0 <= i < |ns| :: ns[i] == c || Within(ns[i].children, c)
  }

  /** Only a command with a callback, of no higher privilege than the session's and of a mode that
      the session is in or can drop to, is ever called. */
  lemma {:induction false} AllowsPrivileged(x: Context, ns: seq<Node>, k: nat, mode: int, privilege: int, call: Call)
    returns (c: Node)
    requires k < x.cWords <= |x.words| && Allows(x, ns, k, mode, privilege, call)
    ensures Within(ns, c) && c.id == call.id && c.callback && c.privilege <= privilege
    ensures var sh := x.shell;
      c.mode == mode || c.mode == sh.modeAny || (c.mode == sh.modeConfig && sh.modeConfig < mode)
    decreases ns
  {
    hide Abbreviates, IsHelp;
    var i :| 0 <= i < |ns| && Permits(x.shell, ns[i], x.words[k], mode, privilege)
      && AllowsHere(x, ns[i], k, ModeBehind(x.shell, ns[i], mode), privilege, call);
    c := ns[i];
    if !(c.callback && call == Call(c.id, x.words[k + 1..x.cWords])) {
      c := AllowsPrivileged(x, ns[i].children, k + 1, ModeBehind(x.shell, ns[i], mode), privilege, call);
    }
  }

  // ---------------------------------------------------------------------------------------
  // Dropping out of a configuration submode
  // ---------------------------------------------------------------------------------------

  /** The candidates in a submode are ns[i], of the configuration mode, and at most one more, of
      any mode. */
  lemma {:induction false} ScanRemembers(x: Context, ns: seq<Node>, i: nat, w: string, s: State, j: nat,
                                         config: int, any: int) returns (last: int)
    requires i < |ns| && j <= |ns| && config == (if j <= i then -1 else i) && x.shell.modeAny != x.shell.modeConfig
    requires s.mode > x.shell.modeConfig && ns[i].mode == x.shell.modeConfig && Candidate(ns[i], w, s)
    requires forall m | 0 <= m < |ns| && m != i && Candidate(ns[m], w, s) ::
      && ns[m].mode == x.shell.modeAny != s.mode
      && (forall n | m < n < |ns| && n != i :: !Candidate(ns[n], w, s))
    requires -1 <= any < |ns|
    requires any >= 0 ==> forall m | j <= m < |ns| && m != i :: !Candidate(ns[m], w, s)
    ensures -1 <= last < |ns| && Scan(x, ns, j, w, s, config, any) == Later(i, last)
    decreases |ns| - j
  {
    last := any;
    if j < |ns| {
      var taken := j != i && Candidate(ns[j], w, s);
      last := ScanRemembers(x, ns, i, w, s, j + 1, if j < i then -1 else i, if taken then j else any);
    }
  }

  /** In a submode, the whole name of a command of the configuration mode does what it would do
      in the configuration mode, unless a command of the submode answers to it: the session goes
      there, with the unique lengths for it. */
  lemma DropsToConfig(x: Context, path: seq<nat>, s: State)
    requires 0 < x.cWords <= |x.words| && x.shell.modeAny != x.shell.modeConfig
      && s.mode > x.shell.modeConfig && s.mode != x.shell.modeAny
    requires Shortened(s.lens, x.shell.commands, x.shell.commands, x.shell.EnvOf(s)) && DistinctIds(x.shell.commands)
    requires Leads(x.shell.commands, path, x.words[..x.cWords], x.shell.EnvOf(ToConfig(x.shell, s)))
    requires x.shell.commands[path[0]].mode == x.shell.modeConfig && IsName(x.words[0], x.shell.commands[path[0]].name)
    requires forall j | 0 <= j < |x.shell.commands| && x.shell.commands[j].mode == s.mode ::
      !Candidate(x.shell.commands[j], x.words[0], s)
    ensures Find(x, x.shell.commands, 0, s) == Find(x, x.shell.commands, 0, ToConfig(x.shell, s))
    ensures Shortened(ToConfig(x.shell, s).lens, x.shell.commands, x.shell.commands,
                      x.shell.EnvOf(ToConfig(x.shell, s)))
  {
    var ns, i, w := x.shell.commands, path[0], x.words[0];
    assert x.words[..x.cWords][0] == w;
    BuiltShortens(s.lens, ns, ns, x.shell.EnvOf(ToConfig(x.shell, s)));
    forall m | 0 <= m < |ns|
      ensures m == i ==> Candidate(ns[m], w, s)
      ensures m != i && Candidate(ns[m], w, s) ==> ns[m].mode == x.shell.modeAny
    {
      ShortenedAt(s.lens, ns, ns, x.shell.EnvOf(s), m);
      MatchesMeans(ns[m].name, UniqueOf(s.lens, ns[m]), w);
    }
    forall m, n | 0 <= m < |ns| && m < n < |ns| && m != i && n != i
                  && Candidate(ns[m], w, s)
      ensures !Candidate(ns[n], w, s)
    {
      if Candidate(ns[n], w, s) {
        ShortenedAt(s.lens, ns, ns, x.shell.EnvOf(s), m);
        ShortenedAt(s.lens, ns, ns, x.shell.EnvOf(s), n);
        AbbreviationsAreSound(ns[m], ns[n], ns, x.shell.EnvOf(s), w);
      }
    }
    var _ := ScanRemembers(x, ns, i, w, s, 0, -1, -1);
    FindStep(x, ns, i, 0, ToConfig(x.shell, s));
  }

  // ---------------------------------------------------------------------------------------
  // A whole line
  // ---------------------------------------------------------------------------------------

  predicate BeginsWithBar(w: string) {
    w != "" && w[0] == '|'
  }

  /** The first word from i on that begins with a bar. */
  ghost function FirstBar(words: seq<string>, i: nat): (r: nat)
    requires i <= |words|
    ensures i <= r <= |words| && (r < |words| ==> BeginsWithBar(words[r]))
    ensures forall j | i <= j < r :: !BeginsWithBar(words[j])
    decreases |words| - i
  {
    if i == |words| || BeginsWithBar(words[i]) then i else FirstBar(words, i + 1)
  }

  /** How many words belong to the command: those before the first bar.  When that is the very
      first word the array of filter positions looks empty, and all of them do. */
  ghost function CommandWords(words: seq<string>): (n: nat)
    ensures n <= |words|
    ensures words != [] && BeginsWithBar(words[0]) ==> n == |words|
    ensures words != [] && !BeginsWithBar(words[0]) ==>
      n > 0 && (forall j | 0 <= j < n :: !BeginsWithBar(words[j])) && (n < |words| ==> BeginsWithBar(words[n]))
  {
    var f := FirstBar(words, 0);
    if f == 0 then |words| else f
  }

  /** x with the words of a line; setting up filters matters only if there are any. */
  ghost function Typed(x: Context, words: seq<string>): Context {
    var n := CommandWords(words);
    x.(words := words, cWords := n, setup := if n == |words| then None else x.setup)
  }

  /** cli_run_command: reports nothing but a request to quit. */
  ghost function RunLine(x: Context, line: string, maxWords: int, s: State): Outcome {
    var words := Parse(SkipSpaces(line), maxWords);
    if words == [] then Outcome(Ok, s)
    else
      var o := Find(Typed(x, words), x.shell.commands, 0, s);
      Outcome(if o.rc == Quit then Quit else Ok, o.s)
  }

  ghost predicate AllPlain(ws: seq<string>) {
    forall i | 0 <= i < |ws| :: Plain(ws[i])
  }

  lemma {:induction false} PlainTokens(ws: seq<string>)
    requires AllPlain(ws)
    ensures AllTokens(ws)
  {
    if ws != [] {
      PlainTokens(ws[1..]);
    }
  }

  lemma {:induction false} NoBar(ws: seq<string>, i: nat)
    requires AllPlain(ws) && i <= |ws|
    ensures FirstBar(ws, i) == |ws|
    decreases |ws| - i
  {
    if i < |ws| {
      assert Plain(ws[i]) && !Special(ws[i][0]);
      NoBar(ws, i + 1);
    }
  }

  /** A line, however it is spaced and quoted, whose words up to the first bar lead down a path
      runs the command at its end with the words that are left as arguments. */
  lemma TypedLineReaches(x: Context, path: seq<nat>, line: string, maxWords: int, s: State)
    requires var ws := Parse(SkipSpaces(line), maxWords);
      && ws != [] && (CommandWords(ws) == |ws| || x.setup.None?)
      && Leads(x.shell.commands, path, ws[..CommandWords(ws)], x.shell.EnvOf(s))
      && Target(x.shell.commands, path, ws[..CommandWords(ws)], x.shell.EnvOf(s)).callback
    requires x.shell.modeAny != x.shell.modeConfig
      && Shortened(s.lens, x.shell.commands, x.shell.commands, x.shell.EnvOf(s))
    ensures var ws := Parse(SkipSpaces(line), maxWords); var mine := ws[..CommandWords(ws)];
      var t := Target(x.shell.commands, path, mine, x.shell.EnvOf(s)).id; var o := RunLine(x, line, maxWords, s);
      var call := Call(t, mine[|path|..]);
      && s.calls + [call] <= o.s.calls
      && (x.answer(t).rc != ErrorArg ==>
            o == Outcome(if x.answer(t).rc == Quit then Quit else Ok, Called(x, call, s)))
  {
    hide Parse, SkipSpaces, Leads, Target, Shortened, Find;
    var ws := Parse(SkipSpaces(line), maxWords);
    var y := Typed(x, ws);
    assert y.words[0..y.cWords] == ws[..CommandWords(ws)] && y.shell.EnvOf(s) == x.shell.EnvOf(s);
    FindReaches(y, x.shell.commands, path, 0, s);
  }

  /** What a line may do: it makes only callbacks that its words, up to the first bar, allow in the
      mode and with the privilege that the session has when it is typed; all but the last of them
      complained; and a request to quit is reported exactly when the last one asks for it. */
  lemma LineMakes(x: Context, line: string, maxWords: int, s: State) returns (calls: seq<Call>)
    requires x.shell.modeAny != x.shell.modeConfig
    ensures var ws := Parse(SkipSpaces(line), maxWords); var o := RunLine(x, line, maxWords, s);
      && o.s.calls == s.calls + calls
      && (calls != [] ==> ws != [] && AllowsAll(Typed(x, ws), x.shell.commands, 0, s.mode, s.privilege, calls))
      && (forall j | 0 <= j < |calls| - 1 :: x.answer(calls[j].id).rc == ErrorArg)
      && (calls != [] ==> o.rc == if x.answer(calls[|calls| - 1].id).rc == Quit then Quit else Ok)
      && (calls == [] ==> o.rc == Ok || (o.rc == Quit && x.setup == Some(Quit)))
  {
    hide Find, Parse, SkipSpaces, Allows;
    var ws := Parse(SkipSpaces(line), maxWords);
    calls := [];
    if ws != [] {
      calls := FindMakes(Typed(x, ws), x.shell.commands, 0, s);
    }
  }

  /** A line whose first word stands for no command of the session's mode and privilege runs
      nothing. */
  lemma LineRefused(x: Context, line: string, maxWords: int, s: State)
    requires x.shell.modeAny != x.shell.modeConfig
    requires var ws := Parse(SkipSpaces(line), maxWords);
      ws != [] ==> forall i | 0 <= i < |x.shell.commands| ::
        !Permits(x.shell, x.shell.commands[i], ws[0], s.mode, s.privilege)
    ensures RunLine(x, line, maxWords, s) == Outcome(Ok, s)
  {
    hide Parse, SkipSpaces, Permits;
    var ws := Parse(SkipSpaces(line), maxWords);
    if ws != [] && !IsHelp(ws[0]) {
      FindRefuses(Typed(x, ws), x.shell.commands, 0, s);
    }
  }

  // ---------------------------------------------------------------------------------------
  // Names
  // ---------------------------------------------------------------------------------------

  /** cli_command_name, given the names from the root down to the command. */
  ghost function Titled(names: seq<string>): string {
    if names == [] then ""
    else
      var o := Titled(names[1..]);
      names[0] + (if o != "" then " " else "") + o
  }

  lemma TitledSplit(name: string, rest: seq<string>)
    ensures Titled([name] + rest) == name + (if Titled(rest) != "" then " " else "") + Titled(rest)
  {
  }

  lemma JoinSplit(name: string, rest: seq<string>)
    ensures rest != [] ==> Join([name] + rest) == name + " " + Join(rest)
    ensures rest == [] ==> Join([name] + rest) == name
  {
    assert ([name] + rest)[1..] == rest;
    if rest != [] {
      assert JoinTail(rest) == " " + Join(rest);
    } else {
      assert name + "" == name;
    }
  }

  lemma {:induction false} TitleTail(names: seq<string>)
    requires names != []
    ensures names[|names| - 1] != "" ==> Titled(names) != "" && Join(names) == Titled(names)
    ensures names[|names| - 1] == "" && |names| == 1 ==> Titled(names) == ""
    ensures names[|names| - 1] == "" && |names| > 1 ==> |Join(names)| > |Titled(names)|
    decreases |names|
  {
    hide Join, JoinTail, Titled;
    var name, rest := names[0], names[1..];
    assert names == [name] + rest;
    JoinSplit(name, rest);
    TitledSplit(name, rest);
    if rest == [] {
      EmptyTitle();
    } else {
      TitleTail(rest);
      assert rest[|rest| - 1] == names[|names| - 1];
    }
  }

  lemma EmptyTitle()
    ensures Titled([]) == ""
  {
  }

  /** The printed name is the joined names, except that an empty last name loses its space. */
  lemma TitleIsJoin(names: seq<string>)
    ensures Titled(names) == Join(names) <==> |names| <= 1 || names[|names| - 1] != ""
  {
    if names != [] {
      TitleTail(names);
      assert |names| == 1 ==> names[1..] == [];
    }
  }

  /** Every node of the path is visible and has a name fit for typing. */
  ghost predicate Typable(ns: seq<Node>, path: seq<nat>, env: Env)
    decreases |path|
  {
    && path != [] && path[0] < |ns| && Distinct(ns) && Visible(ns[path[0]], env)
    && Plain(ns[path[0]].name) && !IsHelp(ns[path[0]].name)
    && (if |path| == 1 then ns[path[0]].callback else Typable(ns[path[0]].children, path[1..], env))
  }

  ghost function Names(ns: seq<Node>, path: seq<nat>, env: Env): (r: seq<string>)
    requires Typable(ns, path, env)
    ensures |r| == |path|
    decreases |path|
  {
    [ns[path[0]].name] + if |path| == 1 then [] else Names(ns[path[0]].children, path[1..], env)
  }

  ghost function EndOf(ns: seq<Node>, path: seq<nat>, env: Env): (c: Node)
    requires Typable(ns, path, env)
    ensures c.callback
    decreases |path|
  {
    if |path| == 1 then ns[path[0]] else EndOf(ns[path[0]].children, path[1..], env)
  }

  /** A whole name picks its command. */
  lemma NamePicks(ns: seq<Node>, i: nat, env: Env)
    requires i < |ns| && Distinct(ns) && Plain(ns[i].name) && !IsHelp(ns[i].name)
    ensures Picks(ns, i, ns[i].name, env)
  {
    hide UniqueLen, IsHelp;
    var w := ns[i].name;
    forall j | 0 <= j < |ns| && IsName(w, ns[j].name) ensures j == i {
      assert forall m | 0 <= m < |w| :: w[m] == ns[j].name[m];
      assert w == ns[j].name;
    }
  }

  lemma {:induction false} NamesLead(ns: seq<Node>, path: seq<nat>, env: Env)
    requires Typable(ns, path, env)
    ensures AllPlain(Names(ns, path, env)) && Leads(ns, path, Names(ns, path, env), env)
    ensures Target(ns, path, Names(ns, path, env), env) == EndOf(ns, path, env) && Names(ns, path, env) != []
    decreases |path|
  {
    hide Plain, LowerCase, UniqueLen, IsHelp, Picks;
    NamePicks(ns, path[0], env);
    if |path| > 1 {
      var rest := Names(ns[path[0]].children, path[1..], env);
      NamesLead(ns[path[0]].children, path[1..], env);
      assert ([ns[path[0]].name] + rest)[1..] == rest;
    }
  }

  lemma PlainJoin(names: seq<string>)
    requires AllPlain(names) && names != []
    ensures Splittable(names) && SkipSpaces(Join(names)) == Join(names)
  {
    hide JoinTail, AllTokens;
    PlainTokens(names);
    assert Plain(names[0]) && !Special(names[0][0]);
  }

  lemma PlainTitle(names: seq<string>)
    requires AllPlain(names) && names != []
    ensures Titled(names) == Join(names)
  {
    hide Titled, Join;
    assert Plain(names[|names| - 1]);
    TitleIsJoin(names);
  }

  /** Splitting the printed name of a command gives the names on its path. */
  lemma NameSplits(names: seq<string>, maxWords: int)
    requires AllPlain(names) && names != [] && |names| <= Room(maxWords)
    ensures Titled(names) == Join(names) && Parse(SkipSpaces(Titled(names)), maxWords) == names
    ensures CommandWords(names) == |names|
  {
    hide AllPlain, Splittable, Join, Titled, SkipSpaces, Lex;
    PlainJoin(names);
    PlainTitle(names);
    NoBar(names, 0);
    LexJoin(names);
  }

  /** Typing the printed name of a command runs that command. */
  lemma CommandRoundTrip(x: Context, path: seq<nat>, maxWords: int, s: State)
    requires x.shell.modeAny != x.shell.modeConfig && |path| <= Room(maxWords)
    requires Typable(x.shell.commands, path, x.shell.EnvOf(s))
    requires Shortened(s.lens, x.shell.commands, x.shell.commands, x.shell.EnvOf(s))
    ensures var names := Names(x.shell.commands, path, x.shell.EnvOf(s));
      var call := Call(EndOf(x.shell.commands, path, x.shell.EnvOf(s)).id, []);
      var o := RunLine(x, Titled(names), maxWords, s);
      && s.calls + [call] <= o.s.calls
      && (x.answer(call.id).rc != ErrorArg ==> o.s == Called(x, call, s))
  {
    hide RunLine, Titled, Join, Leads, Typable, Shortened, Target, EndOf, Names, AllPlain, Room, Parse, SkipSpaces,
      CommandWords, Called;
    var names := Names(x.shell.commands, path, x.shell.EnvOf(s));
    NamesLead(x.shell.commands, path, x.shell.EnvOf(s));
    NameSplits(names, maxWords);
    assert names[..|names|] == names && names[|path|..] == [];
    TypedLineReaches(x, path, Titled(names), maxWords, s);
  }

  // ---------------------------------------------------------------------------------------
  // Whole sessions
  // ---------------------------------------------------------------------------------------

  /** The unique lengths are those of the mode the session is in. */
  ghost predicate Fresh(sh: Shell, s: State) {
    Shortened(s.lens, sh.commands, sh.commands, sh.EnvOf(s))
  }

  lemma ChangedKeeps(sh: Shell, c: Change, s: State)
    requires Fresh(sh, s) && DistinctIds(sh.commands)
    ensures Fresh(sh, Changed(sh, c, s))
  {
    var t := match c case Mode(mode) => s.(mode := mode) case Privilege(privilege) => s.(privilege := privilege);
    BuiltShortens(s.lens, sh.commands, sh.commands, sh.EnvOf(t));
  }

  lemma {:induction false} ChangedAllKeeps(sh: Shell, cs: seq<Change>, s: State)
    requires Fresh(sh, s) && DistinctIds(sh.commands)
    ensures Fresh(sh, ChangedAll(sh, cs, s))
  {
    hide Fresh, Changed;
    if cs != [] {
      ChangedAllKeeps(sh, cs[..|cs| - 1], s);
      ChangedKeeps(sh, cs[|cs| - 1], ChangedAll(sh, cs[..|cs| - 1], s));
    }
  }

  lemma RunKeeps(x: Context, c: Node, k: nat, s: State)
    requires k < x.cWords <= |x.words| && Fresh(x.shell, s) && DistinctIds(x.shell.commands)
    ensures Fresh(x.shell, Run(x, c, k, s).s)
  {
    hide ChangedAll;
    ChangedAllKeeps(x.shell, x.answer(c.id).changes, s.(calls := s.calls + [Call(c.id, x.words[k + 1..x.cWords])]));
  }

  lemma {:induction false} AcceptKeeps(x: Context, ns: seq<Node>, i: nat, k: nat, s: State)
    requires i < |ns| && k < x.cWords <= |x.words| && Fresh(x.shell, s) && DistinctIds(x.shell.commands)
    ensures Fresh(x.shell, Accept(x, ns, i, k, s).s)
    decreases ns, 0
  {
    hide Fresh, Run;
    var c := ns[i];
    RunKeeps(x, c, k, s);
    if c.children != [] && k != x.cWords - 1 {
      FindKeeps(x, c.children, k + 1, s);
      RunKeeps(x, c, k, Find(x, c.children, k + 1, s).s);
    }
  }

  /** A lookup leaves the session with the unique lengths of the mode in which it leaves it. */
  lemma {:induction false} FindKeeps(x: Context, ns: seq<Node>, k: nat, s: State)
    requires k < x.cWords <= |x.words| && Fresh(x.shell, s) && DistinctIds(x.shell.commands)
    ensures Fresh(x.shell, Find(x, ns, k, s).s)
    decreases ns, 1
  {
    hide Fresh, Accept, Scan;
    match Scan(x, ns, 0, x.words[k], s, -1, -1)
    case Now(i) => AcceptKeeps(x, ns, i, k, s);
    case Later(config, any) =>
      if config >= 0 {
        ChangedKeeps(x.shell, Mode(x.shell.modeConfig), s);
        AcceptKeeps(x, ns, config, k, ToConfig(x.shell, s));
      } else if any >= 0 {
        AcceptKeeps(x, ns, any, k, s);
      }
  }

  /** The mode of a session after some changes is that of the last change of mode, whatever other
      changes come behind it; and so for the privilege. */
  lemma {:induction false} LastChangeStays(sh: Shell, cs: seq<Change>, c: Change, more: seq<Change>, s: State)
    ensures var t := ChangedAll(sh, cs + [c] + more, s);
      && (c.Mode? && (forall i | 0 <= i < |more| :: more[i].Privilege?) ==> t.mode == c.mode)
      && (c.Privilege? && (forall i | 0 <= i < |more| :: more[i].Mode?) ==> t.privilege == c.privilege)
    decreases |more|
  {
    hide Built;
    var all, n := cs + [c] + more, |cs| + |more|;
    if more == [] {
      assert all[n] == c;
    } else {
      LastChangeStays(sh, cs, c, more[..|more| - 1], s);
      assert all[..n] == cs + [c] + more[..|more| - 1] && all[n] == more[|more| - 1];
    }
  }

  /** What is not changed stays. */
  lemma {:induction false} UnchangedStays(sh: Shell, cs: seq<Change>, s: State)
    ensures (forall i | 0 <= i < |cs| :: cs[i].Privilege?) ==> ChangedAll(sh, cs, s).mode == s.mode
    ensures (forall i | 0 <= i < |cs| :: cs[i].Mode?) ==> ChangedAll(sh, cs, s).privilege == s.privilege
    ensures (forall i | 0 <= i < |cs| :: cs[i] == Mode(s.mode) || cs[i] == Privilege(s.privilege)) ==>
      ChangedAll(sh, cs, s) == s
  {
    hide Built;
    if cs != [] {
      UnchangedStays(sh, cs[..|cs| - 1], s);
    }
  }

  /** What a session takes in: a line, with what the outside answers to it, or a change that
      the session makes between two lines, as when an enable password is accepted. */
  datatype Input =
    | Line(line: string, setup: Option<Rc>, answer: nat -> Reply)
    | Given(change: Change)

  ghost function AfterInput(sh: Shell, input: Input, maxWords: int, s: State): State {
    match input
    case Line(line, setup, answer) => RunLine(Context(sh, [], 0, setup, answer), line, maxWords, s).s
    case Given(change) => Changed(sh, change, s)
  }

  /** The session after a number of inputs; it begins, as cli_loop does, with computing the
      unique lengths. */
  ghost function AfterInputs(sh: Shell, begin: State, maxWords: int, inputs: seq<Input>): State {
    if inputs == [] then Rebuilt(sh, begin)
    else
      var n := |inputs| - 1;
      AfterInput(sh, inputs[n], maxWords, AfterInputs(sh, begin, maxWords, inputs[..n]))
  }

  lemma InputKeeps(sh: Shell, input: Input, maxWords: int, s: State)
    requires Fresh(sh, s) && DistinctIds(sh.commands)
    ensures Fresh(sh, AfterInput(sh, input, maxWords, s))
  {
    hide Shortened, Find, Parse, SkipSpaces, Changed;
    match input
    case Line(line, setup, answer) =>
      var words := Parse(SkipSpaces(line), maxWords);
      if words != [] {
        FindKeeps(Typed(Context(sh, [], 0, setup, answer), words), sh.commands, 0, s);
      }
    case Given(change) => ChangedKeeps(sh, change, s);
  }

  lemma {:induction false} SessionKeeps(sh: Shell, begin: State, maxWords: int, inputs: seq<Input>)
    requires DistinctIds(sh.commands)
    ensures Fresh(sh, AfterInputs(sh, begin, maxWords, inputs))
  {
    hide AfterInput, Shortened;
    if inputs == [] {
      BuiltShortens(begin.lens, sh.commands, sh.commands, sh.EnvOf(begin));
    } else {
      var n := |inputs| - 1;
      SessionKeeps(sh, begin, maxWords, inputs[..n]);
      InputKeeps(sh, inputs[n], maxWords, AfterInputs(sh, begin, maxWords, inputs[..n]));
    }
  }

  /** In every state of every session, typing the printed name of a command that is visible in
      it runs that command. */
  lemma SessionRoundTrip(x: Context, begin: State, maxWords: int, inputs: seq<Input>, path: seq<nat>)
    requires DistinctIds(x.shell.commands) && x.shell.modeAny != x.shell.modeConfig && |path| <= Room(maxWords)
    requires Typable(x.shell.commands, path, x.shell.EnvOf(AfterInputs(x.shell, begin, maxWords, inputs)))
    ensures var s := AfterInputs(x.shell, begin, maxWords, inputs); var env := x.shell.EnvOf(s);
      var call := Call(EndOf(x.shell.commands, path, env).id, []);
      var o := RunLine(x, Titled(Names(x.shell.commands, path, env)), maxWords, s);
      && s.calls + [call] <= o.s.calls
      && (x.answer(call.id).rc != ErrorArg ==> o.s == Called(x, call, s))
  {
    hide AfterInputs, RunLine, Titled, Typable, EndOf, Shortened, Called, Names;
    SessionKeeps(x.shell, begin, maxWords, inputs);
    CommandRoundTrip(x, path, maxWords, AfterInputs(x.shell, begin, maxWords, inputs));
  }

  /** Input n made that call: it is a line, and the state of the session before it allows it. */
  ghost predicate MadeBy(sh: Shell, begin: State, maxWords: int, inputs: seq<Input>, n: nat, call: Call) {
    && n < |inputs| && inputs[n].Line?
    && var s := AfterInputs(sh, begin, maxWords, inputs[..n]);
       var ws := Parse(SkipSpaces(inputs[n].line), maxWords);
       && ws != []
       && Allows(Typed(Context(sh, [], 0, inputs[n].setup, inputs[n].answer), ws), sh.commands, 0,
                 s.mode, s.privilege, call)
  }

  lemma MadeBySnoc(sh: Shell, begin: State, maxWords: int, inputs: seq<Input>, n: nat, call: Call)
    requires inputs != [] && MadeBy(sh, begin, maxWords, inputs[..|inputs| - 1], n, call)
    ensures MadeBy(sh, begin, maxWords, inputs, n, call)
  {
    hide AfterInputs, Allows;
    assert inputs[..|inputs| - 1][..n] == inputs[..n];
  }

  /** In every session, every callback made was made by a line that the mode and the privilege of
      the session at that moment allowed. */
  lemma {:induction false} SessionAllows(sh: Shell, begin: State, maxWords: int, inputs: seq<Input>, j: nat)
    returns (n: nat)
    requires sh.modeAny != sh.modeConfig
    requires |begin.calls| <= j < |AfterInputs(sh, begin, maxWords, inputs).calls|
    ensures MadeBy(sh, begin, maxWords, inputs, n, AfterInputs(sh, begin, maxWords, inputs).calls[j])
  {
    hide RunLine, MadeBy;
    n := |inputs| - 1;
    var s := AfterInputs(sh, begin, maxWords, inputs[..n]);
    if j < |s.calls| {
      n := SessionAllows(sh, begin, maxWords, inputs[..n], j);
      InputAppends(sh, inputs[|inputs| - 1], maxWords, s);
      MadeBySnoc(sh, begin, maxWords, inputs, n, s.calls[j]);
    } else {
      LastMade(sh, begin, maxWords, inputs, j);
    }
  }

  lemma InputAppends(sh: Shell, input: Input, maxWords: int, s: State)
    requires sh.modeAny != sh.modeConfig
    ensures s.calls <= AfterInput(sh, input, maxWords, s).calls
    ensures input.Given? ==> AfterInput(sh, input, maxWords, s).calls == s.calls
  {
    hide RunLine, Built;
    match input
    case Line(line, setup, answer) =>
      var _ := LineMakes(Context(sh, [], 0, setup, answer), line, maxWords, s);
    case Given(change) =>
  }

  lemma LastMade(sh: Shell, begin: State, maxWords: int, inputs: seq<Input>, j: nat)
    requires sh.modeAny != sh.modeConfig && inputs != []
    requires |AfterInputs(sh, begin, maxWords, inputs[..|inputs| - 1]).calls| <= j
    requires j < |AfterInputs(sh, begin, maxWords, inputs).calls|
    ensures MadeBy(sh, begin, maxWords, inputs, |inputs| - 1, AfterInputs(sh, begin, maxWords, inputs).calls[j])
  {
    hide RunLine, Allows, Parse, SkipSpaces;
    var n := |inputs| - 1;
    var s := AfterInputs(sh, begin, maxWords, inputs[..n]);
    InputAppends(sh, inputs[n], maxWords, s);
    match inputs[n]
    case Line(line, setup, answer) =>
      var x := Context(sh, [], 0, setup, answer);
      var calls := LineMakes(x, line, maxWords, s);
      assert (s.calls + calls)[j] == calls[j - |s.calls|];
    case Given(change) =>
  }
}
