/**
 The session of src/cli/base_cli_lib.c that changes while commands are looked up: its mode,
 the unique length written into every command, and the callbacks made so far.
 */
module CommandShell {
  import opened Commands
  import opened Lookup
  import opened Words
  import opened Wrappers

  class Session {
    const shell: Shell
    var mode: int
    var privilege: int
    var uniqueLen: map<nat, nat>
    var calls: seq<Call>

    constructor (shell: Shell, mode: int, privilege: int)
      ensures this.shell == shell && Now() == State(mode, privilege, map[], [])
    {
      this.shell, this.mode, this.privilege := shell, mode, privilege;
      uniqueLen := map[];
      calls := [];
    }

    function GetEnv(): Env
      reads this`mode, this`privilege
    {
      Env(mode, privilege, shell.modeAny, shell.modeConfig)
    }

    function Now(): State
      reads this
    {
      State(mode, privilege, uniqueLen, calls)
    }

    function With(words: seq<string>, cWords: nat, setup: Option<Rc>, answer: nat -> Reply): Context {
      Context(shell, words, cWords, setup, answer)
    }

    // -------------------------------------------------------------------------------------
    // Unique lengths
    // -------------------------------------------------------------------------------------

    /** One more than the number of equal leading characters. */
    static method CommonLength(a: string, b: string) returns (len: nat)
      ensures len == 1 + Common(a, b)
    {
      len := 1;
      var i := 0;
      while i < |a| && i < |b| && a[i] == b[i]
        invariant 0 <= i <= |a| && i <= |b| && len == 1 + i && a[..i] == b[..i]
      {
        len := len + 1;
        i := i + 1;
      }
      CommonIs(a, b, i);
    }

    /** The inner loop: the longest such length over the visible siblings. */
    method LengthOf(c: Node, siblings: seq<Node>) returns (len: nat)
      ensures len == Longest(c, siblings, GetEnv())
    {
      len := 1;
      var j := 0;
      while j < |siblings|
        invariant 0 <= j <= |siblings| && len == Longest(c, siblings[..j], GetEnv())
      {
        var p := siblings[j];
        assert siblings[..j + 1][..j] == siblings[..j];
        if p.id != c.id && Visible(p, GetEnv()) {
          var l := CommonLength(c.name, p.name);
          if l > len {
            len := l;
          }
        }
        j := j + 1;
      }
      assert siblings[..j] == siblings;
    }

    /** cli_build_shortest */
    method BuildShortest(siblings: seq<Node>)
      modifies this`uniqueLen
      ensures uniqueLen == Built(old(uniqueLen), siblings, siblings, GetEnv())
      decreases siblings
    {
      ghost var env := GetEnv();
      var i := 0;
      while i < |siblings|
        invariant 0 <= i <= |siblings|
        invariant Built(old(uniqueLen), siblings, siblings, env) == Built(uniqueLen, siblings[i..], siblings, env)
      {
        var c := siblings[i];
        ghost var l0 := uniqueLen;
        assert siblings[i..][0] == c && siblings[i..][1..] == siblings[i + 1..];
        var len := |c.name|;
        if Visible(c, GetEnv()) {
          len := LengthOf(c, siblings);
        }
        uniqueLen := uniqueLen[c.id := len];
        assert uniqueLen == l0[c.id := UniqueLen(c, siblings, env)];
        if Visible(c, GetEnv()) && c.children != [] {
          BuildShortest(c.children);
        }
        i := i + 1;
      }
    }

    /** cli_set_configmode */
    method SetConfigMode(newMode: int)
      modifies this`mode, this`uniqueLen
      ensures Now() == ToMode(shell, newMode, old(Now()))
    {
      var was := mode;
      mode := newMode;
      if mode != was {
        BuildShortest(shell.commands);
      }
    }

    /** cli_set_privilege */
    method SetPrivilege(newPrivilege: int)
      modifies this`privilege, this`uniqueLen
      ensures Now() == ToPrivilege(shell, newPrivilege, old(Now()))
    {
      var was := privilege;
      privilege := newPrivilege;
      if privilege != was {
        BuildShortest(shell.commands);
      }
    }

    method Apply(change: Change)
      modifies this`mode, this`privilege, this`uniqueLen
      ensures Now() == Changed(shell, change, old(Now()))
    {
      match change {
        case Mode(m) => SetConfigMode(m);
        case Privilege(p) => SetPrivilege(p);
      }
    }

    // -------------------------------------------------------------------------------------
    // Lookup
    // -------------------------------------------------------------------------------------

    /** The changes that a callback makes. */
    method ApplyAll(changes: seq<Change>)
      modifies this`mode, this`privilege, this`uniqueLen
      ensures Now() == ChangedAll(shell, changes, old(Now()))
    {
      hide Changed;
      ghost var s := Now();
      var i := 0;
      while i < |changes|
        invariant 0 <= i <= |changes| && Now() == ChangedAll(shell, changes[..i], s)
      {
        Apply(changes[i]);
        assert changes[..i + 1][..i] == changes[..i];
        i := i + 1;
      }
      assert changes[..i] == changes;
    }

    method RunCallback(c: Node, k: nat, words: seq<string>, cWords: nat, setup: Option<Rc>, answer: nat -> Reply)
      returns (rc: Rc)
      requires k < cWords <= |words|
      modifies this
      ensures Outcome(rc, Now()) == Run(With(words, cWords, setup, answer), c, k, old(Now()))
    {
      rc := if setup.Some? then setup.value else Ok;
      if setup.None? {
        calls := calls + [Call(c.id, words[k + 1..cWords])];
        var reply := answer(c.id);
        ApplyAll(reply.changes);
        rc := reply.rc;
      }
    }

    /** The body behind a match. */
    method AcceptCommand(ns: seq<Node>, i: nat, k: nat, words: seq<string>, cWords: nat,
                         setup: Option<Rc>, answer: nat -> Reply)
      returns (rc: Rc)
      requires i < |ns| && k < cWords <= |words|
      modifies this
      ensures Outcome(rc, Now()) == Accept(With(words, cWords, setup, answer), ns, i, k, old(Now()))
      decreases ns, 0
    {
      var c := ns[i];
      if c.children == [] {
        if !c.callback {
          return Error;
        }
      } else if k == cWords - 1 {
        if !c.callback {
          return Error;
        }
      } else {
        rc := FindCommand(c.children, k + 1, words, cWords, setup, answer);
        if rc != ErrorArg || !c.callback {
          return;
        }
      }
      rc := RunCallback(c, k, words, cWords, setup, answer);
    }

    /** cli_find_command */
    method FindCommand(ns: seq<Node>, k: nat, words: seq<string>, cWords: nat, setup: Option<Rc>, answer: nat -> Reply)
      returns (rc: Rc)
      requires k < cWords <= |words|
      modifies this
      ensures Outcome(rc, Now()) == Find(With(words, cWords, setup, answer), ns, k, old(Now()))
      decreases ns, 1
    {
      if IsHelp(words[k]) {
        return Ok;
      }
      ghost var x, s := With(words, cWords, setup, answer), Now();
      var againConfig, againAny := -1, -1;
      var i := 0;
      while i < |ns|
        invariant 0 <= i <= |ns| && -1 <= againConfig < |ns| && -1 <= againAny < |ns| && Now() == s
        invariant Scan(x, ns, 0, words[k], s, -1, -1) == Scan(x, ns, i, words[k], s, againConfig, againAny)
      {
        var c := ns[i];
        if Candidate(c, words[k], Now()) {
          if c.mode == mode || (c.mode == shell.modeAny && againAny >= 0) {
            rc := AcceptCommand(ns, i, k, words, cWords, setup, answer);
            return;
          } else if mode > shell.modeConfig && c.mode == shell.modeConfig {
            againConfig := i;
          } else if c.mode == shell.modeAny {
            againAny := i;
          }
        }
        i := i + 1;
      }
      if againConfig >= 0 {
        SetConfigMode(shell.modeConfig);
        rc := AcceptCommand(ns, againConfig, k, words, cWords, setup, answer);
      } else if againAny >= 0 {
        rc := AcceptCommand(ns, againAny, k, words, cWords, setup, answer);
      } else {
        rc := ErrorArg;
      }
    }

    /** cli_run_command; `setup` is how setting up the filters of the line ends, if it has any. */
    method RunCommand(line: string, maxWords: int, setup: Option<Rc>, answer: nat -> Reply) returns (rc: Rc)
      requires '\0' !in line
      modifies this
      ensures Outcome(rc, Now()) == RunLine(With([], 0, setup, answer), line, maxWords, old(Now()))
    {
      var p := SkipTo(line);
      if p == |line| {
        return Ok;
      }
      var words := ParseLine(line[p..], maxWords);
      var f := 0;
      while f < |words| && !BeginsWithBar(words[f])
        invariant 0 <= f <= |words| && FirstBar(words, 0) == FirstBar(words, f)
      {
        f := f + 1;
      }
      var cWords := if f == 0 then |words| else f;
      rc := Error;
      if |words| > 0 {
        assert Typed(With([], 0, setup, answer), words)
            == With(words, cWords, if cWords == |words| then None else setup, answer);
        rc := FindCommand(shell.commands, 0, words, cWords, if cWords == |words| then None else setup, answer);
      }
      if rc != Quit {
        rc := Ok;
      }
    }

    /** One session, as far as a request to quit: cli_loop and cli_file without the reading of
        lines. */
    method Serve(inputs: seq<Input>, maxWords: int) returns (n: nat)
      requires forall i | 0 <= i < |inputs| && inputs[i].Line? :: '\0' !in inputs[i].line
      modifies this
      ensures n <= |inputs| && Now() == AfterInputs(shell, old(Now()), maxWords, inputs[..n])
    {
      hide RunLine, Changed;
      ghost var begin := Now();
      BuildShortest(shell.commands);
      n := 0;
      while n < |inputs|
        invariant n <= |inputs| && Now() == AfterInputs(shell, begin, maxWords, inputs[..n])
      {
        var rc := Ok;
        match inputs[n] {
          case Line(line, setup, answer) =>
            rc := RunCommand(line, maxWords, setup, answer);
          case Given(change) =>
            Apply(change);
        }
        assert inputs[..n + 1][..n] == inputs[..n];
        n := n + 1;
        if rc == Quit {
          return;
        }
      }
    }
  }
}
