/**
 Registering commands (`cli_register_command`, `cli_unregister_command` and
 `cli_command_name` of src/cli/base_cli_lib.c): the tree grows and shrinks, and every command
 knows the one above it.

 The id of a command stands for its address and is larger than those before it.
 */
module Registry {
  import opened Commands
  import opened Lookup
  import opened Words
  import opened Wrappers

  /** What a command says of itself: its name, and its parent if it has one. */
  datatype Info = Info(name: string, above: Option<nat>)

  /** The commands, what they say of themselves, and the next address. */
  datatype Forest = Forest(commands: seq<Node>, info: map<nat, Info>, next: nat) {
    ghost predicate Valid() {
      && DistinctIds(commands) && Known(commands, None, info)
      && forall id | id in Ids(commands) :: id < next
    }
  }

  /** The commands ns, all below `above`, say what the tree says of them. */
  ghost predicate Known(ns: seq<Node>, above: Option<nat>, info: map<nat, Info>)
    decreases ns
  {
    ns != [] ==>
      && ns[0].id in info && info[ns[0].id] == Info(ns[0].name, above)
      && (above.Some? ==> above.value < ns[0].id)
      && Known(ns[0].children, Some(ns[0].id), info) && Known(ns[1..], above, info)
  }

  // ---------------------------------------------------------------------------------------
  // The operations
  // ---------------------------------------------------------------------------------------

  /** The tree with c as the last child of the command `at`. */
  function Grown(ns: seq<Node>, at: nat, c: Node): seq<Node>
    decreases ns
  {
    if ns == [] then []
    else if ns[0].id == at then [ns[0].(children := ns[0].children + [c])] + ns[1..]
    else [ns[0].(children := Grown(ns[0].children, at, c))] + Grown(ns[1..], at, c)
  }

  function Registered(f: Forest, above: Option<nat>, name: string, callback: bool, privilege: int, mode: int): Forest {
    var c := Node(f.next, name, callback, privilege, mode, []);
    Forest(if above.Some? then Grown(f.commands, above.value, c) else f.commands + [c],
           f.info[f.next := Info(name, above)], f.next + 1)
  }

  /** The commands without the first of that name. */
  function Without(ns: seq<Node>, name: string): seq<Node> {
    if ns == [] then []
    else if ns[0].name == name then ns[1..]
    else [ns[0]] + Without(ns[1..], name)
  }

  function Unregistered(f: Forest, name: string): Forest {
    f.(commands := Without(f.commands, name))
  }

  /** The names from the root down to a command, as the parents tell them. */
  ghost function Chain(info: map<nat, Info>, id: nat): seq<string> {
    if id !in info then []
    else
      (if info[id].above.Some? && info[id].above.value < id then Chain(info, info[id].above.value) else [])
      + [info[id].name]
  }

  // ---------------------------------------------------------------------------------------
  // Growing
  // ---------------------------------------------------------------------------------------

  lemma {:induction false} IdsConcat(xs: seq<Node>, ys: seq<Node>)
    ensures Ids(xs + ys) == Ids(xs) + Ids(ys)
  {
    if xs == [] {
      assert xs + ys == ys;
    } else {
      assert (xs + ys)[1..] == xs[1..] + ys;
      IdsConcat(xs[1..], ys);
    }
  }

  lemma {:induction false} DistinctConcat(xs: seq<Node>, ys: seq<Node>)
    ensures DistinctIds(xs + ys) <==> DistinctIds(xs) && DistinctIds(ys) && Ids(xs) !! Ids(ys)
  {
    if xs == [] {
      assert xs + ys == ys;
    } else {
      assert (xs + ys)[1..] == xs[1..] + ys;
      DistinctConcat(xs[1..], ys);
      IdsConcat(xs[1..], ys);
    }
  }

  lemma {:induction false} KnownConcat(xs: seq<Node>, ys: seq<Node>, above: Option<nat>, info: map<nat, Info>)
    ensures Known(xs + ys, above, info) <==> Known(xs, above, info) && Known(ys, above, info)
  {
    if xs == [] {
      assert xs + ys == ys;
    } else {
      assert (xs + ys)[1..] == xs[1..] + ys;
      KnownConcat(xs[1..], ys, above, info);
    }
  }

  lemma {:induction false} KnownFrame(ns: seq<Node>, above: Option<nat>, info: map<nat, Info>, info': map<nat, Info>)
    requires Known(ns, above, info)
    requires forall id | id in Ids(ns) && id in info :: id in info' && info'[id] == info[id]
    ensures Known(ns, above, info')
    decreases ns
  {
    if ns != [] {
      KnownFrame(ns[0].children, Some(ns[0].id), info, info');
      KnownFrame(ns[1..], above, info, info');
    }
  }

  /** A command as it is registered, without any below it. */
  predicate IsLeaf(c: Node) {
    c.children == []
  }

  lemma LeafIds(c: Node)
    requires IsLeaf(c)
    ensures Ids([c]) == {c.id} && DistinctIds([c])
  {
    assert [c][1..] == [];
  }

  lemma ForestCons(n: Node, rest: seq<Node>)
    ensures Ids([n] + rest) == {n.id} + Ids(n.children) + Ids(rest)
    ensures DistinctIds([n] + rest) <==>
      && n.id !in Ids(n.children) && n.id !in Ids(rest) && Ids(n.children) !! Ids(rest)
      && DistinctIds(n.children) && DistinctIds(rest)
  {
    assert ([n] + rest)[1..] == rest;
  }

  lemma EmptyForest()
    ensures Ids([]) == {} && DistinctIds([])
  {
  }

  /** The tree gains exactly the new id, if `at` is in it. */
  lemma {:induction false} GrownIds(ns: seq<Node>, at: nat, c: Node)
    requires IsLeaf(c) && c.id !in Ids(ns) && DistinctIds(ns)
    ensures Ids(Grown(ns, at, c)) == Ids(ns) + (if at in Ids(ns) then {c.id} else {})
    ensures DistinctIds(Grown(ns, at, c))
    decreases ns
  {
    hide Ids, DistinctIds;
    EmptyForest();
    if ns != [] {
      var n, rest := ns[0], ns[1..];
      assert ns == [n] + rest;
      ForestCons(n, rest);
      LeafIds(c);
      if n.id == at {
        IdsConcat(n.children, [c]);
        DistinctConcat(n.children, [c]);
        ForestCons(n.(children := n.children + [c]), rest);
      } else {
        GrownIds(n.children, at, c);
        GrownIds(rest, at, c);
        ForestCons(n.(children := Grown(n.children, at, c)), Grown(rest, at, c));
      }
    }
  }

  lemma {:induction false} GrownKnown(ns: seq<Node>, above: Option<nat>, info: map<nat, Info>, at: nat, c: Node)
    requires Known(ns, above, info) && IsLeaf(c) && at < c.id
    requires c.id in info && info[c.id] == Info(c.name, Some(at))
    ensures Known(Grown(ns, at, c), above, info)
    decreases ns
  {
    if ns != [] {
      var n, g := ns[0], Grown(ns, at, c);
      assert g[1..] == if n.id == at then ns[1..] else Grown(ns[1..], at, c);
      if n.id == at {
        LeafKnown(c, Some(at), info);
        KnownConcat(n.children, [c], Some(n.id), info);
      } else {
        GrownKnown(n.children, Some(n.id), info, at, c);
        GrownKnown(ns[1..], above, info, at, c);
      }
    }
  }

  lemma LeafKnown(c: Node, above: Option<nat>, info: map<nat, Info>)
    requires IsLeaf(c) && c.id in info && info[c.id] == Info(c.name, above) && (above.Some? ==> above.value < c.id)
    ensures Known([c], above, info)
  {
    assert [c][1..] == [];
  }

  /** Registering keeps every command an object of its own, adds exactly one, and leaves what
      the parents tell in accord with the tree. */
  lemma RegisteredValid(f: Forest, above: Option<nat>, name: string, callback: bool, privilege: int, mode: int)
    requires f.Valid() && (above.Some? ==> above.value in Ids(f.commands))
    ensures var g := Registered(f, above, name, callback, privilege, mode);
      g.Valid() && Ids(g.commands) == Ids(f.commands) + {f.next}
  {
    var c := Node(f.next, name, callback, privilege, mode, []);
    var info := f.info[f.next := Info(name, above)];
    KnownFrame(f.commands, None, f.info, info);
    if above.Some? {
      GrownIds(f.commands, above.value, c);
      GrownKnown(f.commands, None, info, above.value, c);
    } else {
      LeafIds(c);
      LeafKnown(c, None, info);
      IdsConcat(f.commands, [c]);
      DistinctConcat(f.commands, [c]);
      KnownConcat(f.commands, [c], None, info);
    }
  }

  lemma {:induction false} WithoutKeeps(ns: seq<Node>, name: string, above: Option<nat>, info: map<nat, Info>)
    requires DistinctIds(ns) && Known(ns, above, info)
    ensures var r := Without(ns, name); Ids(r) <= Ids(ns) && DistinctIds(r) && Known(r, above, info)
  {
    if ns != [] && ns[0].name != name {
      WithoutKeeps(ns[1..], name, above, info);
      assert Without(ns, name)[1..] == Without(ns[1..], name);
    }
  }

  lemma CutBehind<T>(x: T, rest: seq<T>, i: nat)
    requires i < |rest|
    ensures var xs := [x] + rest; xs[..i + 1] + xs[i + 2..] == [x] + (rest[..i] + rest[i + 1..])
  {
    var xs := [x] + rest;
    assert xs[..i + 1] == [x] + rest[..i] && xs[i + 2..] == rest[i + 1..];
  }

  lemma WithoutCons(n: Node, rest: seq<Node>, name: string)
    ensures Without([n] + rest, name) == if n.name == name then rest else [n] + Without(rest, name)
  {
    assert ([n] + rest)[1..] == rest;
  }

  lemma {:induction false} FirstGoes(ns: seq<Node>, name: string, i: nat)
    requires i <= |ns| && (i < |ns| ==> ns[i].name == name) && forall j | 0 <= j < i :: ns[j].name != name
    ensures Without(ns, name) == if i < |ns| then ns[..i] + ns[i + 1..] else ns
  {
    hide Without;
    if ns == [] {
      NothingGoes(name);
    } else {
      var n, rest := ns[0], ns[1..];
      assert ns == [n] + rest;
      WithoutCons(n, rest, name);
      if i > 0 {
        FirstGoes(rest, name, i - 1);
        if i < |ns| {
          CutBehind(n, rest, i - 1);
        }
      }
    }
  }

  lemma NothingGoes(name: string)
    ensures Without([], name) == []
  {
  }

  // ---------------------------------------------------------------------------------------
  // What is registered is there as registered
  // ---------------------------------------------------------------------------------------

  /** The command with that id, wherever it stands. */
  ghost function At(ns: seq<Node>, id: nat): Option<Node>
    decreases ns
  {
    if ns == [] then None
    else if ns[0].id == id then Some(ns[0])
    else if At(ns[0].children, id).Some? then At(ns[0].children, id)
    else At(ns[1..], id)
  }

  /** Which siblings there are, in their order. */
  ghost function Order(ns: seq<Node>): seq<nat> {
    if ns == [] then [] else [ns[0].id] + Order(ns[1..])
  }

  /** The same command, with `more` behind the commands directly below it. */
  ghost predicate Extends(n: Option<Node>, m: Option<Node>, more: seq<nat>) {
    && n.Some? && m.Some?
    && m.value.id == n.value.id && m.value.name == n.value.name && m.value.callback == n.value.callback
    && m.value.privilege == n.value.privilege && m.value.mode == n.value.mode
    && Order(m.value.children) == Order(n.value.children) + more
  }

  /** The tree has a new command that carries what was given, without any below it, last among
      those below its parent or among the roots; every other command is as it was. */
  ghost predicate Gained(was: seq<Node>, now: seq<Node>, id: nat, above: Option<nat>,
                         name: string, callback: bool, privilege: int, mode: int) {
    && At(now, id).Some?
    && (var c := At(now, id).value;
        && c.name == name && c.callback == callback && c.privilege == privilege && c.mode == mode
        && c.children == [])
    && Order(now) == Order(was) + (if above.None? then [id] else [])
    && forall j | j in Ids(was) :: Extends(At(was, j), At(now, j), if above == Some(j) then [id] else [])
  }

  lemma {:induction false} AtIds(ns: seq<Node>, id: nat)
    ensures id in Ids(ns) <==> At(ns, id).Some?
    ensures id in Ids(ns) ==> At(ns, id).value.id == id
    decreases ns
  {
    if ns != [] && ns[0].id != id {
      AtIds(ns[0].children, id);
      AtIds(ns[1..], id);
    }
  }

  lemma AtCons(n: Node, rest: seq<Node>, id: nat)
    ensures At([n] + rest, id) == if n.id == id then Some(n)
                                  else if At(n.children, id).Some? then At(n.children, id)
                                  else At(rest, id)
    ensures Order([n] + rest) == [n.id] + Order(rest)
  {
    assert ([n] + rest)[1..] == rest;
  }

  lemma {:induction false} OrderConcat(xs: seq<Node>, ys: seq<Node>)
    ensures Order(xs + ys) == Order(xs) + Order(ys)
  {
    if xs == [] {
      assert xs + ys == ys;
    } else {
      assert (xs + ys)[1..] == xs[1..] + ys;
      OrderConcat(xs[1..], ys);
    }
  }

  lemma {:induction false} AtConcat(xs: seq<Node>, ys: seq<Node>, id: nat)
    ensures At(xs + ys, id) == if At(xs, id).Some? then At(xs, id) else At(ys, id)
  {
    if xs == [] {
      assert xs + ys == ys;
    } else {
      assert (xs + ys)[1..] == xs[1..] + ys;
      AtConcat(xs[1..], ys, id);
    }
  }

  lemma AtLeaf(c: Node, id: nat)
    ensures At([c], c.id) == Some(c) && Order([c]) == [c.id]
    ensures IsLeaf(c) && id != c.id ==> At([c], id) == None
  {
    assert [c][1..] == [];
  }

  lemma {:induction false} GrownOrder(ns: seq<Node>, at: nat, c: Node)
    ensures Order(Grown(ns, at, c)) == Order(ns)
  {
    if ns != [] && ns[0].id != at {
      GrownOrder(ns[1..], at, c);
    }
  }

  lemma ExtendsItself(n: Option<Node>)
    requires n.Some?
    ensures Extends(n, n, [])
  {
  }

  /** The commands that are already there. */
  lemma {:induction false} GrownKeeps(ns: seq<Node>, at: nat, c: Node, id: nat)
    requires IsLeaf(c) && c.id !in Ids(ns) && DistinctIds(ns) && id in Ids(ns)
    ensures Extends(At(ns, id), At(Grown(ns, at, c), id), if id == at then [c.id] else [])
    decreases ns
  {
    hide Ids, DistinctIds, At, Order, Extends, IsLeaf;
    EmptyForest();
    var n, rest := ns[0], ns[1..];
    assert ns == [n] + rest;
    ForestCons(n, rest);
    AtCons(n, rest, id);
    AtIds(n.children, id);
    AtIds(rest, id);
    if n.id == at {
      var m := n.(children := n.children + [c]);
      AtCons(m, rest, id);
      AtConcat(n.children, [c], id);
      AtLeaf(c, id);
      OrderConcat(n.children, [c]);
      if id == at {
        ExtendsBy(n, m, [c.id]);
      } else {
        ExtendsItself(At(ns, id));
      }
    } else {
      var m, more := n.(children := Grown(n.children, at, c)), Grown(rest, at, c);
      AtCons(m, more, id);
      GrownOrder(n.children, at, c);
      GrownIds(n.children, at, c);
      AtIds(m.children, id);
      if id == n.id {
        ExtendsBy(n, m, []);
      } else if id in Ids(n.children) {
        GrownKeeps(n.children, at, c, id);
      } else {
        GrownKeeps(rest, at, c, id);
      }
    }
  }

  lemma ExtendsBy(n: Node, m: Node, more: seq<nat>)
    requires m == n.(children := m.children) && Order(m.children) == Order(n.children) + more
    ensures Extends(Some(n), Some(m), more)
  {
  }

  /** The command that comes to be there. */
  lemma {:induction false} GrownGains(ns: seq<Node>, at: nat, c: Node)
    requires IsLeaf(c) && c.id !in Ids(ns) && DistinctIds(ns) && at in Ids(ns)
    ensures At(Grown(ns, at, c), c.id) == Some(c)
    decreases ns
  {
    hide Ids, DistinctIds, At, IsLeaf;
    EmptyForest();
    var n, rest := ns[0], ns[1..];
    assert ns == [n] + rest;
    ForestCons(n, rest);
    AtIds(n.children, c.id);
    if n.id == at {
      AtCons(n.(children := n.children + [c]), rest, c.id);
      AtConcat(n.children, [c], c.id);
      AtLeaf(c, c.id);
    } else {
      var m := n.(children := Grown(n.children, at, c));
      AtCons(m, Grown(rest, at, c), c.id);
      GrownIds(n.children, at, c);
      AtIds(m.children, c.id);
      if at in Ids(n.children) {
        GrownGains(n.children, at, c);
      } else {
        GrownGains(rest, at, c);
      }
    }
  }

  /** A command is in the tree as it was registered, in its place, and the others stay as they
      were. */
  lemma RegisteredGains(f: Forest, above: Option<nat>, name: string, callback: bool, privilege: int, mode: int)
    requires f.Valid() && (above.Some? ==> above.value in Ids(f.commands))
    ensures Gained(f.commands, Registered(f, above, name, callback, privilege, mode).commands,
                   f.next, above, name, callback, privilege, mode)
  {
    hide Ids, DistinctIds, At, Order, Extends, Known;
    var c := Node(f.next, name, callback, privilege, mode, []);
    var now := Registered(f, above, name, callback, privilege, mode).commands;
    if above.Some? {
      GrownGains(f.commands, above.value, c);
      GrownOrder(f.commands, above.value, c);
      forall j | j in Ids(f.commands)
        ensures Extends(At(f.commands, j), At(now, j), if above == Some(j) then [f.next] else [])
      {
        GrownKeeps(f.commands, above.value, c, j);
      }
    } else {
      AtLeaf(c, c.id);
      AtIds(f.commands, c.id);
      AtConcat(f.commands, [c], c.id);
      OrderConcat(f.commands, [c]);
      forall j | j in Ids(f.commands)
        ensures Extends(At(f.commands, j), At(now, j), [])
      {
        AtIds(f.commands, j);
        AtConcat(f.commands, [c], j);
        ExtendsItself(At(f.commands, j));
      }
    }
  }

  // ---------------------------------------------------------------------------------------
  // Every tree that can be registered
  // ---------------------------------------------------------------------------------------

  datatype Op =
    | Register(above: Option<nat>, name: string, callback: bool, privilege: int, mode: int)
    | Unregister(name: string)

  /** A parent is a command that is there. */
  ghost predicate Allowed(f: Forest, op: Op) {
    op.Register? && op.above.Some? ==> op.above.value in Ids(f.commands)
  }

  function Step(f: Forest, op: Op): Forest {
    match op
    case Register(above, name, callback, privilege, mode) => Registered(f, above, name, callback, privilege, mode)
    case Unregister(name) => Unregistered(f, name)
  }

  const EMPTY: Forest := Forest([], map[], 0)

  ghost function Grow(ops: seq<Op>): Forest {
    if ops == [] then EMPTY
    else
      var f := Grow(ops[..|ops| - 1]);
      if Allowed(f, ops[|ops| - 1]) then Step(f, ops[|ops| - 1]) else f
  }

  lemma {:induction false} GrowValid(ops: seq<Op>)
    ensures Grow(ops).Valid()
  {
    if ops != [] {
      var f := Grow(ops[..|ops| - 1]);
      GrowValid(ops[..|ops| - 1]);
      match ops[|ops| - 1]
      case Register(above, name, callback, privilege, mode) =>
        if Allowed(f, ops[|ops| - 1]) {
          RegisteredValid(f, above, name, callback, privilege, mode);
        }
      case Unregister(name) => WithoutKeeps(f.commands, name, None, f.info);
    }
  }

  /** Unregistering changes none of the commands that remain. */
  lemma {:induction false} WithoutAt(ns: seq<Node>, name: string, id: nat)
    requires DistinctIds(ns) && id in Ids(Without(ns, name))
    ensures id in Ids(ns) && At(Without(ns, name), id) == At(ns, id)
  {
    hide Ids, DistinctIds, At;
    EmptyForest();
    if ns != [] {
      var n, rest := ns[0], ns[1..];
      assert ns == [n] + rest;
      ForestCons(n, rest);
      AtCons(n, rest, id);
      AtIds(n.children, id);
      if n.name != name {
        ForestCons(n, Without(rest, name));
        AtCons(n, Without(rest, name), id);
        if n.id != id && id !in Ids(n.children) {
          WithoutAt(rest, name, id);
        }
      }
    }
  }

  /** Step k registered the command with that id, and n is as it was registered there. */
  ghost predicate Origin(ops: seq<Op>, k: nat, n: Node) {
    && k < |ops| && ops[k].Register? && Grow(ops[..k]).next == n.id && Allowed(Grow(ops[..k]), ops[k])
    && n.name == ops[k].name && n.callback == ops[k].callback
    && n.privilege == ops[k].privilege && n.mode == ops[k].mode
  }

  lemma OriginSnoc(ops: seq<Op>, op: Op, k: nat, n: Node, m: Node)
    requires Origin(ops, k, n) && m == n.(children := m.children)
    ensures Origin(ops + [op], k, m)
  {
    hide Grow, Allowed;
    assert (ops + [op])[..k] == ops[..k];
  }

  lemma OriginLast(ops: seq<Op>, op: Op, n: Node)
    requires op.Register? && Grow(ops).next == n.id && Allowed(Grow(ops), op)
    requires n.name == op.name && n.callback == op.callback && n.privilege == op.privilege && n.mode == op.mode
    ensures Origin(ops + [op], |ops|, n)
  {
    hide Grow, Allowed;
    assert (ops + [op])[..|ops|] == ops;
  }

  /** Whatever has been registered and unregistered: every command in the tree carries exactly
      what it was registered with. */
  lemma {:induction false} EveryCommandHasOrigin(ops: seq<Op>, id: nat) returns (k: nat)
    requires id in Ids(Grow(ops).commands)
    ensures At(Grow(ops).commands, id).Some? && Origin(ops, k, At(Grow(ops).commands, id).value)
  {
    hide Ids, DistinctIds, At, Known, Origin, Order;
    EmptyForest();
    var init, op := ops[..|ops| - 1], ops[|ops| - 1];
    assert ops == init + [op];
    var f := Grow(init);
    GrowValid(init);
    AtIds(f.commands, id);
    AtIds(Grow(ops).commands, id);
    if !Allowed(f, op) {
      k := EveryCommandHasOrigin(init, id);
      OriginSnoc(init, op, k, At(f.commands, id).value, At(f.commands, id).value);
    } else if op.Unregister? {
      WithoutAt(f.commands, op.name, id);
      k := EveryCommandHasOrigin(init, id);
      OriginSnoc(init, op, k, At(f.commands, id).value, At(f.commands, id).value);
    } else {
      RegisteredValid(f, op.above, op.name, op.callback, op.privilege, op.mode);
      RegisteredGains(f, op.above, op.name, op.callback, op.privilege, op.mode);
      if id == f.next {
        k := |init|;
        OriginLast(init, op, At(Grow(ops).commands, id).value);
      } else {
        k := EveryCommandHasOrigin(init, id);
        OriginSnoc(init, op, k, At(f.commands, id).value, At(Grow(ops).commands, id).value);
      }
    }
  }

  lemma {:induction false} KnownAt(ns: seq<Node>, above: Option<nat>, info: map<nat, Info>, i: nat)
    requires Known(ns, above, info) && i < |ns|
    ensures ns[i].id in info && info[ns[i].id] == Info(ns[i].name, above)
    ensures above.Some? ==> above.value < ns[i].id
    ensures Known(ns[i].children, Some(ns[i].id), info)
    decreases i
  {
    if i > 0 {
      KnownAt(ns[1..], above, info, i - 1);
    }
  }

  /** The parent that a command tells is in the tree, and older. */
  lemma {:induction false} ParentIsThere(ns: seq<Node>, above: Option<nat>, info: map<nat, Info>, id: nat)
    requires Known(ns, above, info) && id in Ids(ns)
    ensures id in info && (info[id].above.Some? ==> info[id].above.value < id)
    ensures info[id].above == above || (info[id].above.Some? && info[id].above.value in Ids(ns))
    decreases ns
  {
    if id in Ids(ns[0].children) {
      ParentIsThere(ns[0].children, Some(ns[0].id), info, id);
    } else if id != ns[0].id {
      ParentIsThere(ns[1..], above, info, id);
    }
  }

  /** The parents of a command tell the names on its path. */
  lemma {:induction false} ChainIsPath(ns: seq<Node>, above: Option<nat>, info: map<nat, Info>,
                                       path: seq<nat>, env: Env)
    requires Known(ns, above, info) && Typable(ns, path, env)
    ensures Chain(info, EndOf(ns, path, env).id)
         == (if above.Some? then Chain(info, above.value) else []) + Names(ns, path, env)
    decreases |path|
  {
    var c := ns[path[0]];
    KnownAt(ns, above, info, path[0]);
    if |path| > 1 {
      ChainIsPath(c.children, Some(c.id), info, path[1..], env);
      var up := if above.Some? then Chain(info, above.value) else [];
      Regroup(up, c.name, Names(c.children, path[1..], env));
    }
  }

  /** Whatever commands are registered, and in whatever state a session on them is: typing what
      `CommandName` gives for a command that is visible runs that command. */
  lemma RegisteredRoundTrip(ops: seq<Op>, x: Context, begin: State, maxWords: int, inputs: seq<Input>, path: seq<nat>)
    requires x.shell.commands == Grow(ops).commands && x.shell.modeAny != x.shell.modeConfig && |path| <= Room(maxWords)
    requires Typable(x.shell.commands, path, x.shell.EnvOf(AfterInputs(x.shell, begin, maxWords, inputs)))
    ensures var s := AfterInputs(x.shell, begin, maxWords, inputs);
      var call := Call(EndOf(x.shell.commands, path, x.shell.EnvOf(s)).id, []);
      var o := RunLine(x, Titled(Chain(Grow(ops).info, call.id)), maxWords, s);
      && s.calls + [call] <= o.s.calls
      && (x.answer(call.id).rc != ErrorArg ==> o.s == Called(x, call, s))
  {
    hide AfterInputs, RunLine, Titled, Typable, EndOf, Called, Names, Chain, Known, Grow, DistinctIds;
    var env := x.shell.EnvOf(AfterInputs(x.shell, begin, maxWords, inputs));
    GrowValid(ops);
    ChainIsPath(x.shell.commands, None, Grow(ops).info, path, env);
    assert [] + Names(x.shell.commands, path, env) == Names(x.shell.commands, path, env);
    SessionRoundTrip(x, begin, maxWords, inputs, path);
  }

  // ---------------------------------------------------------------------------------------
  // In place
  // ---------------------------------------------------------------------------------------

  class CommandList {
    var commands: seq<Node>
    var info: map<nat, Info>
    var next: nat

    function Abs(): Forest
      reads this
    {
      Forest(commands, info, next)
    }

    constructor ()
      ensures Abs() == EMPTY
    {
      commands, info, next := [], map[], 0;
    }

    /** cli_register_command */
    method Register(above: Option<nat>, name: string, callback: bool, privilege: int, mode: int) returns (id: nat)
      requires Abs().Valid() && (above.Some? ==> above.value in Ids(commands))
      modifies this
      ensures Abs() == Registered(old(Abs()), above, name, callback, privilege, mode) && Abs().Valid()
      ensures id !in old(Ids(commands)) && Ids(commands) == old(Ids(commands)) + {id}
      ensures Gained(old(commands), commands, id, above, name, callback, privilege, mode)
    {
      RegisteredGains(Abs(), above, name, callback, privilege, mode);
      RegisteredValid(Abs(), above, name, callback, privilege, mode);
      id := next;
      var c := Node(id, name, callback, privilege, mode, []);
      next := next + 1;
      info := info[id := Info(name, above)];
      if above.Some? {
        commands := Grown(commands, above.value, c);
      } else {
        commands := commands + [c];
      }
    }

    /** cli_unregister_command */
    method Unregister(name: string)
      requires Abs().Valid()
      modifies this`commands
      ensures Abs() == Unregistered(old(Abs()), name) && Abs().Valid()
    {
      WithoutKeeps(commands, name, None, info);
      var i := 0;
      while i < |commands| && commands[i].name != name
        modifies {}
        invariant 0 <= i <= |commands| && forall j | 0 <= j < i :: commands[j].name != name
      {
        i := i + 1;
      }
      FirstGoes(commands, name, i);
      if i < |commands| {
        commands := commands[..i] + commands[i + 1..];
      }
    }

    /** cli_command_name: from the command up to the root, every name goes before those so far. */
    method CommandName(id: nat) returns (name: string)
      requires Abs().Valid() && id in Ids(commands)
      ensures name == Titled(Chain(info, id))
    {
      hide Titled;
      EmptyTitle();
      name := "";
      var c: Option<nat> := Some(id);
      ghost var rest: seq<string> := [];
      while c.Some?
        invariant c.Some? ==> c.value in Ids(commands)
        invariant Chain(info, id) == (if c.Some? then Chain(info, c.value) else []) + rest && name == Titled(rest)
        decreases if c.Some? then 1 + c.value else 0
      {
        ParentIsThere(commands, None, info, c.value);
        var i := info[c.value];
        TitledSplit(i.name, rest);
        Regroup(if i.above.Some? then Chain(info, i.above.value) else [], i.name, rest);
        name := i.name + (if name != "" then " " else "") + name;
        rest := [i.name] + rest;
        c := i.above;
      }
      assert [] + rest == rest;
    }
  }
}
