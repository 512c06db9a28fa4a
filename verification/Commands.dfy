/**
 The command tree of src/cli/base_cli_lib.c: shortest unambiguous prefixes
 (`cli_build_shortest`).

 A node is a value; its `id` stands for its address, and `unique_len`, the one field that
 changes, is kept in a table by id.
 */
module Commands {

  datatype Node = Node(id: nat, name: string, callback: bool, privilege: int, mode: int, children: seq<Node>)

  /** The session, and the two modes that have a meaning of their own. */
  datatype Env = Env(mode: int, privilege: int, modeAny: int, modeConfig: int)

  predicate Visible(n: Node, env: Env) {
    (n.mode == env.modeAny || n.mode == env.mode) && n.privilege <= env.privilege
  }

  // ---------------------------------------------------------------------------------------
  // Comparing names
  // ---------------------------------------------------------------------------------------

  function Lower(c: char): char {
    if 'A' <= c <= 'Z' then c - 'A' + 'a' else c
  }

  /** Only the letters of ASCII have two cases, 32 codes apart. */
  lemma LowerCodes(c: char)
    ensures Lower(c) as int == c as int + if 65 <= c as int <= 90 then 32 else 0
  {
  }

  /** strncasecmp(a, b, n) == 0 */
  function SameUpTo(a: string, b: string, n: nat): bool {
    if n == 0 then true
    else if a == "" || b == "" then a == b
    else Lower(a[0]) == Lower(b[0]) && SameUpTo(a[1..], b[1..], n - 1)
  }

  /** The two tests of the lookup: the word is compared up to the unique length of the command
      and up to its own length. */
  predicate Matches(name: string, unique: nat, w: string) {
    SameUpTo(name, w, unique) && SameUpTo(name, w, |w|)
  }

  /** w is the beginning of the name, letter case aside. */
  predicate Abbreviates(w: string, name: string) {
    |w| <= |name| && forall i | 0 <= i < |w| :: Lower(w[i]) == Lower(name[i])
  }

  /** How many characters the names have in common at the start. */
  function Common(a: string, b: string): (k: nat)
    ensures k <= |a| && k <= |b|
    ensures a[..k] == b[..k]
    ensures k < |a| && k < |b| ==> a[k] != b[k]
  {
    if a == "" || b == "" || a[0] != b[0] then 0
    else
      var k := Common(a[1..], b[1..]);
      assert a[..k + 1] == [a[0]] + a[1..][..k] && b[..k + 1] == [b[0]] + b[1..][..k];
      k + 1
  }

  function Max(a: nat, b: nat): nat {
    if a > b then a else b
  }

  /** The unique length of c from the visible ones among ps. */
  function Longest(c: Node, ps: seq<Node>, env: Env): (r: nat)
    ensures r >= 1
  {
    if ps == [] then 1
    else
      var p := ps[|ps| - 1];
      var r := Longest(c, ps[..|ps| - 1], env);
      if p.id == c.id || !Visible(p, env) then r else Max(r, 1 + Common(c.name, p.name))
  }

  function UniqueLen(c: Node, siblings: seq<Node>, env: Env): nat {
    if Visible(c, env) then Longest(c, siblings, env) else |c.name|
  }

  lemma {:induction false} SameIsAbbreviation(a: string, w: string)
    ensures SameUpTo(a, w, |w|) <==> Abbreviates(w, a)
  {
    if w != "" && a != "" {
      SameIsAbbreviation(a[1..], w[1..]);
      if Abbreviates(w[1..], a[1..]) && Lower(a[0]) == Lower(w[0]) {
        forall i | 0 <= i < |w| ensures Lower(w[i]) == Lower(a[i]) {
          if i > 0 {
            assert w[i] == w[1..][i - 1] && a[i] == a[1..][i - 1];
          }
        }
      }
      if Abbreviates(w, a) {
        forall i | 0 <= i < |w[1..]| ensures Lower(w[1..][i]) == Lower(a[1..][i]) {
          assert w[1..][i] == w[i + 1] && a[1..][i] == a[i + 1];
        }
      }
    }
  }

  lemma {:induction false} SameUpToUnique(a: string, w: string, n: nat)
    requires Abbreviates(w, a)
    ensures SameUpTo(a, w, n) <==> n <= |w| || |w| == |a|
  {
    if n > 0 && w != "" {
      forall i | 0 <= i < |w[1..]| ensures Lower(w[1..][i]) == Lower(a[1..][i]) {
        assert w[1..][i] == w[i + 1] && a[1..][i] == a[i + 1];
      }
      SameUpToUnique(a[1..], w[1..], n - 1);
    }
  }

  /** What a word matches: an abbreviation that is at least as long as the unique length, or
      the whole name. */
  lemma MatchesMeans(name: string, unique: nat, w: string)
    ensures Matches(name, unique, w) <==> Abbreviates(w, name) && (|w| >= unique || |w| == |name|)
  {
    SameIsAbbreviation(name, w);
    if Abbreviates(w, name) {
      SameUpToUnique(name, w, unique);
    }
  }

  // ---------------------------------------------------------------------------------------
  // Abbreviations
  // ---------------------------------------------------------------------------------------

  predicate LowerCase(s: string) {
    forall i | 0 <= i < |s| :: Lower(s[i]) == s[i]
  }

  lemma {:induction false} LongestAtLeast(c: Node, ps: seq<Node>, env: Env, p: Node)
    requires p in ps && p.id != c.id && Visible(p, env)
    ensures Longest(c, ps, env) >= 1 + Common(c.name, p.name)
  {
    if ps[|ps| - 1] != p {
      LongestAtLeast(c, ps[..|ps| - 1], env, p);
    }
  }

  lemma {:induction false} LongestIsReached(c: Node, ps: seq<Node>, env: Env) returns (p: Node)
    requires Longest(c, ps, env) > 1
    ensures p in ps && p.id != c.id && Visible(p, env) && Longest(c, ps, env) == 1 + Common(c.name, p.name)
  {
    p := ps[|ps| - 1];
    if p.id == c.id || !Visible(p, env) || Longest(c, ps[..|ps| - 1], env) > 1 + Common(c.name, p.name) {
      p := LongestIsReached(c, ps[..|ps| - 1], env);
    }
  }

  lemma CommonIs(a: string, b: string, n: nat)
    requires n <= |a| && n <= |b| && a[..n] == b[..n]
    requires n < |a| && n < |b| ==> a[n] != b[n]
    ensures Common(a, b) == n
  {
  }

  /** How many characters the names have in common at the start, letter case aside. */
  function CommonAnyCase(a: string, b: string): (k: nat)
    ensures k <= |a| && k <= |b|
    ensures forall i | 0 <= i < k :: Lower(a[i]) == Lower(b[i])
    ensures k < |a| && k < |b| ==> Lower(a[k]) != Lower(b[k])
  {
    if a == "" || b == "" || Lower(a[0]) != Lower(b[0]) then 0 else 1 + CommonAnyCase(a[1..], b[1..])
  }

  /** The beginning shared by both names is long enough for both. */
  predicate Confusable(a: string, b: string, ua: nat, ub: nat) {
    var k := CommonAnyCase(a, b);
    k > 0 && (k >= ua || k == |a|) && (k >= ub || k == |b|)
  }

  lemma SharedIsShort(a: string, b: string, w: string)
    requires Abbreviates(w, a) && Abbreviates(w, b)
    ensures |w| <= CommonAnyCase(a, b)
  {
  }

  /** Exactly when some word matches both names: for any names and lengths. */
  lemma AmbiguousWord(a: string, b: string, ua: nat, ub: nat)
    ensures (exists w: string :: w != "" && Matches(a, ua, w) && Matches(b, ub, w)) <==> Confusable(a, b, ua, ub)
  {
    var k := CommonAnyCase(a, b);
    if Confusable(a, b, ua, ub) {
      var w := a[..k];
      MatchesMeans(a, ua, w);
      MatchesMeans(b, ub, w);
      assert w != "" && Matches(a, ua, w) && Matches(b, ub, w);
    }
    forall w: string | w != "" && Matches(a, ua, w) && Matches(b, ub, w) ensures Confusable(a, b, ua, ub) {
      MatchesMeans(a, ua, w);
      MatchesMeans(b, ub, w);
      SharedIsShort(a, b, w);
    }
  }

  lemma CommonIgnoresCase(a: string, b: string)
    requires LowerCase(a) && LowerCase(b)
    ensures CommonAnyCase(a, b) == Common(a, b)
  {
  }

  /** No word matches two visible siblings with different lower-case names. */
  lemma AbbreviationsAreSound(c: Node, p: Node, siblings: seq<Node>, env: Env, w: string)
    requires c in siblings && p in siblings && c.id != p.id && Visible(c, env) && Visible(p, env)
    requires LowerCase(c.name) && LowerCase(p.name) && c.name != p.name && w != ""
    ensures !(Matches(c.name, UniqueLen(c, siblings, env), w) && Matches(p.name, UniqueLen(p, siblings, env), w))
  {
    var k := Common(c.name, p.name);
    AmbiguousWord(c.name, p.name, UniqueLen(c, siblings, env), UniqueLen(p, siblings, env));
    CommonIgnoresCase(c.name, p.name);
    CommonIgnoresCase(p.name, c.name);
    CommonTwoWays(c.name, p.name);
    LongestAtLeast(c, siblings, env, p);
    LongestAtLeast(p, siblings, env, c);
    assert c.name[..|c.name|] == c.name && p.name[..|p.name|] == p.name;
  }

  lemma CommonTwoWays(a: string, b: string)
    ensures Common(a, b) == Common(b, a)
  {
  }

  /** Every beginning of the name that is long enough, and the whole name, matches; every
      shorter one also begins the name of another visible sibling. */
  lemma AbbreviationsAreMinimal(c: Node, siblings: seq<Node>, env: Env, n: nat) returns (p: Node)
    requires c in siblings && Visible(c, env) && 0 < n <= |c.name|
    ensures var u := UniqueLen(c, siblings, env);
      && (n >= u || n == |c.name| <==> Matches(c.name, u, c.name[..n]))
      && (n < u && n < |c.name| ==>
            p in siblings && p.id != c.id && Visible(p, env) && n <= |p.name| && p.name[..n] == c.name[..n])
  {
    MatchesMeans(c.name, UniqueLen(c, siblings, env), c.name[..n]);
    p := c;
    if n < UniqueLen(c, siblings, env) {
      p := LongestIsReached(c, siblings, env);
      var k := Common(c.name, p.name);
      assert c.name[..n] == c.name[..k][..n] == p.name[..k][..n] == p.name[..n];
    }
  }

  /** The lengths are computed with letter case and the words compared without: names that
      share more letters than characters are not told apart. */
  lemma MixedCaseIsAmbiguous()
    ensures var a := Node(0, "Stop", true, 0, 0, []); var b := Node(1, "start", true, 0, 0, []);
      var env := Env(0, 0, -1, 1);
      Matches(a.name, UniqueLen(a, [a, b], env), "s") && Matches(b.name, UniqueLen(b, [a, b], env), "s")
  {
    var a, b := Node(0, "Stop", true, 0, 0, []), Node(1, "start", true, 0, 0, []);
    var env := Env(0, 0, -1, 1);
    assert [a, b][..1] == [a] && [a][..0] == [];
    assert Longest(a, [], env) == 1 && Longest(a, [a], env) == 1 && Longest(a, [a, b], env) == 1;
    assert Longest(b, [a], env) == 1 && Longest(b, [a, b], env) == 1;
    MatchesMeans(a.name, 1, "s");
    MatchesMeans(b.name, 1, "s");
  }

  // ---------------------------------------------------------------------------------------
  // Building the lengths
  // ---------------------------------------------------------------------------------------

  /** The ids in a forest. */
  ghost function Ids(ns: seq<Node>): set<nat> {
    if ns == [] then {} else {ns[0].id} + Ids(ns[0].children) + Ids(ns[1..])
  }

  /** No two nodes of the forest are the same object. */
  ghost predicate DistinctIds(ns: seq<Node>) {
    ns != [] ==>
      && ns[0].id !in Ids(ns[0].children) && ns[0].id !in Ids(ns[1..])
      && Ids(ns[0].children) !! Ids(ns[1..])
      && DistinctIds(ns[0].children) && DistinctIds(ns[1..])
  }

  /** The table after the siblings ns, part of `all`, have been gone through. */
  ghost function Built(lens: map<nat, nat>, ns: seq<Node>, all: seq<Node>, env: Env): map<nat, nat>
    decreases ns
  {
    if ns == [] then lens
    else
      var c := ns[0];
      var l1 := lens[c.id := UniqueLen(c, all, env)];
      var l2 := if Visible(c, env) then Built(l1, c.children, c.children, env) else l1;
      Built(l2, ns[1..], all, env)
  }

  /** The table holds the unique lengths of ns, part of `all`, and of everything below the
      visible ones. */
  ghost predicate Shortened(lens: map<nat, nat>, ns: seq<Node>, all: seq<Node>, env: Env)
    decreases ns
  {
    ns != [] ==>
      var c := ns[0];
      && c.id in lens && lens[c.id] == UniqueLen(c, all, env)
      && (Visible(c, env) ==> Shortened(lens, c.children, c.children, env))
      && Shortened(lens, ns[1..], all, env)
  }

  lemma {:induction false} BuiltFrame(lens: map<nat, nat>, ns: seq<Node>, all: seq<Node>, env: Env, id: nat)
    requires id !in Ids(ns)
    ensures var l := Built(lens, ns, all, env); (id in l <==> id in lens) && (id in l ==> l[id] == lens[id])
    decreases ns
  {
    if ns != [] {
      var c := ns[0];
      var l1 := lens[c.id := UniqueLen(c, all, env)];
      var l2 := if Visible(c, env) then Built(l1, c.children, c.children, env) else l1;
      BuiltFrame(l1, c.children, c.children, env, id);
      BuiltFrame(l2, ns[1..], all, env, id);
    }
  }

  lemma {:induction false} ShortenedFrame(lens: map<nat, nat>, lens': map<nat, nat>, ns: seq<Node>,
                                           all: seq<Node>, env: Env)
    requires Shortened(lens, ns, all, env)
    requires forall id | id in Ids(ns) && id in lens :: id in lens' && lens'[id] == lens[id]
    ensures Shortened(lens', ns, all, env)
    decreases ns
  {
    if ns != [] {
      if Visible(ns[0], env) {
        ShortenedFrame(lens, lens', ns[0].children, ns[0].children, env);
      }
      ShortenedFrame(lens, lens', ns[1..], all, env);
    }
  }

  /** Going through a forest leaves it shortened. */
  lemma {:induction false} BuiltShortens(lens: map<nat, nat>, ns: seq<Node>, all: seq<Node>, env: Env)
    requires DistinctIds(ns)
    ensures Shortened(Built(lens, ns, all, env), ns, all, env)
    decreases ns
  {
    if ns != [] {
      var c := ns[0];
      var l1 := lens[c.id := UniqueLen(c, all, env)];
      var l2 := if Visible(c, env) then Built(l1, c.children, c.children, env) else l1;
      var l3 := Built(l2, ns[1..], all, env);
      BuiltShortens(l2, ns[1..], all, env);
      BuiltFrame(l2, ns[1..], all, env, c.id);
      BuiltFrame(l1, c.children, c.children, env, c.id);
      if Visible(c, env) {
        BuiltShortens(l1, c.children, c.children, env);
        forall id | id in Ids(c.children) && id in l2 ensures id in l3 && l3[id] == l2[id] {
          BuiltFrame(l2, ns[1..], all, env, id);
        }
        ShortenedFrame(l2, l3, c.children, c.children, env);
      }
    }
  }
}
