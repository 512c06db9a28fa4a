/**
 Editing the command line: the buffer `cmd` with its length `l` and cursor, as the key branches
 of `cli_loop` in src/cli/base_cli_lib.c change it (outside the password states), against the
 same edits on the pair of the text before and the text behind the cursor.
 */
module LineEditor {

  datatype Key = Char(c: char) | Backspace | WordBack | Clear | Kill | Left | Right | Home | End

  datatype Text = Text(before: string, after: string) {
    function Line(): string {
      before + after
    }
  }

  // ---------------------------------------------------------------------------------------
  // The edits
  // ---------------------------------------------------------------------------------------

  predicate Blank(s: string) {
    forall i | 0 <= i < |s| :: s[i] == ' '
  }

  predicate NoBlank(s: string) {
    forall i | 0 <= i < |s| :: s[i] != ' '
  }

  /** Where the last word of s begins. */
  ghost predicate IsWordStart(s: string, spaces: nat, start: nat) {
    && start <= spaces <= |s|
    && Blank(s[spaces..]) && NoBlank(s[start..spaces])
    && (spaces > 0 ==> s[spaces - 1] != ' ') && (start > 0 ==> s[start - 1] == ' ')
  }

  ghost function TrimEnd(s: string): (n: nat)
    ensures n <= |s| && Blank(s[n..]) && (n > 0 ==> s[n - 1] != ' ')
  {
    if s == "" || s[|s| - 1] != ' ' then |s| else TrimEnd(s[..|s| - 1])
  }

  ghost function WordAt(s: string): (n: nat)
    ensures n <= |s| && NoBlank(s[n..]) && (n > 0 ==> s[n - 1] == ' ')
  {
    if s == "" || s[|s| - 1] == ' ' then |s| else WordAt(s[..|s| - 1])
  }

  ghost function WordStart(s: string): (n: nat)
    ensures n <= |s|
    ensures IsWordStart(s, TrimEnd(s), n)
  {
    WordAt(s[..TrimEnd(s)])
  }

  lemma WordStartBelow(s: string)
    requires s != ""
    ensures WordStart(s) < |s|
  {
  }

  lemma WordStartUnique(s: string, spaces: nat, start: nat)
    requires IsWordStart(s, spaces, start)
    ensures start == WordStart(s)
  {
  }

  ghost function DropLast(s: string): string {
    if s == "" then s else s[..|s| - 1]
  }

  /** What a key does to the text.  A NUL is not a key; a question mark at the end asks for help
      and does not stay. */
  ghost function Apply(t: Text, k: Key): Text {
    match k
    case Char(c) => if c == '\0' || (c == '?' && t.after == "") then t else Text(t.before + [c], t.after)
    case Backspace => Text(DropLast(t.before), t.after)
    case WordBack => Text(t.before[..WordStart(t.before)], t.after)
    case Clear => Text("", "")
    case Kill => Text(t.before, "")
    case Left => if t.before == "" then t else Text(DropLast(t.before), [t.before[|t.before| - 1]] + t.after)
    case Right => if t.after == "" then t else Text(t.before + [t.after[0]], t.after[1..])
    case Home => Text("", t.Line())
    case End => Text(t.Line(), "")
  }

  ghost function Edited(t: Text, ks: seq<Key>): Text {
    if ks == [] then t else Apply(Edited(t, ks[..|ks| - 1]), ks[|ks| - 1])
  }

  /** There is room in a buffer of max cells for a character. */
  predicate Fits(max: nat, l: nat, cursor: nat) {
    l + 2 < max || (cursor == l && l + 1 < max)
  }

  /** What becomes of the buffer: it holds the edited text, or its text is spoilt, or a cell
      outside of it has been accessed. */
  datatype Verdict = Kept | Spoilt | Outside

  /** The key leaves the buffer of max cells: clearing the line uses three times its length to
      wipe it off the screen, and deleting inside the line reads one cell behind the NUL. */
  predicate Leaves(max: nat, l: nat, cursor: nat, k: Key) {
    match k
    case Backspace => 0 < cursor < l && l + 1 >= max
    case WordBack => 0 < cursor < l && l + 1 >= max
    case Clear => 3 * l > max
    case _ => false
  }

  predicate Admits(max: nat, l: nat, cursor: nat, k: Key) {
    !Leaves(max, l, cursor, k) && (k.Char? && k.c != '\0' ==> Fits(max, l, cursor))
  }

  ghost predicate AdmitsAll(max: nat, t: Text, ks: seq<Key>) {
    forall i | 0 <= i < |ks| ::
      var u := Edited(t, ks[..i]); Admits(max, |u.Line()|, |u.before|, ks[i])
  }

  // ---------------------------------------------------------------------------------------
  // The buffer
  // ---------------------------------------------------------------------------------------

  class LineBuffer {
    const max: nat
    const cmd: array<char>
    var l: nat
    var cursor: nat

    /** The text is the first l characters, none of them NUL; everything behind is NUL. */
    ghost predicate Valid()
      reads this, cmd
    {
      && cmd.Length == max && cursor <= l < max
      && (forall i | 0 <= i < l :: cmd[i] != '\0')
      && (forall i | l <= i < max :: cmd[i] == '\0')
    }

    ghost function Abs(): Text
      requires Valid()
      reads this, cmd
    {
      Text(cmd[..cursor], cmd[cursor..l])
    }

    constructor (max: nat)
      requires max > 0
      ensures Valid() && fresh(cmd) && this.max == max && Abs() == Text("", "")
    {
      this.max := max;
      cmd := new char[max](_ => '\0');
      l, cursor := 0, 0;
    }

    /** A normal character.  At the end of a full line it overwrites the NUL and is refused; in
        the middle of one it drops the last character, a copy of which stays behind the line. */
    method Type(c: char) returns (taken: bool)
      requires Valid() && c != '\0'
      modifies this, cmd
      ensures Valid() <==> old(Fits(max, l, cursor))
      ensures Valid() ==> taken && Abs() == Text(old(Abs()).before + [c], old(Abs()).after)
      ensures !Valid() && taken ==> cmd.Length == max && 0 < cursor <= l < max && cmd[l] != '\0'
    {
      if cursor == l {
        taken := Append(c);
      } else {
        taken := true;
        InsertInside(c);
      }
    }

    method Append(c: char) returns (taken: bool)
      requires Valid() && c != '\0' && cursor == l
      modifies this, cmd
      ensures taken == Valid() == old(Fits(max, l, cursor))
      ensures Valid() ==> Abs() == Text(old(Abs()).before + [c], old(Abs()).after)
    {
      ghost var t := Abs();
      cmd[cursor] := c;
      taken := l < max - 1;
      if taken {
        l := l + 1;
        cursor := cursor + 1;
        assert cmd[..cursor] == t.before + [c];
      }
    }

    method InsertInside(c: char)
      requires Valid() && c != '\0' && cursor < l
      modifies this, cmd
      ensures Valid() <==> old(Fits(max, l, cursor))
      ensures Valid() ==> Abs() == Text(old(Abs()).before + [c], old(Abs()).after)
      ensures !Valid() ==> cmd.Length == max && 0 < cursor <= l < max && cmd[l] != '\0'
    {
      ghost var t, fits, cells := Abs(), Fits(max, l, cursor), cmd[..];
      if l >= max - 2 {
        l := l - 1;
      }
      ShiftRight();
      cmd[cursor] := c;
      l := l + 1;
      cursor := cursor + 1;
      if fits {
        assert cmd[..cursor] == t.before + [c] && cmd[cursor..l] == t.after;
      } else {
        assert cmd[l] == cells[l - 1];
      }
    }

    /** Everything from the cursor to l moves one cell to the right. */
    method ShiftRight()
      requires cmd.Length == max && cursor <= l && l + 1 < max
      modifies cmd
      ensures forall i | 0 <= i <= cursor || l + 1 < i < max :: cmd[i] == old(cmd[i])
      ensures forall i | cursor < i <= l + 1 :: cmd[i] == old(cmd[i - 1])
    {
      var i: int := l;
      while i >= cursor
        invariant cursor - 1 <= i <= l
        invariant forall j | 0 <= j <= i || j == cursor || l + 1 < j < max :: cmd[j] == old(cmd[j])
        invariant forall j | i + 1 < j <= l + 1 :: cmd[j] == old(cmd[j - 1])
      {
        cmd[i + 1] := cmd[i];
        i := i - 1;
      }
    }

    /** One step of deleting backwards. */
    method DeleteBack() returns (inside: bool)
      requires Valid() && cursor > 0
      modifies this, cmd
      ensures inside <==> old(cursor == l || l + 1 < max)
      ensures inside ==> Valid() && Abs() == Text(DropLast(old(Abs()).before), old(Abs()).after)
      ensures inside ==> cursor == old(cursor) - 1 && l == old(l) - 1
    {
      ghost var t := Abs();
      inside := true;
      if l == cursor {
        cursor := cursor - 1;
        cmd[cursor] := '\0';
      } else {
        cursor := cursor - 1;
        inside := ShiftLeft();
      }
      l := l - 1;
      assert inside ==> cmd[..cursor] == DropLast(t.before) && cmd[cursor..l] == t.after;
    }

    /** Everything behind the cursor moves one cell to the left; stops before an access that
        leaves the buffer. */
    method ShiftLeft() returns (inside: bool)
      requires cmd.Length == max && cursor <= l < max
      modifies cmd
      ensures inside <==> l + 1 < max
      ensures inside ==> forall i | 0 <= i < cursor || l < i < max :: cmd[i] == old(cmd[i])
      ensures inside ==> forall i | cursor <= i <= l :: cmd[i] == old(cmd[i + 1])
    {
      var i := cursor;
      while i <= l
        invariant cursor <= i <= l + 1 && (i == l + 1 ==> l + 1 < max)
        invariant forall j | 0 <= j < cursor || i <= j < max :: cmd[j] == old(cmd[j])
        invariant forall j | cursor <= j < i :: cmd[j] == old(cmd[j + 1])
      {
        if i + 1 >= cmd.Length {
          return false;
        }
        cmd[i] := cmd[i + 1];
        i := i + 1;
      }
      return true;
    }

    /** How many characters the last word before the cursor takes, with the spaces behind it. */
    method WordLength() returns (back: nat)
      requires Valid()
      ensures back == cursor - WordStart(cmd[..cursor])
    {
      back := 0;
      var nc := cursor;
      while nc > 0 && cmd[nc - 1] == ' '
        invariant 0 <= nc <= cursor && back == cursor - nc
        invariant forall i | nc <= i < cursor :: cmd[i] == ' '
      {
        nc := nc - 1;
        back := back + 1;
      }
      ghost var spaces := nc;
      while nc > 0 && cmd[nc - 1] != ' '
        invariant 0 <= nc <= spaces && back == cursor - nc
        invariant forall i | nc <= i < spaces :: cmd[i] != ' '
      {
        nc := nc - 1;
        back := back + 1;
      }
      WordStartUnique(cmd[..cursor], spaces, nc);
    }

    /** Backspace, and Ctrl-W that is the same as often as the last word is long. */
    method Back(word: bool) returns (inside: bool)
      requires Valid()
      modifies this, cmd
      ensures inside <==> !old(Leaves(max, l, cursor, if word then WordBack else Backspace))
      ensures inside ==> Valid() && Abs() == Apply(old(Abs()), if word then WordBack else Backspace)
    {
      var back := 0;
      if l == 0 || cursor == 0 {
        return true;
      }
      if word {
        back := WordLength();
        WordStartBelow(cmd[..cursor]);
      } else {
        back := 1;
      }
      inside := DeleteTimes(back);
    }

    method DeleteTimes(n: nat) returns (inside: bool)
      requires Valid() && 0 < n <= cursor
      modifies this, cmd
      ensures inside <==> old(cursor == l || l + 1 < max)
      ensures inside ==> Valid() && Abs() == Text(old(Abs()).before[..old(cursor) - n], old(Abs()).after)
    {
      hide WordStart;
      ghost var t, fits := Abs(), cursor == l || l + 1 < max;
      var back := n;
      inside := true;
      while back > 0
        invariant Valid() && 0 <= back <= cursor <= |t.before|
        invariant if back == n then fits <==> cursor == l || l + 1 < max else fits && (cursor == l || l + 1 < max)
        invariant Abs() == Text(t.before[..cursor], t.after) && cursor - back == |t.before| - n
      {
        inside := DeleteBack();
        if !inside {
          return;
        }
        assert DropLast(t.before[..cursor + 1]) == t.before[..cursor];
        back := back - 1;
      }
    }

    /** Ctrl-U: the buffer serves to build what wipes the line off the screen; stops before an
        access that leaves it. */
    method ClearLine() returns (inside: bool)
      requires Valid()
      modifies this, cmd
      ensures inside <==> old(3 * l <= max)
      ensures inside ==> Valid() && Abs() == Text("", "")
    {
      var i := 0;
      while i < l
        modifies cmd
        invariant 0 <= i <= l && (forall j | l <= j < max :: cmd[j] == '\0')
      {
        cmd[i] := '\U{08}';
        i := i + 1;
      }
      while i < l * 2
        modifies cmd
        invariant l <= i <= l * 2 && i <= max && (forall j | i <= j < max :: cmd[j] == '\0')
      {
        if i >= cmd.Length {
          return false;
        }
        cmd[i] := ' ';
        i := i + 1;
      }
      while i < l * 3
        modifies cmd
        invariant l * 2 <= i <= l * 3 && i <= max && (forall j | i <= j < max :: cmd[j] == '\0')
      {
        if i >= cmd.Length {
          return false;
        }
        cmd[i] := '\U{08}';
        i := i + 1;
      }
      Zero(0, i);
      l, cursor := 0, 0;
      inside := true;
    }

    /** memset(cmd + from, 0, to - from) */
    method Zero(from: nat, to: nat)
      requires from <= to <= cmd.Length
      modifies cmd
      ensures forall i | 0 <= i < cmd.Length :: cmd[i] == if from <= i < to then '\0' else old(cmd[i])
    {
      var i := from;
      while i < to
        invariant from <= i <= to
        invariant forall j | 0 <= j < cmd.Length :: cmd[j] == if from <= j < i then '\0' else old(cmd[j])
      {
        cmd[i] := '\0';
        i := i + 1;
      }
    }

    /** Ctrl-K */
    method KillLine()
      requires Valid()
      modifies this, cmd
      ensures Valid() && Abs() == Text(old(Abs()).before, "")
    {
      if cursor != l {
        ghost var t := Abs();
        Zero(cursor, l);
        l := cursor;
        assert cmd[..cursor] == t.before;
      }
    }

    /** The cursor keys. */
    method Move(k: Key)
      requires Valid() && (k.Left? || k.Right? || k.Home? || k.End?)
      modifies this`cursor
      ensures Valid() && Abs() == Apply(old(Abs()), k)
    {
      ghost var t := Abs();
      match k {
        case Left =>
          if cursor > 0 {
            cursor := cursor - 1;
            assert cmd[cursor..l] == [cmd[cursor]] + t.after && cmd[..cursor] == DropLast(t.before);
          }
        case Right =>
          if cursor < l {
            cursor := cursor + 1;
            assert cmd[..cursor] == t.before + [t.after[0]] && cmd[cursor..l] == t.after[1..];
          }
        case Home =>
          cursor := 0;
          assert cmd[0..l] == t.Line();
        case End =>
          cursor := l;
          assert cmd[..l] == t.Line();
      }
    }

    /** A character key.  Asking for help hands out the line with the question mark and goes on
        with what was there before. */
    method Press(c: char) returns (asked: string)
      requires Valid() && c != '\0'
      modifies this, cmd
      ensures Valid() <==> old(Fits(max, l, cursor))
      ensures Valid() ==> Abs() == Apply(old(Abs()), Char(c))
      ensures Valid() ==> asked == if c == '?' && old(cursor == l) then old(Abs()).before + "?" else ""
    {
      ghost var t := Abs();
      asked := "";
      var taken := Type(c);
      ghost var kept := Valid();
      if taken && c == '?' && cursor == l {
        asked := cmd[..l];
        l, cursor := l - 1, l - 1;
        cmd[l] := '\0';
        assert kept ==> cmd[..cursor] == t.before;
        assert !kept ==> cmd[l + 1] != '\0';
      }
    }

    /** One key. */
    method Act(k: Key) returns (v: Verdict)
      requires Valid()
      modifies this, cmd
      ensures v == Outside <==> old(Leaves(max, l, cursor, k))
      ensures v == Kept <==> old(Admits(max, l, cursor, k))
      ensures v == Kept ==> Valid() && Abs() == Apply(old(Abs()), k)
      ensures v == Spoilt ==> !Valid()
    {
      hide WordStart;
      var inside := true;
      v := Kept;
      match k {
        case Char(c) =>
          if c != '\0' {
            var fits := Fits(max, l, cursor);
            var _ := Press(c);
            v := if fits then Kept else Spoilt;
          }
        case Backspace =>
          inside := Back(false);
        case WordBack =>
          inside := Back(true);
        case Clear =>
          inside := ClearLine();
        case Kill =>
          KillLine();
        case _ =>
          Move(k);
      }
      if !inside {
        v := Outside;
      }
    }

    /** Reading keys until none is left, or the first one that the buffer does not survive. */
    method Edit(ks: seq<Key>) returns (v: Verdict, n: nat)
      requires Valid()
      modifies this, cmd
      ensures v == Kept <==> AdmitsAll(max, old(Abs()), ks)
      ensures v == Kept ==> Valid() && Abs() == Edited(old(Abs()), ks)
      ensures v != Kept ==> n < |ks| && AdmitsAll(max, old(Abs()), ks[..n])
      ensures v != Kept ==> var t := Edited(old(Abs()), ks[..n]);
        v == Outside <==> Leaves(max, |t.Line()|, |t.before|, ks[n])
    {
      hide Apply, Admits, Leaves;
      ghost var t := Abs();
      v, n := Kept, 0;
      while n < |ks|
        invariant 0 <= n <= |ks| && v == Kept && Valid() && Abs() == Edited(t, ks[..n])
        invariant AdmitsAll(max, t, ks[..n])
      {
        assert ks[..n + 1][..n] == ks[..n];
        assert |Abs().Line()| == l && |Abs().before| == cursor;
        v := Act(ks[n]);
        AdmitsNext(max, t, ks, n);
        if v != Kept {
          return;
        }
        n := n + 1;
      }
      assert ks[..n] == ks;
    }
  }

  /** The keys up to n are admitted; so are those up to n + 1, or not all of them. */
  lemma AdmitsNext(max: nat, t: Text, ks: seq<Key>, n: nat)
    requires n < |ks| && AdmitsAll(max, t, ks[..n])
    ensures var u := Edited(t, ks[..n]); var ok := Admits(max, |u.Line()|, |u.before|, ks[n]);
      (ok <==> AdmitsAll(max, t, ks[..n + 1])) && (!ok ==> !AdmitsAll(max, t, ks))
  {
    hide Edited, Admits;
    assert forall i | 0 <= i <= n :: ks[..n + 1][..i] == ks[..i];
    assert forall i | 0 <= i < n :: ks[..n][..i] == ks[..i];
  }

  // ---------------------------------------------------------------------------------------
  // What the keys undo
  // ---------------------------------------------------------------------------------------

  /** The keys that type a string. */
  ghost function Keys(w: string): seq<Key> {
    seq(|w|, i requires 0 <= i < |w| => Char(w[i]))
  }

  lemma {:induction false} TypingAppends(t: Text, w: string)
    requires '\0' !in w && (t.after != "" || '?' !in w)
    ensures Edited(t, Keys(w)) == Text(t.before + w, t.after)
  {
    if w == "" {
      assert t.before + w == t.before;
    } else {
      var n := |w| - 1;
      assert Keys(w)[..n] == Keys(w[..n]);
      TypingAppends(t, w[..n]);
      assert w == w[..n] + [w[n]];
      assert t.before + w == t.before + w[..n] + [w[n]];
    }
  }

  lemma {:induction false} EditedAppend(t: Text, ks: seq<Key>, more: seq<Key>)
    ensures Edited(t, ks + more) == Edited(Edited(t, ks), more)
  {
    hide Apply;
    if more == [] {
      assert ks + more == ks;
    } else {
      var n := |more| - 1;
      EditedAppend(t, ks, more[..n]);
      assert (ks + more)[..|ks| + n] == ks + more[..n];
    }
  }

  /** Ctrl-W takes back a word typed at the start of a line or behind a space, with any spaces
      typed behind it. */
  lemma WordBackUndoesWord(t: Text, w: string, spaces: string)
    requires w != "" && NoBlank(w) && Blank(spaces) && '\0' !in w && (t.after != "" || '?' !in w + spaces)
    requires t.before == "" || t.before[|t.before| - 1] == ' '
    ensures Edited(t, Keys(w + spaces) + [WordBack]) == t
  {
    var s := t.before + (w + spaces);
    TypingAppends(t, w + spaces);
    EditedAppend(t, Keys(w + spaces), [WordBack]);
    WordBehind(t.before, w, spaces);
    OneKey(Text(s, t.after), WordBack);
  }

  lemma OneKey(t: Text, k: Key)
    ensures Edited(t, [k]) == Apply(t, k)
  {
  }

  lemma WordBehind(before: string, w: string, spaces: string)
    requires w != "" && NoBlank(w) && Blank(spaces) && (before == "" || before[|before| - 1] == ' ')
    ensures var s := before + (w + spaces); WordStart(s) == |before| && s[..WordStart(s)] == before
  {
    var s, n := before + (w + spaces), |before|;
    assert s[n + |w|..] == spaces && s[n..n + |w|] == w && s[..n] == before;
    WordStartUnique(s, n + |w|, n);
  }

  /** Moving the cursor does not change the line. */
  lemma MovesKeepLine(t: Text, k: Key)
    requires k.Left? || k.Right? || k.Home? || k.End?
    ensures Apply(t, k).Line() == t.Line()
  {
  }

  lemma Keyed(t: Text, ks: seq<Key>, k: Key)
    ensures Edited(t, ks + [k]) == Apply(Edited(t, ks), k)
  {
    hide Apply;
    assert (ks + [k])[..|ks|] == ks;
  }

  lemma KeyPair(t: Text, a: Key, b: Key)
    ensures Edited(t, [a, b]) == Apply(Apply(t, a), b)
  {
    hide Apply;
    OneKey(t, a);
    Keyed(t, [a], b);
    assert [a, b] == [a] + [b];
  }

  /** A question mark asks for help at the end of the line, and is a character inside it. */
  lemma QuestionMark(t: Text)
    ensures Edited(t, [Char('?')]) == if t.after == "" then t else Text(t.before + "?", t.after)
  {
    OneKey(t, Char('?'));
  }

  /** Backspace takes back a typed character, and nothing else. */
  lemma BackspaceUndoesChar(t: Text, c: char)
    requires c != '\0' && (t.after != "" || c != '?')
    ensures Edited(t, [Char(c), Backspace]) == t
  {
    KeyPair(t, Char(c), Backspace);
  }

  /** As often as Backspace is pressed, it takes one character before the cursor, as long as there
      are any, and leaves what is behind it. */
  lemma {:induction false} BackspacesTake(t: Text, n: nat)
    ensures Edited(t, Repeat(Backspace, n)) == Text(t.before[..if n < |t.before| then |t.before| - n else 0], t.after)
  {
    if n > 0 {
      BackspacesTake(t, n - 1);
      Keyed(t, Repeat(Backspace, n - 1), Backspace);
      assert Repeat(Backspace, n) == Repeat(Backspace, n - 1) + [Backspace];
    }
  }

  ghost function Repeat(k: Key, n: nat): seq<Key> {
    seq(n, _ => k)
  }

  /** So deleting as often as characters were typed gives the text back. */
  lemma BackspacesUndoTyping(t: Text, w: string)
    requires '\0' !in w && (t.after != "" || '?' !in w)
    ensures Edited(t, Keys(w) + Repeat(Backspace, |w|)) == t
  {
    TypingAppends(t, w);
    EditedAppend(t, Keys(w), Repeat(Backspace, |w|));
    BackspacesTake(Text(t.before + w, t.after), |w|);
  }

  /** The cursor keys go one character to the left or right, up to the end, in the same line. */
  lemma MovesByOne(t: Text)
    ensures |Edited(t, [Left]).before| == (if t.before == "" then 0 else |t.before| - 1)
    ensures |Edited(t, [Right]).before| == |t.before| + (if t.after == "" then 0 else 1)
    ensures |Edited(t, [Home]).before| == 0 && Edited(t, [End]).after == ""
  {
    OneKey(t, Left);
    OneKey(t, Right);
    OneKey(t, Home);
    OneKey(t, End);
  }

  /** A text is its line, cut at the cursor. */
  lemma CutIsText(t: Text, u: Text)
    requires t.Line() == u.Line() && |t.before| == |u.before|
    ensures t == u
  {
    assert t.before == t.Line()[..|t.before|] && t.after == t.Line()[|t.before|..];
    assert u.before == u.Line()[..|u.before|] && u.after == u.Line()[|u.before|..];
  }

  /** Left and Right undo each other, except where there is nothing left to pass over. */
  lemma MovesUndo(t: Text)
    ensures Edited(t, [Left, Right]) == t <==> t.before != "" || t.after == ""
    ensures Edited(t, [Right, Left]) == t <==> t.after != "" || t.before == ""
  {
    hide Edited, Apply;
    MovesBack(t, Left, Right);
    MovesBack(t, Right, Left);
    MovesByOne(t);
    MovesByOne(Edited(t, [Left]));
    MovesByOne(Edited(t, [Right]));
  }

  /** Two moves keep the line, so they give the text back if they give the cursor back. */
  lemma MovesBack(t: Text, a: Key, b: Key)
    requires a == Left || a == Right
    requires b == Left || b == Right
    ensures Edited(t, [a, b]) == Edited(Edited(t, [a]), [b])
    ensures Edited(t, [a]).Line() == t.Line()
    ensures Edited(t, [a, b]) == t <==> |Edited(t, [a, b]).before| == |t.before|
  {
    hide Apply;
    KeyPair(t, a, b);
    OneKey(t, a);
    OneKey(Apply(t, a), b);
    MovesKeepLine(t, a);
    MovesKeepLine(Apply(t, a), b);
    if |Edited(t, [a, b]).before| == |t.before| {
      CutIsText(Edited(t, [a, b]), t);
    }
  }

  /** What is typed behind Home comes first in the line, and what is typed behind End comes last. */
  lemma TypingAtTheEnds(t: Text, w: string)
    requires '\0' !in w && '?' !in w
    ensures Edited(t, [Home] + Keys(w)) == Text(w, t.Line())
    ensures Edited(t, [End] + Keys(w)) == Text(t.Line() + w, "")
  {
    EditedAppend(t, [Home], Keys(w));
    EditedAppend(t, [End], Keys(w));
    OneKey(t, Home);
    OneKey(t, End);
    TypingAppends(Text("", t.Line()), w);
    TypingAppends(Text(t.Line(), ""), w);
    assert "" + w == w;
  }

  /** Ctrl-K drops what is behind the cursor and Ctrl-U everything: what was typed there before. */
  lemma KillAndClear(t: Text, w: string)
    requires '\0' !in w && '?' !in w
    ensures Edited(t, Keys(w) + [Home] + [Kill]) == Text("", "")
    ensures t.after == "" ==> Edited(t, Keys(w) + Repeat(Left, |w|) + [Kill]) == t
    ensures Edited(t, Keys(w) + [Clear]) == Text("", "")
  {
    TypingAppends(t, w);
    Keyed(t, Keys(w), Clear);
    Keyed(t, Keys(w), Home);
    Keyed(t, Keys(w) + [Home], Kill);
    EditedAppend(t, Keys(w), Repeat(Left, |w|));
    LeftsPass(t, w);
    Keyed(t, Keys(w) + Repeat(Left, |w|), Kill);
  }

  lemma {:induction false} LeftsPass(t: Text, w: string)
    ensures Edited(Text(t.before + w, t.after), Repeat(Left, |w|)) == Text(t.before, w + t.after)
    decreases |w|
  {
    if w == "" {
      assert t.before + w == t.before && w + t.after == t.after;
    } else {
      var u, n := Text(t.before + [w[0]], t.after), |w| - 1;
      LeftsPass(u, w[1..]);
      assert t.before + [w[0]] + w[1..] == t.before + w && [w[0]] + (w[1..] + t.after) == w + t.after;
      Keyed(Text(t.before + w, t.after), Repeat(Left, n), Left);
      assert Repeat(Left, |w|) == Repeat(Left, n) + [Left];
    }
  }

  // ---------------------------------------------------------------------------------------
  // Keys that leave the buffer
  // ---------------------------------------------------------------------------------------

  /** Typing into an empty line is admitted as long as the NUL has a cell. */
  lemma {:induction false} TypingAdmitted(max: nat, w: string)
    requires '\0' !in w && '?' !in w && max > 0
    ensures AdmitsAll(max, Text("", ""), Keys(w)) <==> |w| < max
    ensures Edited(Text("", ""), Keys(w)) == Text(w, "")
  {
    TypingAppends(Text("", ""), w);
    if w != "" {
      var n := |w| - 1;
      assert Keys(w)[..n] == Keys(w[..n]) && Keys(w)[..n + 1] == Keys(w);
      TypingAdmitted(max, w[..n]);
      TypingAppends(Text("", ""), w[..n]);
      if |w[..n]| < max {
        AdmitsNext(max, Text("", ""), Keys(w), n);
      } else if AdmitsAll(max, Text("", ""), Keys(w)) {
        AdmittedStart(max, Text("", ""), Keys(w), n);
      }
    }
  }

  lemma AdmittedStart(max: nat, t: Text, ks: seq<Key>, n: nat)
    requires n <= |ks| && AdmitsAll(max, t, ks)
    ensures AdmitsAll(max, t, ks[..n])
  {
    assert forall i | 0 <= i < n :: ks[..n][..i] == ks[..i];
  }

  /** A line of which Ctrl-U leaves the buffer: any that is typed and is longer than a third. */
  lemma ClearLeaves(max: nat, w: string)
    requires '\0' !in w && '?' !in w && |w| < max
    ensures AdmitsAll(max, Text("", ""), Keys(w) + [Clear]) <==> 3 * |w| <= max
  {
    var ks := Keys(w) + [Clear];
    TypingAdmitted(max, w);
    assert ks[..|w|] == Keys(w) && ks[..|w| + 1] == ks;
    AdmitsNext(max, Text("", ""), ks, |w|);
  }

  /** Deleting inside a line leaves the buffer exactly when the line fills it. */
  lemma DeleteLeaves(max: nat, w: string)
    requires '\0' !in w && '?' !in w && 2 <= |w| < max
    ensures AdmitsAll(max, Text("", ""), Keys(w) + [Left] + [Backspace]) <==> |w| + 1 < max
  {
    hide AdmitsAll, Edited, Fits;
    var t, ks, n := Text("", ""), Keys(w) + [Left] + [Backspace], |w|;
    TypingAdmitted(max, w);
    assert ks[..n] == Keys(w) && ks[..n + 1] == Keys(w) + [Left] && ks[..n + 2] == ks;
    AdmitsNext(max, t, ks, n);
    EditedAppend(t, Keys(w), [Left]);
    OneKey(Text(w, ""), Left);
    AdmitsNext(max, t, ks, n + 1);
  }

  /** Inside a line a character is admitted as long as two cells remain free behind it; at the end
      of the line one is enough. */
  lemma InsertionAdmitted(max: nat, w: string, c: char)
    requires '\0' !in w && '?' !in w && 2 <= |w| < max && c != '\0'
    ensures AdmitsAll(max, Text("", ""), Keys(w) + [Left] + [Char(c)]) <==> |w| + 2 < max
    ensures AdmitsAll(max, Text("", ""), Keys(w) + [Char(c)]) <==> |w| + 1 < max
  {
    hide AdmitsAll, Edited;
    var t, ks, n := Text("", ""), Keys(w) + [Left] + [Char(c)], |w|;
    TypingAdmitted(max, w);
    assert ks[..n] == Keys(w) && ks[..n + 1] == Keys(w) + [Left] && ks[..n + 2] == ks;
    AdmitsNext(max, t, ks, n);
    EditedAppend(t, Keys(w), [Left]);
    OneKey(Text(w, ""), Left);
    AdmitsNext(max, t, ks, n + 1);
    var more := Keys(w) + [Char(c)];
    assert more[..n] == Keys(w) && more[..n + 1] == more;
    AdmitsNext(max, t, more, n);
  }
}
