/**
 What the user of baresip/src/cmd.c types: long commands with their parameter, editing keys, completion, and commands
 of a single key.
 */
module CommandLine {
  import opened Common
  import opened CommandEditor

  // ---------------------------------------------------------------- a line is a name and a parameter

  function Spaces(n: nat): (s: string)
    ensures |s| == n
  {
    seq(n, _ => ' ')
  }

  lemma SpacesFront(n: nat, t: string)
    requires n > 0
    ensures (Spaces(n) + t)[0] == ' ' && (Spaces(n) + t)[1..] == Spaces(n - 1) + t
  {
  }

  predicate NoSpace(name: string) { forall i :: 0 <= i < |name| ==> name[i] != ' ' }

  lemma {:induction false} SpacesDropped(n: nat, t: string)
    requires t == "" || t[0] != ' '
    ensures DropSpaces(Spaces(n) + t) == t
    decreases n
  {
    if n == 0 {
      assert Spaces(0) + t == t;
    } else {
      SpacesFront(n, t);
      SpacesDropped(n - 1, t);
    }
  }

  lemma {:induction false} NameMeasured(name: string, t: string)
    requires NoSpace(name) && (t == "" || t[0] == ' ')
    ensures NameLength(name + t) == |name|
    decreases |name|
  {
    if name == "" {
      assert name + t == t;
    } else {
      assert (name + t)[1..] == name[1..] + t;
      NameMeasured(name[1..], t);
    }
  }

  /** The line has a name, and spaces between it and the parameter; neither the name nor a parameter begins with one. */
  predicate IsLine(name: string, gap: nat, prm: string) {
    && name != "" && NoSpace(name)
    && (prm == "" || (prm[0] != ' ' && gap > 0))
  }

  function Line(lead: nat, name: string, gap: nat, prm: string): string { Spaces(lead) + (name + (Spaces(gap) + prm)) }

  lemma LineParsed(lead: nat, name: string, gap: nat, prm: string)
    requires IsLine(name, gap, prm)
    ensures Parse(Line(lead, name, gap, prm)) == Some((name, Unquote(prm)))
  {
    var t := Spaces(gap) + prm;
    SpacesDropped(lead, name + t);
    assert t == "" || t[0] == ' ';
    NameMeasured(name, t);
    assert (name + t)[..|name|] == name && (name + t)[|name|..] == t;
    SpacesDropped(gap, prm);
  }

  /** The parameter is the argument itself, or the argument in quotes. */
  predicate Means(prm: string, arg: string) {
    || prm == "\"" + arg + "\""
    || (prm == arg && !(|arg| > 1 && arg[0] == '"' && arg[|arg| - 1] == '"'))
  }

  lemma QuotesRemoved(prm: string, arg: string)
    ensures Means(prm, arg) <==> Unquote(prm) == arg
  {
    if prm == "\"" + arg + "\"" {
      assert prm[1..|prm| - 1] == arg;
    } else if |prm| > 1 && prm[0] == '"' && prm[|prm| - 1] == '"' {
      assert prm == "\"" + prm[1..|prm| - 1] + "\"";
    }
  }

  /** What a long command does: nothing if no command has the name, and otherwise it calls it with the argument, if any. */
  function Calls(reg: Registry, name: string, arg: string): Effect {
    match Find(reg, ByName(name))
    case None => Effect([], ENOTSUP)
    case Some(c) => Effect([Invocation(c, '/', if arg == "" then None else Some(arg))], Ok)
  }

  /** A name and a parameter call the command of that name with exactly that parameter, freed from quotes around it. */
  lemma LongCommandExactly(reg: Registry, lead: nat, name: string, gap: nat, prm: string, arg: string)
    requires IsLine(name, gap, prm) && Means(prm, arg)
    ensures ProcessLong(reg, Line(lead, name, gap, prm)) == Calls(reg, name, arg)
  {
    LineParsed(lead, name, gap, prm);
    QuotesRemoved(prm, arg);
  }

  lemma {:induction false} CutSpaces(s: string) returns (n: nat, t: string)
    ensures s == Spaces(n) + t && (t == "" || t[0] != ' ')
    decreases |s|
  {
    if s != "" && s[0] == ' ' {
      n, t := CutSpaces(s[1..]);
      n := n + 1;
      SpacesFront(n, t);
      assert s == [' '] + s[1..];
    } else {
      n, t := 0, s;
    }
  }

  lemma {:induction false} CutName(s: string) returns (name: string, t: string)
    ensures s == name + t && NoSpace(name) && (t == "" || t[0] == ' ')
    ensures s != "" && s[0] != ' ' ==> name != ""
    decreases |s|
  {
    if s == "" || s[0] == ' ' {
      name, t := "", s;
    } else {
      name, t := CutName(s[1..]);
      name := [s[0]] + name;
      assert s == [s[0]] + s[1..];
    }
  }

  /** Every string is such a line, or nothing but spaces. */
  lemma EveryLine(s: string) returns (lead: nat, name: string, gap: nat, prm: string)
    ensures if name == "" then s == Spaces(lead) else IsLine(name, gap, prm) && s == Line(lead, name, gap, prm)
  {
    var t, u;
    lead, t := CutSpaces(s);
    if t == "" {
      name, gap, prm := "", 0, "";
    } else {
      name, u := CutName(t);
      gap, prm := CutSpaces(u);
    }
  }

  /** Nothing but spaces is no command. */
  lemma BlankLine(reg: Registry, n: nat)
    ensures ProcessLong(reg, Spaces(n)) == Effect([], if n == 0 then EINVAL else ENOENT)
  {
    SpacesDropped(n, "");
    assert Spaces(n) + "" == Spaces(n);
  }

  /** The slash in front of a long command is optional. */
  lemma SlashIsOptional(reg: Registry, s: string)
    requires s != "" && s[0] != '/'
    ensures InputLongCommand(reg, "/" + s) == InputLongCommand(reg, s) == ProcessLong(reg, s)
  {
    assert ("/" + s)[1..] == s;
  }

  // ---------------------------------------------------------------- editing keys

  lemma {:induction false} TypedAppend(reg: Registry, text: string, a: string, b: string)
    ensures Typed(reg, text, a + b) == Typed(reg, Typed(reg, text, a), b)
    decreases |a|
  {
    if a == "" {
      assert a + b == b;
    } else {
      assert (a + b)[1..] == a[1..] + b;
      TypedAppend(reg, EditText(reg, text, a[0], true), a[1..], b);
    }
  }

  /** Backspace and delete keys. */
  predicate Erasing(keys: string) { forall i :: 0 <= i < |keys| ==> keys[i] == 8 as char || keys[i] == 127 as char }

  /** Each erasing key takes back one character, and none from an empty text. */
  lemma {:induction false} Erased(reg: Registry, text: string, keys: string)
    requires Erasing(keys)
    ensures Typed(reg, text, keys) == if |keys| < |text| then text[..|text| - |keys|] else ""
    decreases |keys|
  {
    if keys == "" {
      assert text[..|text|] == text;
    } else {
      Erased(reg, EditText(reg, text, keys[0], true), keys[1..]);
    }
  }

  /** Erasing what has been typed gives the text back. */
  lemma ErasingUndoesTyping(reg: Registry, text: string, keys: string, dels: string)
    requires (forall i :: 0 <= i < |keys| ==> Ordinary(keys[i])) && Erasing(dels) && |dels| == |keys|
    ensures Typed(reg, text, keys + dels) == text
  {
    TypedAppend(reg, text, keys, dels);
    OrdinaryTyping(reg, text, keys);
    Erased(reg, text + keys, dels);
    assert (text + keys)[..|text|] == text;
  }

  // ---------------------------------------------------------------- completion

  /** The commands of all blocks. */
  function AllCmds(reg: Registry): seq<Cmd> { if reg == [] then [] else reg[0].cmds + AllCmds(reg[1..]) }

  lemma {:induction false} MatchesAppend(a: seq<Cmd>, b: seq<Cmd>, text: string)
    ensures MatchesInBlock(a + b, text) == MatchesInBlock(a, text) + MatchesInBlock(b, text)
    decreases |a|
  {
    if a == [] {
      assert a + b == b;
    } else {
      assert (a + b)[1..] == a[1..] + b;
      MatchesAppend(a[1..], b, text);
    }
  }

  lemma {:induction false} MatchesOfAll(reg: Registry, text: string)
    ensures MatchLong(reg, text) == MatchesInBlock(AllCmds(reg), text)
    decreases |reg|
  {
    if reg == [] {
    } else {
      MatchesOfAll(reg[1..], text);
      MatchesAppend(reg[0].cmds, AllCmds(reg[1..]), text);
    }
  }

  /** The name of the command is not empty, and its first characters are those of the text. */
  predicate BeginsWith(c: Cmd, text: string) {
    && c.name.Some? && c.name.value != "" && |text| <= |c.name.value|
    && forall i :: 0 <= i < |text| ==> c.name.value[i] == text[i]
  }

  lemma NameBegins(c: Cmd, text: string)
    ensures NameStartsWith(c, text) <==> BeginsWith(c, text)
  {
  }

  /** Command i is the only one whose name begins with the text. */
  predicate OnlyMatch(cmds: seq<Cmd>, text: string, i: nat) {
    && i < |cmds| && BeginsWith(cmds[i], text)
    && forall j :: 0 <= j < |cmds| && j != i ==> !BeginsWith(cmds[j], text)
  }

  lemma {:induction false} NoMatches(cmds: seq<Cmd>, text: string)
    ensures MatchesInBlock(cmds, text) == [] <==> forall i :: 0 <= i < |cmds| ==> !BeginsWith(cmds[i], text)
    decreases |cmds|
  {
    if cmds == [] {
    } else {
      NoMatches(cmds[1..], text);
      NameBegins(cmds[0], text);
      assert cmds == [cmds[0]] + cmds[1..];
    }
  }

  lemma {:induction false} OneMatch(cmds: seq<Cmd>, text: string, i: nat)
    requires OnlyMatch(cmds, text, i)
    ensures MatchesInBlock(cmds, text) == [cmds[i]]
    decreases |cmds|
  {
    NameBegins(cmds[0], text);
    if i == 0 {
      NoMatches(cmds[1..], text);
    } else {
      assert OnlyMatch(cmds[1..], text, i - 1);
      OneMatch(cmds[1..], text, i - 1);
    }
  }

  lemma {:induction false} FindMatch(cmds: seq<Cmd>, text: string) returns (i: nat)
    requires |MatchesInBlock(cmds, text)| == 1
    ensures OnlyMatch(cmds, text, i)
    decreases |cmds|
  {
    assert cmds == [cmds[0]] + cmds[1..];
    NameBegins(cmds[0], text);
    if BeginsWith(cmds[0], text) {
      NoMatches(cmds[1..], text);
      i := 0;
    } else {
      var k := FindMatch(cmds[1..], text);
      i := k + 1;
    }
  }

  /**
   The tabulator key replaces the text by the name of a command if and only if this is the only command whose name
   starts with the text, and leaves the text alone otherwise.
   */
  lemma CompletedExactly(reg: Registry, text: string)
    ensures var cmds, t := AllCmds(reg), Typed(reg, text, "\t");
            && (forall i: nat :: OnlyMatch(cmds, text, i) ==> t == cmds[i].name.value)
            && ((forall i: nat :: !OnlyMatch(cmds, text, i)) ==> t == text)
  {
    var cmds := AllCmds(reg);
    MatchesOfAll(reg, text);
    assert "\t"[1..] == "" && "\t"[0] == '\t';
    assert Typed(reg, text, "\t") == EditText(reg, text, '\t', true);
    forall i: nat | OnlyMatch(cmds, text, i) ensures EditText(reg, text, '\t', true) == cmds[i].name.value {
      OneMatch(cmds, text, i);
    }
    if forall i: nat :: !OnlyMatch(cmds, text, i) {
      if |MatchesInBlock(cmds, text)| == 1 {
        var i := FindMatch(cmds, text);
        assert false;
      }
    }
  }

  // ---------------------------------------------------------------- commands of a single key

  /** Keys that add themselves to the parameter of a command; the tabulator key completes only long commands. */
  predicate Plain(c: char) { Ordinary(c) || c == '\t' }

  lemma {:induction false} PlainTyping(reg: Registry, text: string, c: Option<Cmd>, keys: string)
    requires forall i :: 0 <= i < |keys| ==> Plain(keys[i])
    ensures ProcessAll(reg, Some(Ctx(text, c, false)), keys) == (Some(Ctx(text + keys, c, false)), Effect([], Ok))
    decreases |keys|
  {
    if keys == "" {
      assert text + keys == text;
    } else {
      assert Process(reg, Some(Ctx(text, c, false)), keys[0]) == (Some(Ctx(text + [keys[0]], c, false)), Effect([], Ok));
      PlainTyping(reg, text + [keys[0]], c, keys[1..]);
      assert text + [keys[0]] + keys[1..] == text + keys;
      ThenNothing(Effect([], Ok));
    }
  }

  /** A digit is part of the parameter of the command it calls. */
  function Own(key: char): string { if '0' <= key <= '9' then [key] else "" }

  lemma Opened(reg: Registry, key: char, c: Cmd)
    requires key != KEYCODE_NONE && Find(reg, ByKey(key)) == Some(c) && c.prm
    ensures Process(reg, None, key) == (Some(Ctx(Own(key), Some(c), false)), Effect([], Ok))
  {
    assert "" + [key] == [key];
  }

  lemma InputOpened(reg: Registry, key: char, c: Cmd, keys: string)
    requires key != KEYCODE_NONE && Find(reg, ByKey(key)) == Some(c) && c.prm
    requires forall i :: 0 <= i < |keys| ==> Plain(keys[i])
    ensures ProcessAll(reg, None, [key] + keys) == (Some(Ctx(Own(key) + keys, Some(c), false)), Effect([], Ok))
  {
    var s := [key] + keys;
    assert s[0] == key && s[1..] == keys;
    Opened(reg, key, c);
    PlainTyping(reg, Own(key), Some(c), keys);
    ThenNothing(Effect([], Ok));
  }

  /**
   A key that a command answers to calls it at once if it takes no parameter.  Otherwise what is typed behind the key
   becomes its parameter, in front of it the key itself if that is a digit; the key alone only opens the editor.
   */
  lemma KeyCommandExactly(reg: Registry, key: char, c: Cmd, keys: string)
    requires key != KEYCODE_NONE && Find(reg, ByKey(key)) == Some(c)
    requires forall i :: 0 <= i < |keys| ==> Plain(keys[i])
    ensures !c.prm ==> InputPl(reg, [key]) == Effect([Invocation(c, key, None)], Ok)
    ensures c.prm ==> InputPl(reg, [key] + keys)
                      == Effect(if keys == "" then [] else [Invocation(c, c.key, Some(Own(key) + keys))], Ok)
  {
    if c.prm {
      var s, ctx := [key] + keys, Some(Ctx(Own(key) + keys, Some(c), false));
      InputOpened(reg, key, c, keys);
      assert ProcessAll(reg, None, s) == (ctx, Effect([], Ok));
      ThenNothing(Process(reg, ctx, '\n').1);
    } else {
      assert [key][1..] == "";
      assert ProcessAll(reg, None, [key]) == (None, Then(Effect([Invocation(c, key, None)], Ok), Effect([], Ok)));
      ThenNothing(Effect([Invocation(c, key, None)], Ok));
    }
  }

  /**
   The escape key abandons a command that waits for its parameter, a key that no command answers to does nothing, and
   the key code 0 is refused.
   */
  lemma KeyWithoutEffect(reg: Registry, key: char, c: Cmd, keys: string)
    requires key != KEYCODE_NONE && key != '/'
    requires Find(reg, ByKey(key)) == None || (Find(reg, ByKey(key)) == Some(c) && c.prm)
    requires forall i :: 0 <= i < |keys| ==> Plain(keys[i])
    ensures Find(reg, ByKey(key)) == None ==> InputPl(reg, [key]) == Effect([], Ok)
    ensures Find(reg, ByKey(key)) == Some(c) ==> Process(reg, ProcessAll(reg, None, [key] + keys).0, 0x1b as char) == (None, Effect([], Ok))
    ensures forall ctx :: Process(reg, ctx, 0 as char) == (ctx, Effect([], EINVAL))
  {
    if Find(reg, ByKey(key)) == Some(c) {
      InputOpened(reg, key, c, keys);
    } else {
      assert [key][1..] == "";
      assert ProcessAll(reg, None, [key]) == (None, Then(Effect([], Ok), Effect([], Ok)));
      ThenNothing(Effect([], Ok));
    }
  }
}
