/**
 The command registry and line editor of baresip/src/cmd.c, and the two ways of baresip/src/ui.c to
 give it a long command: character by character, or as a string.

 Handlers, printing and allocation are not modelled; a call of a handler is recorded as an invocation,
 and printing succeeds.
 */
module CommandEditor {
  import opened Common

  const KEYCODE_NONE: char := 0 as char
  const KEYCODE_REL: char := 4 as char
  const KEYCODE_ESC: char := 0x1b as char
  const KEYCODE_DEL: char := 0x7f as char
  const BACKSPACE: char := 8 as char
  const LONG_PREFIX: char := '/'

  /** struct cmd; a command without a handler is never found. */
  datatype Cmd = Cmd(id: nat, name: Option<string>, key: char, prm: bool, handler: bool)

  /** struct cmds: a block of commands, identified by the address of its vector. */
  datatype Block = Block(addr: nat, cmds: seq<Cmd>)

  type Registry = seq<Block>

  // ---------------------------------------------------------------- lookups

  function LowerChar(c: char): char {
    if 'A' <= c <= 'Z' then (c as int + 32) as char else c
  }

  function Lower(s: string): string {
    seq(|s|, i requires 0 <= i < |s| => LowerChar(s[i]))
  }

  predicate HasKey(c: Cmd, key: char) { c.handler && c.key == key }

  /** The comparison ignores case. */
  predicate HasName(c: Cmd, name: string) { c.handler && c.name.Some? && Lower(c.name.value) == Lower(name) }

  /** What is being looked for. */
  datatype Query = ByKey(key: char) | ByName(name: string) {
    predicate Matches(c: Cmd) {
      match this
      case ByKey(key) => HasKey(c, key)
      case ByName(name) => HasName(c, name)
    }
  }

  function FindInBlock(cmds: seq<Cmd>, q: Query): Option<Cmd> {
    if cmds == [] then None
    else if q.Matches(cmds[0]) then Some(cmds[0])
    else FindInBlock(cmds[1..], q)
  }

  /** The search of the source: the latest block first, inside a block the first command. */
  function Find(reg: Registry, q: Query): Option<Cmd> {
    if reg == [] then None
    else
      var n := |reg| - 1;
      var r := FindInBlock(reg[n].cmds, q);
      if r.Some? then r else Find(reg[..n], q)
  }

  // ---------------------------------------------------------------- registration

  datatype Err = Ok | EINVAL | EALREADY | ENOENT | ENOTSUP

  predicate Registered(reg: Registry, addr: nat) { exists i :: 0 <= i < |reg| && reg[i].addr == addr }

  predicate IsSet(name: Option<string>) { name.Some? && name.value != "" }

  /** The checks of cmd_register on one command, in the order of the source. */
  function CheckCmd(reg: Registry, c: Cmd): Err {
    if c.key != KEYCODE_NONE && Find(reg, ByKey(c.key)).Some? then EALREADY
    else if c.key == LONG_PREFIX then EINVAL
    else if IsSet(c.name) && Find(reg, ByName(c.name.value)).Some? then EINVAL
    else Ok
  }

  function CheckCmds(reg: Registry, cmds: seq<Cmd>): Err {
    if cmds == [] then Ok
    else if CheckCmd(reg, cmds[0]) != Ok then CheckCmd(reg, cmds[0])
    else CheckCmds(reg, cmds[1..])
  }

  function RegisterErr(reg: Registry, b: Block): Err {
    if b.cmds == [] then EINVAL
    else if Registered(reg, b.addr) then EALREADY
    else CheckCmds(reg, b.cmds)
  }

  function Register(reg: Registry, b: Block): Registry {
    if RegisterErr(reg, b) == Ok then reg + [b] else reg
  }

  /** cmd_unregister: the first block at the address goes away. */
  function Unregister(reg: Registry, addr: nat): Registry {
    if reg == [] then []
    else if reg[0].addr == addr then reg[1..]
    else [reg[0]] + Unregister(reg[1..], addr)
  }

  lemma {:induction false} UnregisterAt(reg: Registry, addr: nat, i: nat)
    requires i <= |reg| && (i < |reg| ==> reg[i].addr == addr)
    requires forall j :: 0 <= j < i ==> reg[j].addr != addr
    ensures Unregister(reg, addr) == if i < |reg| then reg[..i] + reg[i + 1..] else reg
    decreases |reg|
  {
    if reg != [] && i > 0 {
      UnregisterAt(reg[1..], addr, i - 1);
      assert reg == [reg[0]] + reg[1..];
      if i < |reg| {
        assert reg[..i] + reg[i + 1..] == [reg[0]] + (reg[1..][..i - 1] + reg[1..][i..]);
      }
    }
  }

  /** The registry object. */
  class Commands {
    var cmdl: Registry

    constructor ()
      ensures cmdl == []
    {
      cmdl := [];
    }

    /** cmd_find_by_key and cmd_find_long: loops over the blocks from the tail, and over each block. */
    method Lookup(q: Query) returns (r: Option<Cmd>)
      ensures r == Find(cmdl, q)
    {
      var n := |cmdl|;
      assert cmdl[..n] == cmdl;
      while n > 0
        invariant 0 <= n <= |cmdl|
        invariant Find(cmdl[..n], q) == Find(cmdl, q)
      {
        assert cmdl[..n][..n - 1] == cmdl[..n - 1];
        n := n - 1;
        var rest := cmdl[n].cmds;
        while rest != []
          invariant FindInBlock(rest, q) == FindInBlock(cmdl[n].cmds, q)
          decreases |rest|
        {
          if q.Matches(rest[0]) {
            return Some(rest[0]);
          }
          rest := rest[1..];
        }
      }
      assert cmdl[..0] == [];
      return None;
    }

    /** cmds_find */
    method FindBlock(addr: nat) returns (i: nat)
      ensures i <= |cmdl|
      ensures i < |cmdl| ==> cmdl[i].addr == addr
      ensures forall j :: 0 <= j < i ==> cmdl[j].addr != addr
    {
      i := 0;
      while i < |cmdl| && cmdl[i].addr != addr
        invariant i <= |cmdl|
        invariant forall j :: 0 <= j < i ==> cmdl[j].addr != addr
      {
        i := i + 1;
      }
    }

    method RegisterCmds(b: Block) returns (err: Err)
      modifies this
      ensures err == RegisterErr(old(cmdl), b) && cmdl == Register(old(cmdl), b)
    {
      if b.cmds == [] {
        return EINVAL;
      }
      var i := FindBlock(b.addr);
      if i < |cmdl| {
        return EALREADY;
      }
      var rest := b.cmds;
      while rest != []
        invariant cmdl == old(cmdl) && CheckCmds(cmdl, rest) == CheckCmds(cmdl, b.cmds)
        decreases |rest|
      {
        var cmd := rest[0];
        if cmd.key != KEYCODE_NONE {
          var x := Lookup(ByKey(cmd.key));
          if x.Some? {
            return EALREADY;
          }
        }
        if cmd.key == LONG_PREFIX {
          return EINVAL;
        }
        if IsSet(cmd.name) {
          var x := Lookup(ByName(cmd.name.value));
          if x.Some? {
            return EINVAL;
          }
        }
        rest := rest[1..];
      }
      cmdl := cmdl + [b];
      return Ok;
    }

    method UnregisterCmds(addr: nat)
      modifies this
      ensures cmdl == Unregister(old(cmdl), addr)
    {
      var i := FindBlock(addr);
      UnregisterAt(cmdl, addr, i);
      if i < |cmdl| {
        cmdl := cmdl[..i] + cmdl[i + 1..];
      }
    }
  }

  // ---------------------------------------------------------------- the registry invariant

  predicate Distinguishable(c: Cmd, d: Cmd) {
    c.handler && d.handler ==>
      && (c.key == d.key ==> c.key == KEYCODE_NONE)
      && (IsSet(c.name) && IsSet(d.name) ==> Lower(c.name.value) != Lower(d.name.value))
  }

  /** A key or name a command of one block answers to is answered by no other block. */
  predicate Separate(a: Block, b: Block) {
    forall i, j :: 0 <= i < |a.cmds| && 0 <= j < |b.cmds| ==> Distinguishable(a.cmds[i], b.cmds[j])
  }

  predicate NoPrefixKey(b: Block) { forall i :: 0 <= i < |b.cmds| ==> b.cmds[i].key != LONG_PREFIX }

  predicate Inv(reg: Registry) {
    && (forall i :: 0 <= i < |reg| ==> NoPrefixKey(reg[i]))
    && (forall i, j :: 0 <= i < j < |reg| ==> reg[i].addr != reg[j].addr)
    && (forall i, j :: 0 <= i < j < |reg| ==> Separate(reg[i], reg[j]))
  }

  datatype Event = Add(b: Block) | Remove(addr: nat)

  function Step(reg: Registry, e: Event): Registry {
    match e
    case Add(b) => Register(reg, b)
    case Remove(addr) => Unregister(reg, addr)
  }

  function Run(reg: Registry, es: seq<Event>): Registry
    decreases |es|
  {
    if es == [] then reg else Run(Step(reg, es[0]), es[1..])
  }

  lemma {:induction false} NotFoundInBlock(cmds: seq<Cmd>, q: Query)
    ensures FindInBlock(cmds, q) == None <==> forall i :: 0 <= i < |cmds| ==> !q.Matches(cmds[i])
    decreases |cmds|
  {
    if cmds == [] {
    } else {
      NotFoundInBlock(cmds[1..], q);
      if FindInBlock(cmds, q) == None {
        forall i | 0 <= i < |cmds| ensures !q.Matches(cmds[i]) {
          if i > 0 {
            assert cmds[i] == cmds[1..][i - 1];
          }
        }
      }
    }
  }

  lemma {:induction false} NotFound(reg: Registry, q: Query)
    ensures Find(reg, q) == None <==> forall i :: 0 <= i < |reg| ==> FindInBlock(reg[i].cmds, q) == None
    decreases |reg|
  {
    if reg == [] {
    } else {
      var n := |reg| - 1;
      NotFound(reg[..n], q);
      if Find(reg, q) == None {
        forall i | 0 <= i < |reg| ensures FindInBlock(reg[i].cmds, q) == None {
          if i < n {
            assert reg[i] == reg[..n][i];
          }
        }
      }
    }
  }

  predicate NoneBefore(cmds: seq<Cmd>, n: nat, q: Query)
    requires n <= |cmds|
  {
    forall j :: 0 <= j < n ==> !q.Matches(cmds[j])
  }

  /** c is the first command of the block that matches. */
  ghost predicate FirstIn(cmds: seq<Cmd>, q: Query, c: Cmd) {
    exists i :: 0 <= i < |cmds| && cmds[i] == c && q.Matches(c) && NoneBefore(cmds, i, q)
  }

  lemma FirstOfRest(cmds: seq<Cmd>, q: Query, c: Cmd)
    requires cmds != [] && !q.Matches(cmds[0])
    ensures FirstIn(cmds[1..], q, c) <==> FirstIn(cmds, q, c)
  {
    var rest := cmds[1..];
    if FirstIn(rest, q, c) {
      var i :| 0 <= i < |rest| && rest[i] == c && q.Matches(c) && NoneBefore(rest, i, q);
      assert cmds[i + 1] == c;
      forall j | 0 <= j < i + 1 ensures !q.Matches(cmds[j]) {
        assert j > 0 ==> cmds[j] == rest[j - 1];
      }
      assert NoneBefore(cmds, i + 1, q);
    }
    if FirstIn(cmds, q, c) {
      var i :| 0 <= i < |cmds| && cmds[i] == c && q.Matches(c) && NoneBefore(cmds, i, q);
      assert rest[i - 1] == c && NoneBefore(rest, i - 1, q);
    }
  }

  lemma {:induction false} FoundInBlock(cmds: seq<Cmd>, q: Query)
    ensures forall c :: FindInBlock(cmds, q) == Some(c) <==> FirstIn(cmds, q, c)
    decreases |cmds|
  {
    if cmds == [] {
    } else {
      FoundInBlock(cmds[1..], q);
      if q.Matches(cmds[0]) {
        assert NoneBefore(cmds, 0, q);
      } else {
        forall c ensures FirstIn(cmds[1..], q, c) <==> FirstIn(cmds, q, c) {
          FirstOfRest(cmds, q, c);
        }
      }
    }
  }

  predicate NoneAfter(reg: Registry, k: int, q: Query)
    requires -1 <= k
  {
    forall l, i :: k < l < |reg| && 0 <= i < |reg[l].cmds| ==> !q.Matches(reg[l].cmds[i])
  }

  /** c is the first match of the latest block that has one. */
  ghost predicate Answers(reg: Registry, q: Query, c: Cmd) {
    exists k :: 0 <= k < |reg| && FirstIn(reg[k].cmds, q, c) && NoneAfter(reg, k, q)
  }

  lemma AnswersBefore(reg: Registry, q: Query, c: Cmd)
    requires reg != [] && FindInBlock(reg[|reg| - 1].cmds, q) == None
    ensures Answers(reg[..|reg| - 1], q, c) <==> Answers(reg, q, c)
  {
    var n := |reg| - 1;
    var init := reg[..n];
    NotFoundInBlock(reg[n].cmds, q);
    if Answers(init, q, c) {
      var k :| 0 <= k < |init| && FirstIn(init[k].cmds, q, c) && NoneAfter(init, k, q);
      assert reg[k] == init[k];
      forall l, i | k < l < |reg| && 0 <= i < |reg[l].cmds| ensures !q.Matches(reg[l].cmds[i]) {
        assert l < n ==> reg[l] == init[l];
      }
      assert NoneAfter(reg, k, q);
    }
    if Answers(reg, q, c) {
      var k :| 0 <= k < |reg| && FirstIn(reg[k].cmds, q, c) && NoneAfter(reg, k, q);
      assert k < n && reg[k] == init[k];
      assert NoneAfter(init, k, q);
    }
  }

  lemma AnswersLast(reg: Registry, q: Query, c: Cmd)
    requires reg != [] && FindInBlock(reg[|reg| - 1].cmds, q).Some?
    ensures FindInBlock(reg[|reg| - 1].cmds, q) == Some(c) <==> Answers(reg, q, c)
  {
    var n := |reg| - 1;
    FoundInBlock(reg[n].cmds, q);
    NotFoundInBlock(reg[n].cmds, q);
    assert NoneAfter(reg, n, q);
    if Answers(reg, q, c) {
      var k :| 0 <= k < |reg| && FirstIn(reg[k].cmds, q, c) && NoneAfter(reg, k, q);
      var i :| 0 <= i < |reg[n].cmds| && q.Matches(reg[n].cmds[i]);
      assert k == n;
    }
  }

  /** A lookup finds a command exactly when it is the first match of the latest block that has one. */
  lemma {:induction false} FoundExactly(reg: Registry, q: Query)
    ensures forall c :: Find(reg, q) == Some(c) <==> Answers(reg, q, c)
    ensures Find(reg, q) == None <==> NoneAfter(reg, -1, q)
    decreases |reg|
  {
    NotFound(reg, q);
    forall i | 0 <= i < |reg| ensures FindInBlock(reg[i].cmds, q) == None <==> NoneBefore(reg[i].cmds, |reg[i].cmds|, q) {
      NotFoundInBlock(reg[i].cmds, q);
    }
    if reg == [] {
    } else {
      var n := |reg| - 1;
      FoundExactly(reg[..n], q);
      forall c ensures Find(reg, q) == Some(c) <==> Answers(reg, q, c) {
        if FindInBlock(reg[n].cmds, q) == None {
          AnswersBefore(reg, q, c);
        } else {
          AnswersLast(reg, q, c);
        }
      }
    }
  }

  /** The same letter but for its case, or the same character. */
  predicate SameLetter(x: char, y: char) {
    x == y || ('A' <= x <= 'Z' && y as int == x as int + 32) || ('A' <= y <= 'Z' && x as int == y as int + 32)
  }

  lemma CaseIgnored(a: string, b: string)
    ensures Lower(a) == Lower(b) <==> |a| == |b| && forall i :: 0 <= i < |a| ==> SameLetter(a[i], b[i])
  {
    if Lower(a) == Lower(b) {
      assert |Lower(a)| == |a| && |Lower(b)| == |b|;
      forall i | 0 <= i < |a| ensures SameLetter(a[i], b[i]) {
        assert Lower(a)[i] == Lower(b)[i];
      }
    }
  }

  /** What is found has a handler, and the key or, but for the case of letters, the name that was looked for. */
  lemma FoundFits(reg: Registry, q: Query, c: Cmd)
    requires Find(reg, q) == Some(c)
    ensures c.handler
    ensures q.ByKey? ==> c.key == q.key
    ensures q.ByName? ==> c.name.Some? && |c.name.value| == |q.name|
                          && forall i :: 0 <= i < |q.name| ==> SameLetter(c.name.value[i], q.name[i])
  {
    FoundExactly(reg, q);
    if q.ByName? {
      CaseIgnored(c.name.value, q.name);
    }
  }

  // ---------------------------------------------------------------- what can be registered

  predicate KeyTaken(reg: Registry, d: Cmd) {
    d.key != KEYCODE_NONE && exists k, i :: 0 <= k < |reg| && 0 <= i < |reg[k].cmds| && HasKey(reg[k].cmds[i], d.key)
  }

  predicate NameTaken(reg: Registry, d: Cmd) {
    IsSet(d.name) && exists k, i :: 0 <= k < |reg| && 0 <= i < |reg[k].cmds| && HasName(reg[k].cmds[i], d.name.value)
  }

  predicate Acceptable(reg: Registry, d: Cmd) { !KeyTaken(reg, d) && d.key != '/' && !NameTaken(reg, d) }

  lemma CheckExactly(reg: Registry, d: Cmd)
    ensures CheckCmd(reg, d) == EALREADY <==> KeyTaken(reg, d)
    ensures CheckCmd(reg, d) == Ok <==> Acceptable(reg, d)
    ensures CheckCmd(reg, d) in {Ok, EALREADY, EINVAL}
  {
    FoundExactly(reg, ByKey(d.key));
    if IsSet(d.name) {
      FoundExactly(reg, ByName(d.name.value));
    }
  }

  predicate AllAcceptable(reg: Registry, cmds: seq<Cmd>) { forall j :: 0 <= j < |cmds| ==> Acceptable(reg, cmds[j]) }

  /** The first command that is not acceptable decides about the error. */
  lemma {:induction false} ChecksStopAt(reg: Registry, cmds: seq<Cmd>, j: nat)
    requires j < |cmds| && AllAcceptable(reg, cmds[..j]) && !Acceptable(reg, cmds[j])
    ensures CheckCmds(reg, cmds) == if KeyTaken(reg, cmds[j]) then EALREADY else EINVAL
    decreases j
  {
    CheckExactly(reg, cmds[0]);
    if j > 0 {
      assert cmds[..j][0] == cmds[0];
      assert cmds[1..][..j - 1] == cmds[..j][1..];
      ChecksStopAt(reg, cmds[1..], j - 1);
    }
  }

  lemma {:induction false} ChecksExactly(reg: Registry, cmds: seq<Cmd>)
    ensures CheckCmds(reg, cmds) == Ok <==> AllAcceptable(reg, cmds)
    decreases |cmds|
  {
    if cmds == [] {
    } else {
      CheckExactly(reg, cmds[0]);
      ChecksExactly(reg, cmds[1..]);
      assert cmds == [cmds[0]] + cmds[1..];
    }
  }

  /**
   A block is registered if and only if it has commands, is not registered yet, and none of its commands has the prefix
   key, or a key or name that a registered command answers to.  Otherwise the registry stays as it is, and the first
   check that fails decides about the error.
   */
  lemma RegisteredExactly(reg: Registry, b: Block)
    ensures RegisterErr(reg, b) == Ok <==> b.cmds != [] && !Registered(reg, b.addr) && AllAcceptable(reg, b.cmds)
    ensures Register(reg, b) == if RegisterErr(reg, b) == Ok then reg + [b] else reg
    ensures b.cmds == [] ==> RegisterErr(reg, b) == EINVAL
    ensures b.cmds != [] && Registered(reg, b.addr) ==> RegisterErr(reg, b) == EALREADY
    ensures b.cmds != [] && !Registered(reg, b.addr) ==>
              forall j :: 0 <= j < |b.cmds| && AllAcceptable(reg, b.cmds[..j]) && !Acceptable(reg, b.cmds[j])
                          ==> RegisterErr(reg, b) == if KeyTaken(reg, b.cmds[j]) then EALREADY else EINVAL
  {
    ChecksExactly(reg, b.cmds);
    forall j | 0 <= j < |b.cmds| && AllAcceptable(reg, b.cmds[..j]) && !Acceptable(reg, b.cmds[j])
      ensures CheckCmds(reg, b.cmds) == if KeyTaken(reg, b.cmds[j]) then EALREADY else EINVAL
    {
      ChecksStopAt(reg, b.cmds, j);
    }
  }

  lemma {:induction false} ChecksPassed(reg: Registry, cmds: seq<Cmd>, j: nat)
    requires CheckCmds(reg, cmds) == Ok && j < |cmds|
    ensures CheckCmd(reg, cmds[j]) == Ok
    decreases |cmds|
  {
    if j == 0 {
    } else {
      ChecksPassed(reg, cmds[1..], j - 1);
    }
  }

  lemma UnmatchedByCheck(reg: Registry, k: nat, i: nat, d: Cmd)
    requires k < |reg| && i < |reg[k].cmds| && CheckCmd(reg, d) == Ok
    ensures Distinguishable(reg[k].cmds[i], d)
  {
    var c := reg[k].cmds[i];
    if d.key != KEYCODE_NONE {
      NotFound(reg, ByKey(d.key));
      NotFoundInBlock(reg[k].cmds, ByKey(d.key));
      assert !ByKey(d.key).Matches(c);
    }
    if IsSet(d.name) {
      NotFound(reg, ByName(d.name.value));
      NotFoundInBlock(reg[k].cmds, ByName(d.name.value));
      assert !ByName(d.name.value).Matches(c);
    }
  }

  /** A block that passes the checks is separate from every registered one. */
  lemma CheckedIsSeparate(reg: Registry, b: Block, k: nat)
    requires RegisterErr(reg, b) == Ok && k < |reg|
    ensures Separate(reg[k], b) && reg[k].addr != b.addr
  {
    forall i, j | 0 <= i < |reg[k].cmds| && 0 <= j < |b.cmds|
      ensures Distinguishable(reg[k].cmds[i], b.cmds[j])
    {
      ChecksPassed(reg, b.cmds, j);
      UnmatchedByCheck(reg, k, i, b.cmds[j]);
    }
  }

  lemma CheckedHasNoPrefixKey(reg: Registry, b: Block)
    requires RegisterErr(reg, b) == Ok
    ensures NoPrefixKey(b)
  {
    forall j | 0 <= j < |b.cmds| ensures b.cmds[j].key != LONG_PREFIX {
      ChecksPassed(reg, b.cmds, j);
    }
  }

  lemma RegisterInv(reg: Registry, b: Block)
    requires Inv(reg)
    ensures Inv(Register(reg, b))
  {
    if RegisterErr(reg, b) == Ok {
      CheckedHasNoPrefixKey(reg, b);
      forall k | 0 <= k < |reg| ensures Separate(reg[k], b) && reg[k].addr != b.addr {
        CheckedIsSeparate(reg, b, k);
      }
    }
  }

  lemma {:induction false} UnregisterIndex(reg: Registry, addr: nat) returns (i: nat)
    ensures i <= |reg| && (i < |reg| ==> reg[i].addr == addr)
    ensures Unregister(reg, addr) == if i < |reg| then reg[..i] + reg[i + 1..] else reg
  {
    i := 0;
    while i < |reg| && reg[i].addr != addr
      invariant i <= |reg|
      invariant forall j :: 0 <= j < i ==> reg[j].addr != addr
    {
      i := i + 1;
    }
    UnregisterAt(reg, addr, i);
  }

  lemma RemoveInv(reg: Registry, i: nat)
    requires Inv(reg) && i < |reg|
    ensures Inv(reg[..i] + reg[i + 1..])
  {
    var t := reg[..i] + reg[i + 1..];
    forall k | 0 <= k < |t| ensures t[k] == reg[if k < i then k else k + 1] {}
    forall k, l | 0 <= k < l < |t| ensures t[k].addr != t[l].addr && Separate(t[k], t[l]) {
      var k1, l1 := if k < i then k else k + 1, if l < i then l else l + 1;
      assert t[k] == reg[k1] && t[l] == reg[l1];
      assert Separate(reg[k1], reg[l1]);
    }
  }

  lemma UnregisterInv(reg: Registry, addr: nat)
    requires Inv(reg)
    ensures Inv(Unregister(reg, addr))
  {
    var i := UnregisterIndex(reg, addr);
    if i < |reg| {
      RemoveInv(reg, i);
    }
  }

  lemma {:induction false} RunInv(reg: Registry, es: seq<Event>)
    requires Inv(reg)
    ensures Inv(Run(reg, es))
    decreases |es|
  {
    if es == [] {
    } else {
      match es[0] {
        case Add(b) => RegisterInv(reg, b);
        case Remove(addr) => UnregisterInv(reg, addr);
      }
      RunInv(Step(reg, es[0]), es[1..]);
    }
  }

  /** Unregistering what has just been registered restores the registry. */
  lemma UnregisterUndoesRegister(reg: Registry, b: Block)
    requires RegisterErr(reg, b) == Ok
    ensures Unregister(Register(reg, b), b.addr) == reg
  {
    UnregisterAt(reg + [b], b.addr, |reg|);
    assert (reg + [b])[..|reg|] + (reg + [b])[|reg| + 1..] == reg;
  }

  /** A query the invariant makes unambiguous. */
  predicate Proper(q: Query) {
    match q
    case ByKey(key) => key != KEYCODE_NONE
    case ByName(name) => name != ""
  }

  lemma {:induction false} FoundInOneBlock(reg: Registry, q: Query, k: nat)
    requires k < |reg| && FindInBlock(reg[k].cmds, q).Some?
    requires forall i :: 0 <= i < |reg| && i != k ==> FindInBlock(reg[i].cmds, q) == None
    ensures Find(reg, q) == FindInBlock(reg[k].cmds, q)
    decreases |reg|
  {
    var n := |reg| - 1;
    if k < n {
      FoundInOneBlock(reg[..n], q, k);
    }
  }

  /** A name that matches a non-empty one is not empty. */
  lemma LowerEmpty(c: Cmd, d: Cmd, q: Query)
    requires Proper(q) && q.Matches(d) && (Distinguishable(c, d) || Distinguishable(d, c))
    ensures !q.Matches(c)
  {
    if q.ByName? {
      assert |Lower(q.name)| > 0;
    }
  }

  lemma OnlyOneMatches(a: Block, b: Block, q: Query)
    requires Proper(q) && FindInBlock(b.cmds, q).Some? && (Separate(a, b) || Separate(b, a))
    ensures FindInBlock(a.cmds, q) == None
  {
    NotFoundInBlock(a.cmds, q);
    NotFoundInBlock(b.cmds, q);
    var j :| 0 <= j < |b.cmds| && q.Matches(b.cmds[j]);
    forall i | 0 <= i < |a.cmds| ensures !q.Matches(a.cmds[i]) {
      assert Distinguishable(a.cmds[i], b.cmds[j]) || Distinguishable(b.cmds[j], a.cmds[i]);
      LowerEmpty(a.cmds[i], b.cmds[j], q);
    }
  }

  /**
   In every reachable registry the block order does not matter: the command found is the one of the only
   block that has a match.
   */
  lemma {:induction false} LookupIsUnambiguous(es: seq<Event>, q: Query, k: nat)
    requires Proper(q)
    requires k < |Run([], es)| && FindInBlock(Run([], es)[k].cmds, q).Some?
    ensures Find(Run([], es), q) == FindInBlock(Run([], es)[k].cmds, q)
  {
    var reg := Run([], es);
    RunInv([], es);
    NotFoundInBlock(reg[k].cmds, q);
    forall i | 0 <= i < |reg| && i != k ensures FindInBlock(reg[i].cmds, q) == None {
      assert if i < k then Separate(reg[i], reg[k]) else Separate(reg[k], reg[i]);
      OnlyOneMatches(reg[i], reg[k], q);
    }
    FoundInOneBlock(reg, q, k);
  }

  // ---------------------------------------------------------------- long commands

  datatype Invocation = Invocation(cmd: Cmd, key: char, prm: Option<string>)

  /** What a call of the command system does: the handlers it calls, and whether it reports success. */
  datatype Effect = Effect(calls: seq<Invocation>, err: Err)

  function DropSpaces(s: string): string {
    if s != "" && s[0] == ' ' then DropSpaces(s[1..]) else s
  }

  function NameLength(s: string): (n: nat)
    ensures n <= |s|
  {
    if s == "" || s[0] == ' ' then 0 else 1 + NameLength(s[1..])
  }

  /** Quotes around the whole parameter are removed. */
  function Unquote(s: string): string {
    if |s| > 1 && s[0] == '"' && s[|s| - 1] == '"' then s[1..|s| - 1] else s
  }

  /** The expression [^ ]+[ ]*[~]*: a name, spaces, and the rest of the line. */
  function Parse(s: string): Option<(string, string)> {
    var t := DropSpaces(s);
    if t == "" then None
    else
      var n := NameLength(t);
      Some((t[..n], Unquote(DropSpaces(t[n..]))))
  }

  /** cmd_process_long */
  function ProcessLong(reg: Registry, s: string): Effect {
    if s == "" then Effect([], EINVAL)
    else
      match Parse(s)
      case None => Effect([], ENOENT)
      case Some((name, prm)) =>
        match Find(reg, ByName(name))
        case None => Effect([], ENOTSUP)
        case Some(cmd) => Effect([Invocation(cmd, LONG_PREFIX, if prm == "" then None else Some(prm))], Ok)
  }

  /** ui_input_long_command: the slash is optional. */
  function InputLongCommand(reg: Registry, s: string): Effect {
    if |s| > 1 && s[0] == '/' then ProcessLong(reg, s[1..]) else ProcessLong(reg, s)
  }

  // ---------------------------------------------------------------- the editor

  /** struct cmd_ctx; the position of its buffer is always at the end of the text. */
  datatype Ctx = Ctx(text: string, cmd: Option<Cmd>, isLong: bool)

  predicate NameStartsWith(c: Cmd, text: string) { IsSet(c.name) && text <= c.name.value }

  function MatchesInBlock(cmds: seq<Cmd>, text: string): seq<Cmd> {
    if cmds == [] then []
    else if NameStartsWith(cmds[0], text) then [cmds[0]] + MatchesInBlock(cmds[1..], text)
    else MatchesInBlock(cmds[1..], text)
  }

  /** get_match_long: all commands whose name starts with the text, in the order of the list. */
  function MatchLong(reg: Registry, text: string): seq<Cmd> {
    if reg == [] then [] else MatchesInBlock(reg[0].cmds, text) + MatchLong(reg[1..], text)
  }

  /** editor_input on the text; the context ends with a new line or the escape key. */
  function EditText(reg: Registry, text: string, key: char, isLong: bool): string {
    if key in {KEYCODE_ESC, KEYCODE_NONE, KEYCODE_REL, '\n'} then text
    else if key == BACKSPACE || key == KEYCODE_DEL then if text == "" then text else text[..|text| - 1]
    else if key == '\t' && isLong then
      var matches := MatchLong(reg, text);
      if |matches| == 1 && IsSet(matches[0].name) then matches[0].name.value else text
    else text + [key]
  }

  /** cmd_process_edit */
  function ProcessEdit(reg: Registry, ctx: Ctx, key: char): (Option<Ctx>, Effect) {
    var text := EditText(reg, ctx.text, key, ctx.isLong);
    var next := if key == KEYCODE_ESC || key == '\n' then None else Some(ctx.(text := text));
    if key != '\n' then (next, Effect([], Ok))
    else if ctx.isLong then (next, ProcessLong(reg, text))
    else if ctx.cmd.Some? then (next, Effect([Invocation(ctx.cmd.value, ctx.cmd.value.key, Some(text))], Ok))
    else (next, Effect([], Ok))
  }

  /** cmd_process */
  function Process(reg: Registry, ctx: Option<Ctx>, key: char): (Option<Ctx>, Effect) {
    if key == KEYCODE_NONE then (ctx, Effect([], EINVAL))
    else if ctx.Some? then
      if key == KEYCODE_REL then (ctx, Effect([], Ok)) else ProcessEdit(reg, ctx.value, key)
    else
      var cmd := Find(reg, ByKey(key));
      if cmd.Some? then
        if cmd.value.prm
        then ProcessEdit(reg, Ctx("", cmd, false), if '0' <= key <= '9' then key else KEYCODE_REL)
        else (ctx, Effect([Invocation(cmd.value, key, None)], Ok))
      else if key == LONG_PREFIX then (Some(Ctx("", None, true)), Effect([], Ok))
      else (ctx, Effect([], Ok))
  }

  /** The calls of both, and an error if there was one. */
  function Then(a: Effect, b: Effect): Effect {
    Effect(a.calls + b.calls, if a.err == Ok then b.err else a.err)
  }

  function ProcessAll(reg: Registry, ctx: Option<Ctx>, keys: string): (Option<Ctx>, Effect)
    decreases |keys|
  {
    if keys == "" then (ctx, Effect([], Ok))
    else
      var (ctx1, e) := Process(reg, ctx, keys[0]);
      var (ctx2, f) := ProcessAll(reg, ctx1, keys[1..]);
      (ctx2, Then(e, f))
  }

  /** ui_input_pl: every character, then a new line if a longer input left the editor open. */
  function InputPl(reg: Registry, s: string): Effect {
    var (ctx, e) := ProcessAll(reg, None, s);
    if |s| > 1 && ctx.Some? then Then(e, Process(reg, ctx, '\n').1) else e
  }

  lemma ThenNothing(e: Effect)
    ensures Then(Effect([], Ok), e) == e == Then(e, Effect([], Ok))
  {
    assert [] + e.calls == e.calls == e.calls + [];
  }

  lemma ThenAssociates(a: Effect, b: Effect, c: Effect)
    ensures Then(Then(a, b), c) == Then(a, Then(b, c))
  {
    assert a.calls + b.calls + c.calls == a.calls + (b.calls + c.calls);
  }

  method InputKeys(reg: Registry, s: string) returns (effect: Effect)
    ensures effect == InputPl(reg, s)
  {
    var ctx: Option<Ctx> := None;
    effect := Effect([], Ok);
    var i := 0;
    ghost var goal := ProcessAll(reg, None, s);
    ThenNothing(goal.1);
    while i < |s|
      invariant 0 <= i <= |s|
      invariant ProcessAll(reg, ctx, s[i..]).0 == goal.0
      invariant Then(effect, ProcessAll(reg, ctx, s[i..]).1) == goal.1
    {
      var (next, e) := Process(reg, ctx, s[i]);
      assert s[i..][0] == s[i] && s[i..][1..] == s[i + 1..];
      ThenAssociates(effect, e, ProcessAll(reg, next, s[i + 1..]).1);
      ctx, effect := next, Then(effect, e);
      i := i + 1;
    }
    assert s[i..] == "";
    ThenNothing(effect);
    if |s| > 1 && ctx.Some? {
      var (_, e) := Process(reg, ctx, '\n');
      effect := Then(effect, e);
    }
  }

  // ---------------------------------------------------------------- typing a long command

  /** Characters that keep the long-command editor open. */
  predicate Editing(c: char) { c != KEYCODE_NONE && c != KEYCODE_ESC && c != '\n' }

  /** Characters that only add themselves to the text. */
  predicate Ordinary(c: char) {
    Editing(c) && c != KEYCODE_REL && c != BACKSPACE && c != KEYCODE_DEL && c != '\t'
  }

  /** The text after typing keys, with backspaces and completions. */
  function Typed(reg: Registry, text: string, keys: string): string
    decreases |keys|
  {
    if keys == "" then text else Typed(reg, EditText(reg, text, keys[0], true), keys[1..])
  }

  lemma {:induction false} TypingEdits(reg: Registry, text: string, keys: string)
    requires forall i :: 0 <= i < |keys| ==> Editing(keys[i])
    ensures ProcessAll(reg, Some(Ctx(text, None, true)), keys) == (Some(Ctx(Typed(reg, text, keys), None, true)), Effect([], Ok))
    decreases |keys|
  {
    if keys == "" {
    } else {
      var text1 := EditText(reg, text, keys[0], true);
      assert Process(reg, Some(Ctx(text, None, true)), keys[0]) == (Some(Ctx(text1, None, true)), Effect([], Ok));
      TypingEdits(reg, text1, keys[1..]);
      ThenNothing(Effect([], Ok));
    }
  }

  lemma {:induction false} OrdinaryTyping(reg: Registry, text: string, keys: string)
    requires forall i :: 0 <= i < |keys| ==> Ordinary(keys[i])
    ensures Typed(reg, text, keys) == text + keys
    decreases |keys|
  {
    if keys == "" {
      assert text + keys == text;
    } else {
      OrdinaryTyping(reg, text + [keys[0]], keys[1..]);
      assert text + [keys[0]] + keys[1..] == text + keys;
    }
  }

  lemma {:induction false} PrefixKeyIsFree(reg: Registry)
    requires Inv(reg)
    ensures Find(reg, ByKey(LONG_PREFIX)) == None
  {
    NotFound(reg, ByKey(LONG_PREFIX));
    forall i | 0 <= i < |reg| ensures FindInBlock(reg[i].cmds, ByKey(LONG_PREFIX)) == None {
      NotFoundInBlock(reg[i].cmds, ByKey(LONG_PREFIX));
    }
  }

  lemma {:induction false} SlashOpensEditor(reg: Registry, keys: string)
    requires Inv(reg) && keys != "" && forall i :: 0 <= i < |keys| ==> Editing(keys[i])
    ensures InputPl(reg, "/" + keys) == ProcessLong(reg, Typed(reg, "", keys))
  {
    var s, nothing := "/" + keys, Effect([], Ok);
    var ctx := Some(Ctx(Typed(reg, "", keys), None, true));
    PrefixKeyIsFree(reg);
    assert s[0] == LONG_PREFIX && s[1..] == keys;
    assert Process(reg, None, LONG_PREFIX) == (Some(Ctx("", None, true)), nothing);
    TypingEdits(reg, "", keys);
    ThenNothing(nothing);
    assert ProcessAll(reg, None, s) == (ctx, nothing);
    assert Process(reg, ctx, '\n').1 == ProcessLong(reg, ctx.value.text);
    ThenNothing(ProcessLong(reg, ctx.value.text));
  }

  /** In every reachable registry, typing a slash and editing keys runs the long command that has been edited. */
  lemma {:induction false} TypedLongCommand(es: seq<Event>, keys: string)
    requires keys != "" && forall i :: 0 <= i < |keys| ==> Editing(keys[i])
    ensures InputPl(Run([], es), "/" + keys) == ProcessLong(Run([], es), Typed(Run([], es), "", keys))
  {
    RunInv([], es);
    SlashOpensEditor(Run([], es), keys);
  }

  lemma {:induction false} SlashTyped(reg: Registry)
    requires Inv(reg)
    ensures InputPl(reg, "/").calls == []
  {
    PrefixKeyIsFree(reg);
    assert "/"[1..] == "";
    assert ProcessAll(reg, Some(Ctx("", None, true)), "") == (Some(Ctx("", None, true)), Effect([], Ok));
    ThenNothing(Effect([], Ok));
  }

  lemma {:induction false} SlashGiven(reg: Registry)
    ensures InputLongCommand(reg, "/").calls == [] <==> Find(reg, ByName("/")) == None
  {
    assert DropSpaces("/") == "/" && NameLength("/") == 1 by {
      assert NameLength("") == 0;
    }
    assert "/"[..1] == "/";
  }

  lemma {:induction false} LoneSlash(es: seq<Event>)
    ensures var reg := Run([], es);
            InputPl(reg, "/").calls == [] && (InputLongCommand(reg, "/").calls == [] <==> Find(reg, ByName("/")) == None)
  {
    RunInv([], es);
    SlashTyped(Run([], es));
    SlashGiven(Run([], es));
  }

  /**
   Typing a slash and a text of ordinary characters does exactly what giving the same string as a long
   command does, for every reachable registry, except for a single slash: the editor then runs nothing,
   the string form looks for a command of that name.
   */
  lemma {:induction false} TypingIsLongCommand(es: seq<Event>, keys: string)
    requires forall i :: 0 <= i < |keys| ==> Ordinary(keys[i])
    ensures var reg := Run([], es);
            InputPl(reg, "/" + keys).calls == InputLongCommand(reg, "/" + keys).calls
            <==> keys != "" || Find(reg, ByName("/")) == None
    ensures keys != "" ==> InputPl(Run([], es), "/" + keys) == InputLongCommand(Run([], es), "/" + keys)
  {
    var reg := Run([], es);
    if keys != "" {
      TypedLongCommand(es, keys);
      OrdinaryTyping(reg, "", keys);
      assert "" + keys == keys && ("/" + keys)[1..] == keys;
    } else {
      LoneSlash(es);
      assert "/" + keys == "/";
    }
  }

  /** A command may be called "/": then the two forms differ. */
  lemma {:induction false} LoneSlashExample(c: Cmd)
    requires c == Cmd(1, Some("/"), KEYCODE_NONE, false, true)
    ensures var reg := Run([], [Add(Block(1, [c]))]);
            Find(reg, ByName("/")) == Some(c) && InputPl(reg, "/").calls != InputLongCommand(reg, "/").calls
  {
    var b := Block(1, [c]);
    var es := [Add(b)];
    assert CheckCmd([], c) == Ok && [c][1..] == [];
    assert CheckCmds([], [c]) == CheckCmds([], []);
    assert Register([], b) == [b];
    assert es[1..] == [];
    assert Run([], es) == Run([b], []);
    assert ByName("/").Matches(c);
    LoneSlash(es);
  }
}
