/** The command language of sh.c over tokens: the parser's functions, and the grammar they accept. */
module ShellGrammar {

  const MAXARGS := 10
  const O_RDONLY := 0
  const O_WRONLY := 1
  const O_CREATE := 0x200

  datatype Option<T> = None | Some(value: T)

  /** Append is ">>". */
  datatype Token = Sym(c: char) | Append | Word(w: string)

  /** Words are text here, and positions in the input line in the parser proper. */
  datatype Redirection<W> = Redirection(file: W, mode: int, fd: int)

  datatype Cmd<W> =
    | Exec(args: seq<W>)
    | Redir(cmd: Cmd<W>, r: Redirection<W>)
    | Pipe(left: Cmd<W>, right: Cmd<W>)
    | List(left: Cmd<W>, right: Cmd<W>)
    | Back(cmd: Cmd<W>)

  /** A result and the tokens left, or the argument of panic. */
  datatype Parsed<T> = Ok(v: T, rest: seq<Token>) | Panic(msg: string)

  predicate Starts(ts: seq<Token>, c: char) {
    ts != [] && ts[0] == Sym(c)
  }

  predicate StartsRedir(ts: seq<Token>) {
    Starts(ts, '<') || Starts(ts, '>') || (ts != [] && ts[0].Append?)
  }

  /** Where parseexec stops. */
  predicate Stops(ts: seq<Token>) {
    ts == [] || Starts(ts, '|') || Starts(ts, ')') || Starts(ts, '&') || Starts(ts, ';')
  }

  function ModeOf(t: Token): int {
    if t == Sym('<') then O_RDONLY else O_WRONLY + O_CREATE
  }

  function FdOf(t: Token): int {
    if t == Sym('<') then 0 else 1
  }

  /** Later redirections go outside. */
  function Wrap<W>(c: Cmd<W>, rs: seq<Redirection<W>>): Cmd<W>
    decreases |rs|
  {
    if rs == [] then c else Wrap(Redir(c, rs[0]), rs[1..])
  }

  // ---------- the parser ----------

  function ParseRedirs(ts: seq<Token>): (p: Parsed<seq<Redirection<string>>>)
    ensures p.Ok? ==> |p.rest| <= |ts|
    decreases |ts|
  {
    if !StartsRedir(ts) then Ok([], ts)
    else if |ts| < 2 || !ts[1].Word? then Panic("missing file for redirection")
    else
      var p := ParseRedirs(ts[2..]);
      if p.Panic? then p else Ok([Redirection(ts[1].w, ModeOf(ts[0]), FdOf(ts[0]))] + p.v, p.rest)
  }

  datatype Items = Items(args: seq<string>, rs: seq<Redirection<string>>)

  /** parseexec's loop, n arguments already there. */
  function ParseArgs(ts: seq<Token>, n: nat): (p: Parsed<Items>)
    ensures p.Ok? ==> |p.rest| <= |ts|
    decreases |ts|
  {
    if Stops(ts) then Ok(Items([], []), ts)
    else if !ts[0].Word? then Panic("syntax")
    else if n + 1 >= MAXARGS then Panic("too many args")
    else
      var p := ParseRedirs(ts[1..]);
      if p.Panic? then Panic(p.msg)
      else
        var q := ParseArgs(p.rest, n + 1);
        if q.Panic? then q else Ok(Items([ts[0].w] + q.v.args, p.v + q.v.rs), q.rest)
  }

  function ParseExec(ts: seq<Token>): (p: Parsed<Cmd<string>>)
    ensures p.Ok? ==> |p.rest| <= |ts|
    decreases |ts|, 1
  {
    if Starts(ts, '(') then ParseBlock(ts)
    else
      var p := ParseRedirs(ts);
      if p.Panic? then Panic(p.msg)
      else
        var q := ParseArgs(p.rest, 0);
        if q.Panic? then Panic(q.msg) else Ok(Wrap(Exec(q.v.args), p.v + q.v.rs), q.rest)
  }

  function ParseBlock(ts: seq<Token>): (p: Parsed<Cmd<string>>)
    requires Starts(ts, '(')
    ensures p.Ok? ==> |p.rest| <= |ts|
    decreases |ts|, 0
  {
    var p := ParseLine(ts[1..]);
    if p.Panic? then p
    else if !Starts(p.rest, ')') then Panic("syntax - missing )")
    else
      var q := ParseRedirs(p.rest[1..]);
      if q.Panic? then Panic(q.msg) else Ok(Wrap(p.v, q.v), q.rest)
  }

  function ParsePipe(ts: seq<Token>): (p: Parsed<Cmd<string>>)
    ensures p.Ok? ==> |p.rest| <= |ts|
    decreases |ts|, 2
  {
    var p := ParseExec(ts);
    if p.Ok? && Starts(p.rest, '|') then
      var q := ParsePipe(p.rest[1..]);
      if q.Panic? then q else Ok(Pipe(p.v, q.v), q.rest)
    else p
  }

  function CountAmps(ts: seq<Token>): (n: nat)
    ensures n <= |ts|
  {
    if Starts(ts, '&') then 1 + CountAmps(ts[1..]) else 0
  }

  function Backs<W>(c: Cmd<W>, n: nat): Cmd<W>
    decreases n
  {
    if n == 0 then c else Backs(Back(c), n - 1)
  }

  function ParseLine(ts: seq<Token>): (p: Parsed<Cmd<string>>)
    ensures p.Ok? ==> |p.rest| <= |ts|
    decreases |ts|, 3
  {
    var p := ParsePipe(ts);
    if p.Panic? then p
    else
      var n := CountAmps(p.rest);
      var c, rest := Backs(p.v, n), p.rest[n..];
      if Starts(rest, ';') then
        var q := ParseLine(rest[1..]);
        if q.Panic? then q else Ok(List(c, q.v), q.rest)
      else Ok(c, rest)
  }

  /** parsecmd: the whole input. */
  function Parse(ts: seq<Token>): Parsed<Cmd<string>> {
    var p := ParseLine(ts);
    if p.Ok? && p.rest != [] then Panic("syntax") else p
  }

  // ---------- the grammar ----------

  /** A line is written pipeline &* [; line]; a pipeline is unit [| pipeline]; a unit is a line in
      parentheses followed by redirections, or words with redirections anywhere between them. */
  datatype Line = Line(p: Pipeline, amps: nat, next: Option<Line>)
  datatype Pipeline = Pipeline(u: Unit, next: Option<Pipeline>)
  datatype Unit = Block(l: Line, rs: seq<Arrow>) | Simple(rs: seq<Arrow>, args: seq<Arg>)
  datatype Arg = Arg(w: string, rs: seq<Arrow>)
  datatype Arrow = In(file: string) | Out(file: string) | App(file: string)

  function ArrowToks(rs: seq<Arrow>): seq<Token> {
    if rs == [] then []
    else [ArrowTok(rs[0]), Word(rs[0].file)] + ArrowToks(rs[1..])
  }

  function ArgToks(args: seq<Arg>): seq<Token> {
    if args == [] then [] else [Word(args[0].w)] + ArrowToks(args[0].rs) + ArgToks(args[1..])
  }

  function UnitToks(u: Unit): seq<Token>
    decreases u, 0
  {
    match u
    case Block(l, rs) => [Sym('(')] + LineToks(l) + [Sym(')')] + ArrowToks(rs)
    case Simple(rs, args) => ArrowToks(rs) + ArgToks(args)
  }

  function PipeToks(p: Pipeline): seq<Token>
    decreases p, 0
  {
    UnitToks(p.u) + if p.next.Some? then [Sym('|')] + PipeToks(p.next.value) else []
  }

  function Amps(n: nat): seq<Token> {
    if n == 0 then [] else [Sym('&')] + Amps(n - 1)
  }

  function LineToks(l: Line): seq<Token>
    decreases l, 0
  {
    PipeToks(l.p) + Amps(l.amps) + if l.next.Some? then [Sym(';')] + LineToks(l.next.value) else []
  }

  function ArrowOf(a: Arrow): Redirection<string> {
    if a.In? then Redirection(a.file, O_RDONLY, 0) else Redirection(a.file, O_WRONLY + O_CREATE, 1)
  }

  function ArrowsOf(rs: seq<Arrow>): seq<Redirection<string>> {
    if rs == [] then [] else [ArrowOf(rs[0])] + ArrowsOf(rs[1..])
  }

  function ArgsOf(args: seq<Arg>): Items {
    if args == [] then Items([], [])
    else Items([args[0].w] + ArgsOf(args[1..]).args, ArrowsOf(args[0].rs) + ArgsOf(args[1..]).rs)
  }

  /** The command that a unit, pipeline or line stands for. */
  function UnitCmd(u: Unit): Cmd<string>
    decreases u, 0
  {
    match u
    case Block(l, rs) => Wrap(LineCmd(l), ArrowsOf(rs))
    case Simple(rs, args) => Wrap(Exec(ArgsOf(args).args), ArrowsOf(rs) + ArgsOf(args).rs)
  }

  function PipeCmd(p: Pipeline): Cmd<string>
    decreases p, 0
  {
    if p.next.Some? then Pipe(UnitCmd(p.u), PipeCmd(p.next.value)) else UnitCmd(p.u)
  }

  function LineCmd(l: Line): Cmd<string>
    decreases l, 0
  {
    var c := Backs(PipeCmd(l.p), l.amps);
    if l.next.Some? then List(c, LineCmd(l.next.value)) else c
  }

  /** No more arguments than parseexec takes. */
  predicate SmallUnit(u: Unit)
    decreases u, 0
  {
    match u
    case Block(l, rs) => SmallLine(l)
    case Simple(rs, args) => |args| < MAXARGS
  }

  predicate SmallPipe(p: Pipeline)
    decreases p, 0
  {
    SmallUnit(p.u) && (p.next.Some? ==> SmallPipe(p.next.value))
  }

  predicate SmallLine(l: Line)
    decreases l, 0
  {
    SmallPipe(l.p) && (l.next.Some? ==> SmallLine(l.next.value))
  }

  // ---------- whatever the grammar writes, the parser reads back ----------

  function ArrowTok(a: Arrow): Token {
    if a.In? then Sym('<') else if a.Out? then Sym('>') else Append
  }

  lemma {:induction false} RedirsStep(a: Arrow, more: seq<Token>, rs: seq<Redirection<string>>, rest: seq<Token>)
    requires ParseRedirs(more) == Ok(rs, rest)
    ensures ParseRedirs([ArrowTok(a), Word(a.file)] + more) == Ok([ArrowOf(a)] + rs, rest)
  {
    assert ([ArrowTok(a), Word(a.file)] + more)[2..] == more;
  }

  lemma {:induction false} ReadRedirs(rs: seq<Arrow>, rest: seq<Token>)
    requires !StartsRedir(rest)
    ensures ParseRedirs(ArrowToks(rs) + rest) == Ok(ArrowsOf(rs), rest)
  {
    if rs == [] {
      assert ArrowToks(rs) + rest == rest;
    } else {
      ReadRedirs(rs[1..], rest);
      RedirsStep(rs[0], ArrowToks(rs[1..]) + rest, ArrowsOf(rs[1..]), rest);
      Assoc([ArrowTok(rs[0]), Word(rs[0].file)], ArrowToks(rs[1..]), rest);
    }
  }

  /** (a + b + c) + d, with the first token of a + b split off. */
  lemma Shift(t: Token, b: seq<Token>, c: seq<Token>, d: seq<Token>)
    ensures ([t] + b + c) + d == [t] + (b + (c + d))
    ensures (([t] + b + c) + d)[1..] == b + (c + d)
  {
    assert ([t] + b + c) + d == [t] + (b + (c + d));
  }

  lemma Assoc(a: seq<Token>, b: seq<Token>, c: seq<Token>)
    ensures (a + b) + c == a + (b + c)
  {
  }

  lemma {:induction false} ArgsStep(ts: seq<Token>, n: nat, rs: seq<Redirection<string>>, mid: seq<Token>, items: Items, rest: seq<Token>)
    requires ts != [] && ts[0].Word? && n + 1 < MAXARGS
    requires ParseRedirs(ts[1..]) == Ok(rs, mid) && ParseArgs(mid, n + 1) == Ok(items, rest)
    ensures ParseArgs(ts, n) == Ok(Items([ts[0].w] + items.args, rs + items.rs), rest)
  {
  }

  lemma {:induction false} NoArrow(args: seq<Arg>, rest: seq<Token>)
    requires Stops(rest)
    ensures !StartsRedir(ArgToks(args) + rest) && !Starts(ArgToks(args) + rest, '(')
  {
    if args != [] {
      assert (ArgToks(args) + rest)[0] == Word(args[0].w);
    } else {
      assert ArgToks(args) + rest == rest;
    }
  }

  lemma {:induction false} ReadArgs(args: seq<Arg>, n: nat, rest: seq<Token>)
    requires Stops(rest) && n + |args| < MAXARGS
    ensures ParseArgs(ArgToks(args) + rest, n) == Ok(ArgsOf(args), rest)
  {
    if args == [] {
      assert ArgToks(args) + rest == rest;
    } else {
      ReadArgs(args[1..], n + 1, rest);
      var more := ArgToks(args[1..]) + rest;
      NoArrow(args[1..], rest);
      ReadRedirs(args[0].rs, more);
      Shift(Word(args[0].w), ArrowToks(args[0].rs), ArgToks(args[1..]), rest);
      ArgsStep(ArgToks(args) + rest, n, ArrowsOf(args[0].rs), more, ArgsOf(args[1..]), rest);
    }
  }

  lemma {:induction false} BlockStep(ts: seq<Token>, c: Cmd<string>, mid: seq<Token>, rs: seq<Redirection<string>>, rest: seq<Token>)
    requires Starts(ts, '(') && ParseLine(ts[1..]) == Ok(c, [Sym(')')] + mid) && ParseRedirs(mid) == Ok(rs, rest)
    ensures ParseExec(ts) == Ok(Wrap(c, rs), rest)
  {
    assert ([Sym(')')] + mid)[1..] == mid;
  }

  lemma {:induction false} SimpleStep(ts: seq<Token>, rs: seq<Redirection<string>>, mid: seq<Token>, items: Items, rest: seq<Token>)
    requires !Starts(ts, '(') && ParseRedirs(ts) == Ok(rs, mid) && ParseArgs(mid, 0) == Ok(items, rest)
    ensures ParseExec(ts) == Ok(Wrap(Exec(items.args), rs + items.rs), rest)
  {
  }

  lemma Shut(a: seq<Token>, b: seq<Token>, c: seq<Token>)
    ensures [Sym('(')] + (a + ([Sym(')')] + (b + c))) == ([Sym('(')] + a + [Sym(')')] + b) + c
    ensures (([Sym('(')] + a + [Sym(')')] + b) + c)[1..] == a + ([Sym(')')] + (b + c))
  {
    assert [Sym('(')] + (a + ([Sym(')')] + (b + c))) == ([Sym('(')] + a + [Sym(')')] + b) + c;
  }

  lemma {:induction false} NoParen(rs: seq<Arrow>, more: seq<Token>)
    requires !Starts(more, '(')
    ensures !Starts(ArrowToks(rs) + more, '(')
  {
    if rs == [] {
      assert ArrowToks(rs) + more == more;
    }
  }

  lemma {:induction false} ReadUnit(u: Unit, rest: seq<Token>)
    requires SmallUnit(u) && Stops(rest)
    ensures ParseExec(UnitToks(u) + rest) == Ok(UnitCmd(u), rest)
    decreases u, 0
  {
    match u
    case Block(l, rs) =>
      var mid := ArrowToks(rs) + rest;
      ReadLine(l, [Sym(')')] + mid);
      Shut(LineToks(l), ArrowToks(rs), rest);
      ReadRedirs(rs, rest);
      BlockStep(UnitToks(u) + rest, LineCmd(l), mid, ArrowsOf(rs), rest);
    case Simple(rs, args) =>
      var mid := ArgToks(args) + rest;
      Assoc(ArrowToks(rs), ArgToks(args), rest);
      NoArrow(args, rest);
      NoParen(rs, mid);
      ReadRedirs(rs, mid);
      ReadArgs(args, 0, rest);
      SimpleStep(UnitToks(u) + rest, ArrowsOf(rs), mid, ArgsOf(args), rest);
  }

  lemma {:induction false} ReadPipe(p: Pipeline, rest: seq<Token>)
    requires SmallPipe(p) && Stops(rest) && !Starts(rest, '|')
    ensures ParsePipe(PipeToks(p) + rest) == Ok(PipeCmd(p), rest)
    decreases p, 0
  {
    if p.next.None? {
      assert UnitToks(p.u) + [] == UnitToks(p.u);
      ReadUnit(p.u, rest);
    } else {
      var more := PipeToks(p.next.value) + rest;
      Assoc(UnitToks(p.u), [Sym('|')] + PipeToks(p.next.value), rest);
      Assoc([Sym('|')], PipeToks(p.next.value), rest);
      ReadUnit(p.u, [Sym('|')] + more);
      ReadPipe(p.next.value, rest);
      PipeStep(PipeToks(p) + rest, UnitCmd(p.u), more, PipeCmd(p.next.value), rest);
    }
  }

  lemma {:induction false} PipeStep(ts: seq<Token>, c: Cmd<string>, mid: seq<Token>, d: Cmd<string>, rest: seq<Token>)
    requires ParseExec(ts) == Ok(c, [Sym('|')] + mid) && ParsePipe(mid) == Ok(d, rest)
    ensures ParsePipe(ts) == Ok(Pipe(c, d), rest)
  {
    assert ([Sym('|')] + mid)[1..] == mid;
  }

  lemma {:induction false} ReadAmps(n: nat, rest: seq<Token>)
    requires !Starts(rest, '&')
    ensures CountAmps(Amps(n) + rest) == n && (Amps(n) + rest)[n..] == rest && |Amps(n)| == n
  {
    if n == 0 {
      assert Amps(n) + rest == rest;
    } else {
      ReadAmps(n - 1, rest);
      assert (Amps(n) + rest)[1..] == Amps(n - 1) + rest;
    }
  }

  lemma {:induction false} ReadLine(l: Line, rest: seq<Token>)
    requires SmallLine(l) && (rest == [] || Starts(rest, ')'))
    ensures ParseLine(LineToks(l) + rest) == Ok(LineCmd(l), rest)
    decreases l, 0
  {
    if l.next.None? {
      StopsAfter(l.amps, rest);
      ReadPipe(l.p, Amps(l.amps) + rest);
      Join(PipeToks(l.p), Amps(l.amps), [], rest);
      LineEnd(LineToks(l) + rest, PipeCmd(l.p), l.amps, rest);
    } else {
      var more := LineToks(l.next.value) + rest;
      StopsAfter(l.amps, [Sym(';')] + more);
      ReadPipe(l.p, Amps(l.amps) + ([Sym(';')] + more));
      Join(PipeToks(l.p), Amps(l.amps), [Sym(';')] + LineToks(l.next.value), rest);
      Assoc([Sym(';')], LineToks(l.next.value), rest);
      ReadLine(l.next.value, rest);
      LineStep(LineToks(l) + rest, PipeCmd(l.p), l.amps, more, LineCmd(l.next.value), rest);
    }
  }

  lemma Join(a: seq<Token>, b: seq<Token>, c: seq<Token>, d: seq<Token>)
    ensures (a + b + c) + d == a + (b + (c + d))
    ensures c == [] ==> c + d == d
  {
  }

  lemma {:induction false} LineEnd(ts: seq<Token>, c: Cmd<string>, n: nat, rest: seq<Token>)
    requires ParsePipe(ts) == Ok(c, Amps(n) + rest) && !Starts(rest, '&') && !Starts(rest, ';')
    ensures ParseLine(ts) == Ok(Backs(c, n), rest)
  {
    ReadAmps(n, rest);
  }

  lemma {:induction false} StopsAfter(n: nat, tail: seq<Token>)
    requires Stops(tail) && !Starts(tail, '|')
    ensures Stops(Amps(n) + tail) && !Starts(Amps(n) + tail, '|')
  {
    if n == 0 {
      assert Amps(n) + tail == tail;
    }
  }

  lemma {:induction false} LineStep(ts: seq<Token>, c: Cmd<string>, n: nat, mid: seq<Token>, d: Cmd<string>, rest: seq<Token>)
    requires ParsePipe(ts) == Ok(c, Amps(n) + ([Sym(';')] + mid)) && ParseLine(mid) == Ok(d, rest)
    ensures ParseLine(ts) == Ok(List(Backs(c, n), d), rest)
  {
    ReadAmps(n, [Sym(';')] + mid);
    assert ([Sym(';')] + mid)[1..] == mid;
  }

  // ---------- whatever the parser reads, the grammar writes ----------

  lemma {:induction false} ArrowsCons(a: Arrow, rs: seq<Arrow>)
    ensures ArrowToks([a] + rs) == [ArrowTok(a), Word(a.file)] + ArrowToks(rs) && ArrowsOf([a] + rs) == [ArrowOf(a)] + ArrowsOf(rs)
  {
    assert ([a] + rs)[1..] == rs;
  }

  function AsArrowTok(t: Token, file: string): Arrow {
    if t == Sym('<') then In(file) else if t == Sym('>') then Out(file) else App(file)
  }

  lemma {:induction false} RedirsParts(ts: seq<Token>)
    requires StartsRedir(ts) && ParseRedirs(ts).Ok?
    ensures |ts| >= 2 && ts[1].Word? && ParseRedirs(ts[2..]).Ok? && ts == [ts[0], ts[1]] + ts[2..]
    ensures var a := AsArrowTok(ts[0], ts[1].w);
      && ParseRedirs(ts) == Ok([ArrowOf(a)] + ParseRedirs(ts[2..]).v, ParseRedirs(ts[2..]).rest)
      && [ts[0], ts[1]] == [ArrowTok(a), Word(a.file)]
  {
  }

  lemma {:induction false} WroteRedirs(ts: seq<Token>) returns (rs: seq<Arrow>)
    requires ParseRedirs(ts).Ok?
    ensures ParseRedirs(ts).v == ArrowsOf(rs) && ts == ArrowToks(rs) + ParseRedirs(ts).rest
    decreases |ts|
  {
    if !StartsRedir(ts) {
      rs := [];
    } else {
      RedirsParts(ts);
      var a := AsArrowTok(ts[0], ts[1].w);
      var more := WroteRedirs(ts[2..]);
      rs := [a] + more;
      ArrowsCons(a, more);
      Assoc([ts[0], ts[1]], ArrowToks(more), ParseRedirs(ts[2..]).rest);
    }
  }

  lemma {:induction false} ArgsCons(a: Arg, args: seq<Arg>)
    ensures ArgToks([a] + args) == [Word(a.w)] + ArrowToks(a.rs) + ArgToks(args)
    ensures ArgsOf([a] + args) == Items([a.w] + ArgsOf(args).args, ArrowsOf(a.rs) + ArgsOf(args).rs)
  {
    assert ([a] + args)[1..] == args;
  }

  lemma {:induction false} ArgsParts(ts: seq<Token>, n: nat)
    requires !Stops(ts) && ParseArgs(ts, n).Ok?
    ensures ts[0].Word? && n + 1 < MAXARGS && ParseRedirs(ts[1..]).Ok? && ts == [ts[0]] + ts[1..]
    ensures var p := ParseRedirs(ts[1..]); var q := ParseArgs(p.rest, n + 1);
      q.Ok? && ParseArgs(ts, n) == Ok(Items([ts[0].w] + q.v.args, p.v + q.v.rs), q.rest)
  {
  }

  lemma {:induction false} WroteArgs(ts: seq<Token>, n: nat) returns (args: seq<Arg>)
    requires ParseArgs(ts, n).Ok?
    ensures ParseArgs(ts, n).v == ArgsOf(args) && ts == ArgToks(args) + ParseArgs(ts, n).rest
    ensures args != [] ==> n + |args| < MAXARGS
    decreases |ts|
  {
    if Stops(ts) {
      args := [];
    } else {
      ArgsParts(ts, n);
      var rs := WroteRedirs(ts[1..]);
      var mid := ParseRedirs(ts[1..]).rest;
      var more := WroteArgs(mid, n + 1);
      args := [Arg(ts[0].w, rs)] + more;
      ArgsCons(Arg(ts[0].w, rs), more);
      Shift(ts[0], ArrowToks(rs), ArgToks(more), ParseArgs(mid, n + 1).rest);
    }
  }

  lemma {:induction false} BlockParts(ts: seq<Token>)
    requires Starts(ts, '(') && ParseExec(ts).Ok?
    ensures ts == [Sym('(')] + ts[1..] && ParseLine(ts[1..]).Ok?
    ensures var mid := ParseLine(ts[1..]).rest;
      && Starts(mid, ')') && mid == [Sym(')')] + mid[1..] && ParseRedirs(mid[1..]).Ok?
      && ParseExec(ts) == Ok(Wrap(ParseLine(ts[1..]).v, ParseRedirs(mid[1..]).v), ParseRedirs(mid[1..]).rest)
  {
  }

  lemma {:induction false} WroteUnit(ts: seq<Token>) returns (u: Unit)
    requires ParseExec(ts).Ok?
    ensures SmallUnit(u) && ParseExec(ts).v == UnitCmd(u) && ts == UnitToks(u) + ParseExec(ts).rest
    decreases |ts|, 1
  {
    if Starts(ts, '(') {
      BlockParts(ts);
      var l := WroteLine(ts[1..]);
      var mid := ParseLine(ts[1..]).rest;
      var rs := WroteRedirs(mid[1..]);
      u := Block(l, rs);
      Shut(LineToks(l), ArrowToks(rs), ParseRedirs(mid[1..]).rest);
    } else {
      var rs := WroteRedirs(ts);
      var mid := ParseRedirs(ts).rest;
      var args := WroteArgs(mid, 0);
      u := Simple(rs, args);
      Assoc(ArrowToks(rs), ArgToks(args), ParseArgs(mid, 0).rest);
    }
  }

  lemma {:induction false} PipeParts(ts: seq<Token>)
    requires ParsePipe(ts).Ok?
    ensures ParseExec(ts).Ok?
    ensures var mid := ParseExec(ts).rest;
      if Starts(mid, '|') then
        && mid == [Sym('|')] + mid[1..] && ParsePipe(mid[1..]).Ok?
        && ParsePipe(ts) == Ok(Pipe(ParseExec(ts).v, ParsePipe(mid[1..]).v), ParsePipe(mid[1..]).rest)
      else ParsePipe(ts) == ParseExec(ts)
  {
  }

  lemma {:induction false} WrotePipe(ts: seq<Token>) returns (p: Pipeline)
    requires ParsePipe(ts).Ok?
    ensures SmallPipe(p) && ParsePipe(ts).v == PipeCmd(p) && ts == PipeToks(p) + ParsePipe(ts).rest
    decreases |ts|, 2
  {
    PipeParts(ts);
    var u := WroteUnit(ts);
    var mid := ParseExec(ts).rest;
    if Starts(mid, '|') {
      var q := WrotePipe(mid[1..]);
      p := Pipeline(u, Some(q));
      Join(UnitToks(u), [Sym('|')], PipeToks(q), ParsePipe(mid[1..]).rest);
      Assoc(UnitToks(u), [Sym('|')], PipeToks(q));
    } else {
      p := Pipeline(u, None);
      Join(UnitToks(u), [], [], mid);
    }
  }

  lemma {:induction false} WroteAmps(ts: seq<Token>)
    ensures ts == Amps(CountAmps(ts)) + ts[CountAmps(ts)..]
  {
    if Starts(ts, '&') {
      WroteAmps(ts[1..]);
      assert ts == [Sym('&')] + ts[1..];
      assert ts[1..][CountAmps(ts[1..])..] == ts[CountAmps(ts)..];
    }
  }

  lemma {:induction false} LineParts(ts: seq<Token>)
    requires ParseLine(ts).Ok?
    ensures ParsePipe(ts).Ok?
    ensures var mid := ParsePipe(ts).rest; var n := CountAmps(mid); var c := Backs(ParsePipe(ts).v, n);
      if Starts(mid[n..], ';') then
        && mid[n..] == [Sym(';')] + mid[n + 1..] && ParseLine(mid[n + 1..]).Ok?
        && ParseLine(ts) == Ok(List(c, ParseLine(mid[n + 1..]).v), ParseLine(mid[n + 1..]).rest)
      else ParseLine(ts) == Ok(c, mid[n..])
  {
    var mid := ParsePipe(ts).rest;
    var n := CountAmps(mid);
    if Starts(mid[n..], ';') {
      assert mid[n..][1..] == mid[n + 1..];
    }
  }

  lemma {:induction false} WroteLine(ts: seq<Token>) returns (l: Line)
    requires ParseLine(ts).Ok?
    ensures SmallLine(l) && ParseLine(ts).v == LineCmd(l) && ts == LineToks(l) + ParseLine(ts).rest
    decreases |ts|, 3
  {
    LineParts(ts);
    var p := WrotePipe(ts);
    var mid := ParsePipe(ts).rest;
    var n := CountAmps(mid);
    WroteAmps(mid);
    if Starts(mid[n..], ';') {
      var next := WroteLine(mid[n + 1..]);
      l := Line(p, n, Some(next));
      Join(PipeToks(p), Amps(n), [Sym(';')] + LineToks(next), ParseLine(mid[n + 1..]).rest);
      Assoc([Sym(';')], LineToks(next), ParseLine(mid[n + 1..]).rest);
    } else {
      l := Line(p, n, None);
      Join(PipeToks(p), Amps(n), [], mid[n..]);
    }
  }

  /** The parser accepts exactly the language of the grammar, and builds the command the grammar says. */
  lemma ParseIsGrammar(ts: seq<Token>, c: Cmd<string>)
    ensures Parse(ts) == Ok(c, []) <==> exists l :: SmallLine(l) && LineToks(l) == ts && LineCmd(l) == c
  {
    if Parse(ts) == Ok(c, []) {
      var l := WroteLine(ts);
      assert LineToks(l) + [] == LineToks(l);
    }
    if l :| SmallLine(l) && LineToks(l) == ts && LineCmd(l) == c {
      ReadLine(l, []);
      assert LineToks(l) + [] == LineToks(l);
    }
  }

  // ---------- every command can be written ----------

  /** Few enough arguments, and redirections of the two kinds the parser makes. */
  predicate Writable(c: Cmd<string>) {
    match c
    case Exec(args) => |args| < MAXARGS
    case Redir(d, r) => Writable(d) && (r == Redirection(r.file, O_RDONLY, 0) || r == Redirection(r.file, O_WRONLY + O_CREATE, 1))
    case Pipe(a, b) => Writable(a) && Writable(b)
    case List(a, b) => Writable(a) && Writable(b)
    case Back(d) => Writable(d)
  }

  function AsArgs(args: seq<string>): (r: seq<Arg>)
    ensures |r| == |args|
  {
    if args == [] then [] else [Arg(args[0], [])] + AsArgs(args[1..])
  }

  function AsArrow(r: Redirection<string>): Arrow {
    if r.mode == O_RDONLY then In(r.file) else Out(r.file)
  }

  /** One more redirection at the end. */
  function Redirected(u: Unit, a: Arrow): Unit {
    match u
    case Block(l, rs) => Block(l, rs + [a])
    case Simple(rs, args) =>
      if args == [] then Simple(rs + [a], [])
      else
        var z := args[|args| - 1];
        Simple(rs, args[..|args| - 1] + [Arg(z.w, z.rs + [a])])
  }

  /** Parentheses go where the command does not fit its place. */
  function WriteUnit(c: Cmd<string>): Unit
    decreases c, if c.Exec? || c.Redir? then 0 else 4
  {
    match c
    case Exec(args) => Simple([], AsArgs(args))
    case Redir(d, r) => Redirected(WriteUnit(d), AsArrow(r))
    case Pipe(_, _) => Block(WriteLine(c), [])
    case List(_, _) => Block(WriteLine(c), [])
    case Back(_) => Block(WriteLine(c), [])
  }

  function WritePipe(c: Cmd<string>): Pipeline
    decreases c, if c.List? || c.Back? then 5 else 1
  {
    if c.Pipe? then Pipeline(WriteUnit(c.left), Some(WritePipe(c.right))) else Pipeline(WriteUnit(c), None)
  }

  function WriteBack(c: Cmd<string>): Line
    decreases c, if c.List? then 6 else 2
  {
    if c.Back? then var l := WriteBack(c.cmd); Line(l.p, l.amps + 1, None) else Line(WritePipe(c), 0, None)
  }

  function WriteLine(c: Cmd<string>): Line
    decreases c, 3
  {
    if c.List? then var l := WriteBack(c.left); Line(l.p, l.amps, Some(WriteLine(c.right))) else WriteBack(c)
  }

  lemma {:induction false} BackLast<W>(c: Cmd<W>, n: nat)
    ensures Backs(c, n + 1) == Back(Backs(c, n))
    decreases n
  {
    if n > 0 {
      BackLast(Back(c), n - 1);
    }
  }

  lemma {:induction false} WrapLast<W>(c: Cmd<W>, rs: seq<Redirection<W>>, r: Redirection<W>)
    ensures Wrap(c, rs + [r]) == Redir(Wrap(c, rs), r)
    decreases |rs|
  {
    if rs == [] {
      assert rs + [r] == [r] && [r][1..] == [];
    } else {
      assert (rs + [r])[1..] == rs[1..] + [r];
      WrapLast(Redir(c, rs[0]), rs[1..], r);
    }
  }

  lemma {:induction false} ArrowsLast(rs: seq<Arrow>, a: Arrow)
    ensures ArrowsOf(rs + [a]) == ArrowsOf(rs) + [ArrowOf(a)]
  {
    if rs == [] {
      assert rs + [a] == [a];
    } else {
      assert (rs + [a])[1..] == rs[1..] + [a];
      ArrowsLast(rs[1..], a);
    }
  }

  lemma {:induction false} ArgsLast(args: seq<Arg>, a: Arrow)
    requires args != []
    ensures var z := args[|args| - 1];
      var more := args[..|args| - 1] + [Arg(z.w, z.rs + [a])];
      ArgsOf(more) == Items(ArgsOf(args).args, ArgsOf(args).rs + [ArrowOf(a)])
  {
    var z := args[|args| - 1];
    var more := args[..|args| - 1] + [Arg(z.w, z.rs + [a])];
    if |args| == 1 {
      ArrowsLast(z.rs, a);
      assert more[1..] == [] && args[1..] == [];
    } else {
      var tail := args[1..];
      ArgsLast(tail, a);
      assert more[1..] == tail[..|tail| - 1] + [Arg(z.w, z.rs + [a])];
    }
  }

  lemma {:induction false} RedirectedCmd(u: Unit, a: Arrow)
    requires SmallUnit(u)
    ensures SmallUnit(Redirected(u, a)) && UnitCmd(Redirected(u, a)) == Redir(UnitCmd(u), ArrowOf(a))
  {
    match u
    case Block(l, rs) =>
      ArrowsLast(rs, a);
      WrapLast(LineCmd(l), ArrowsOf(rs), ArrowOf(a));
    case Simple(rs, args) =>
      WrapLast(Exec(ArgsOf(args).args), ArrowsOf(rs) + ArgsOf(args).rs, ArrowOf(a));
      if args == [] {
        ArrowsLast(rs, a);
        assert ArrowsOf(rs + [a]) + [] == ArrowsOf(rs) + [] + [ArrowOf(a)];
      } else {
        ArgsLast(args, a);
        assert ArrowsOf(rs) + (ArgsOf(args).rs + [ArrowOf(a)]) == ArrowsOf(rs) + ArgsOf(args).rs + [ArrowOf(a)];
      }
  }

  lemma {:induction false} AsArgsAre(args: seq<string>)
    ensures ArgsOf(AsArgs(args)) == Items(args, [])
  {
    if args != [] {
      AsArgsAre(args[1..]);
    }
  }

  lemma {:induction false} WroteUnitCmd(c: Cmd<string>)
    requires Writable(c)
    ensures SmallUnit(WriteUnit(c)) && UnitCmd(WriteUnit(c)) == c
    decreases c, if c.Exec? || c.Redir? then 0 else 4
  {
    match c
    case Exec(args) => AsArgsAre(args);
    case Redir(d, r) =>
      WroteUnitCmd(d);
      RedirectedCmd(WriteUnit(d), AsArrow(r));
    case Pipe(_, _) => WroteLineCmd(c);
    case List(_, _) => WroteLineCmd(c);
    case Back(_) => WroteLineCmd(c);
  }

  lemma {:induction false} WrotePipeCmd(c: Cmd<string>)
    requires Writable(c)
    ensures SmallPipe(WritePipe(c)) && PipeCmd(WritePipe(c)) == c
    decreases c, if c.List? || c.Back? then 5 else 1
  {
    if c.Pipe? {
      WroteUnitCmd(c.left);
      WrotePipeCmd(c.right);
    } else {
      WroteUnitCmd(c);
    }
  }

  lemma {:induction false} WroteBackCmd(c: Cmd<string>)
    requires Writable(c)
    ensures SmallLine(WriteBack(c)) && LineCmd(WriteBack(c)) == c && WriteBack(c).next.None?
    decreases c, if c.List? then 6 else 2
  {
    if c.Back? {
      WroteBackCmd(c.cmd);
      BackLast(PipeCmd(WriteBack(c.cmd).p), WriteBack(c.cmd).amps);
    } else {
      WrotePipeCmd(c);
    }
  }

  /** Every command tree with few enough arguments is some line's. */
  lemma {:induction false} WroteLineCmd(c: Cmd<string>)
    requires Writable(c)
    ensures SmallLine(WriteLine(c)) && LineCmd(WriteLine(c)) == c
    decreases c, 3
  {
    if c.List? {
      WroteBackCmd(c.left);
      WroteLineCmd(c.right);
    } else {
      WroteBackCmd(c);
    }
  }

  /** Printing a command and parsing the tokens gives the command back. */
  lemma ParseWritten(c: Cmd<string>)
    requires Writable(c)
    ensures Parse(LineToks(WriteLine(c))) == Ok(c, [])
  {
    WroteLineCmd(c);
    ParseIsGrammar(LineToks(WriteLine(c)), c);
  }
}
