/** The parser of sh.c over the text of a line: it builds commands out of positions in the line, and
    nulterminate then cuts the line into strings. */
module Shell {
  import opened L = ShellLexer
  import G = ShellGrammar

  /** A word's first character and the place just after its last. */
  datatype Span = Span(q: nat, eq: nat)

  /** A result and the new value of *ps, or the argument of panic. */
  datatype Got<T> = Done(v: T, s: nat) | Stop(msg: string)

  type Tree = G.Cmd<Span>
  type Arrow = G.Redirection<Span>

  /** A whole word of the text. */
  predicate Spans(text: string, w: Span) {
    && w.q < w.eq <= |text| && (forall i | w.q <= i < w.eq :: IsWordChar(text[i]))
    && (w.eq < |text| ==> !IsWordChar(text[w.eq]))
  }

  predicate Good(text: string, c: Tree) {
    match c
    case Exec(args) => GoodArgs(text, args)
    case Redir(d, r) => Good(text, d) && Spans(text, r.file)
    case Pipe(a, b) => Good(text, a) && Good(text, b)
    case List(a, b) => Good(text, a) && Good(text, b)
    case Back(d) => Good(text, d)
  }

  predicate GoodArrows(text: string, rs: seq<Arrow>) {
    forall i | 0 <= i < |rs| :: Spans(text, rs[i].file)
  }

  predicate GoodArgs(text: string, args: seq<Span>) {
    forall i | 0 <= i < |args| :: Spans(text, args[i])
  }

  // ---------- from positions to words ----------

  function WordsOf(text: string, args: seq<Span>): (r: seq<string>)
    requires GoodArgs(text, args)
    ensures |r| == |args| && forall i | 0 <= i < |args| :: r[i] == text[args[i].q..args[i].eq]
  {
    seq(|args|, i requires 0 <= i < |args| => text[args[i].q..args[i].eq])
  }

  function ArrowOf(text: string, r: Arrow): G.Redirection<string>
    requires Spans(text, r.file)
  {
    G.Redirection(text[r.file.q..r.file.eq], r.mode, r.fd)
  }

  function ArrowsOf(text: string, rs: seq<Arrow>): (r: seq<G.Redirection<string>>)
    requires GoodArrows(text, rs)
    ensures |r| == |rs| && forall i | 0 <= i < |rs| :: r[i] == ArrowOf(text, rs[i])
  {
    seq(|rs|, i requires 0 <= i < |rs| => ArrowOf(text, rs[i]))
  }

  function CmdOf(text: string, c: Tree): G.Cmd<string>
    requires Good(text, c)
  {
    match c
    case Exec(args) => G.Exec(WordsOf(text, args))
    case Redir(d, r) => G.Redir(CmdOf(text, d), ArrowOf(text, r))
    case Pipe(a, b) => G.Pipe(CmdOf(text, a), CmdOf(text, b))
    case List(a, b) => G.List(CmdOf(text, a), CmdOf(text, b))
    case Back(d) => G.Back(CmdOf(text, d))
  }

  lemma {:induction false} WrapOf(text: string, c: Tree, rs: seq<Arrow>)
    requires Good(text, c) && GoodArrows(text, rs)
    ensures Good(text, G.Wrap(c, rs)) && CmdOf(text, G.Wrap(c, rs)) == G.Wrap(CmdOf(text, c), ArrowsOf(text, rs))
    decreases |rs|
  {
    if rs != [] {
      assert ArrowsOf(text, rs)[1..] == ArrowsOf(text, rs[1..]);
      WrapOf(text, G.Redir(c, rs[0]), rs[1..]);
    }
  }

  // ---------- gettoken and peek ----------

  /** gettoken's answer as a token. */
  function TokenFor(ret: char, w: string): G.Token {
    if ret == 'a' then G.Word(w) else if ret == '+' then G.Append else G.Sym(ret)
  }

  method Gettoken(text: string, s: nat) returns (ret: char, q: nat, eq: nat, s1: nat)
    requires s <= |text| && NoNul(text)
    ensures s <= q <= eq <= s1 <= |text|
    ensures ret == NUL <==> Lex(text, s) == []
    ensures ret == NUL ==> s1 == |text|
    ensures ret != NUL ==> q < eq && Lex(text, s)[0] == TokenFor(ret, text[q..eq]) && Lex(text, s)[1..] == Lex(text, s1)
    ensures ret == 'a' ==> Spans(text, Span(q, eq))
  {
    q := SkipSpace(text, s);
    s1 := q;
    if q == |text| {
      return NUL, q, q, q;
    }
    ret := text[q];
    if ret == '|' || ret == '(' || ret == ')' || ret == ';' || ret == '&' || ret == '<' {
      s1 := s1 + 1;
    } else if ret == '>' {
      s1 := s1 + 1;
      if s1 < |text| && text[s1] == '>' {
        ret := '+';
        s1 := s1 + 1;
      }
    } else {
      ret := 'a';
      while s1 < |text| && !IsSpace(text[s1]) && !IsSymbol(text[s1])
        invariant q <= s1 <= |text|
        invariant WordEnd(text, q) == WordEnd(text, s1)
      {
        s1 := s1 + 1;
      }
    }
    eq := s1;
    assert TokenEnd(text, q) == eq && TokenAt(text, q) == TokenFor(ret, text[q..eq]);
    s1 := SkipSpace(text, s1);
    LexSkip(text, eq);
    assert Lex(text, s) == [TokenAt(text, q)] + Lex(text, eq);
  }

  /** Both functions' loop over white space. */
  method SkipSpace(text: string, s: nat) returns (r: nat)
    requires s <= |text|
    ensures r == Skip(text, s)
  {
    r := s;
    while r < |text| && IsSpace(text[r])
      invariant s <= r <= |text| && Skip(text, s) == Skip(text, r)
    {
      r := r + 1;
    }
  }

  method Peek(text: string, s: nat, toks: string) returns (found: bool, s1: nat)
    requires s <= |text|
    ensures s <= s1 <= |text| && Lex(text, s1) == Lex(text, s)
    ensures s1 == |text| <==> Lex(text, s) == []
    ensures s1 < |text| ==> !IsSpace(text[s1]) && Lex(text, s)[0] == TokenAt(text, s1)
    ensures found <==> s1 < |text| && text[s1] in toks
  {
    s1 := SkipSpace(text, s);
    LexSkip(text, s);
    found := s1 < |text| && text[s1] in toks;
  }

  /** Peeking at the characters is looking at the first token. */
  lemma {:induction false} PeekSees(text: string, s: nat)
    requires s < |text| && !IsSpace(text[s])
    ensures var ts := Lex(text, s);
      && (text[s] in "<>" <==> G.StartsRedir(ts)) && (text[s] in "(" <==> G.Starts(ts, '('))
      && (text[s] in "|" <==> G.Starts(ts, '|')) && (text[s] in ")" <==> G.Starts(ts, ')'))
      && (text[s] in "&" <==> G.Starts(ts, '&')) && (text[s] in ";" <==> G.Starts(ts, ';'))
      && (text[s] in "|)&;" <==> G.Stops(ts))
  {
  }

  // ---------- the parser ----------

  /** The answer over the text and the answer over its tokens are the same. */
  predicate SameArrows(text: string, r: Got<seq<Arrow>>, p: G.Parsed<seq<G.Redirection<string>>>) {
    match r
    case Done(v, s) => s <= |text| && GoodArrows(text, v) && p == G.Ok(ArrowsOf(text, v), Lex(text, s))
    case Stop(msg) => p == G.Panic(msg)
  }

  predicate Same(text: string, r: Got<Tree>, p: G.Parsed<G.Cmd<string>>) {
    match r
    case Done(v, s) => s <= |text| && Good(text, v) && p == G.Ok(CmdOf(text, v), Lex(text, s))
    case Stop(msg) => p == G.Panic(msg)
  }

  /** What parsing has found, and what parsing the rest finds. */
  function After(rs: seq<G.Redirection<string>>, p: G.Parsed<seq<G.Redirection<string>>>): G.Parsed<seq<G.Redirection<string>>> {
    if p.Panic? then p else G.Ok(rs + p.v, p.rest)
  }

  /** One round of parseredirs. */
  method ParseRedir(text: string, s: nat) returns (r: Got<Arrow>)
    requires s <= |text| && NoNul(text) && G.StartsRedir(Lex(text, s))
    ensures var ts := Lex(text, s);
      if |ts| < 2 || !ts[1].Word? then r == Stop("missing file for redirection")
      else && r.Done? && s < r.s <= |text| && Spans(text, r.v.file) && Lex(text, r.s) == ts[2..]
           && ArrowOf(text, r.v) == G.Redirection(ts[1].w, G.ModeOf(ts[0]), G.FdOf(ts[0]))
  {
    var tok, _, _, s1 := Gettoken(text, s);
    var a, q, eq, s2 := Gettoken(text, s1);
    if a != 'a' {
      return Stop("missing file for redirection");
    }
    assert Lex(text, s)[1..][1..] == Lex(text, s)[2..];
    match tok
    case '<' => return Done(G.Redirection(Span(q, eq), G.O_RDONLY, 0), s2);
    case '>' => return Done(G.Redirection(Span(q, eq), G.O_WRONLY + G.O_CREATE, 1), s2);
    case _ => return Done(G.Redirection(Span(q, eq), G.O_WRONLY + G.O_CREATE, 1), s2);
  }

  /** parseredirs, which wraps its command in what it finds: later ones outside. */
  method ParseRedirs(text: string, s0: nat) returns (r: Got<seq<Arrow>>)
    requires s0 <= |text| && NoNul(text)
    ensures SameArrows(text, r, G.ParseRedirs(Lex(text, s0)))
    ensures r.Done? ==> s0 <= r.s
  {
    var rs: seq<Arrow>, s := [], s0;
    ghost var goal, done := G.ParseRedirs(Lex(text, s0)), [];
    AfterNone(goal);
    while true
      invariant s0 <= s <= |text| && GoodArrows(text, rs) && done == ArrowsOf(text, rs)
      invariant goal == After(done, G.ParseRedirs(Lex(text, s)))
      decreases |text| - s
    {
      var found;
      found, s := Peek(text, s, "<>");
      if s < |text| {
        PeekSees(text, s);
      }
      if !found {
        Regroup(done, [], []);
        return Done(rs, s);
      }
      RedirAfter(Lex(text, s), done);
      var one := ParseRedir(text, s);
      if one.Stop? {
        return Stop(one.msg);
      }
      MoreArrows(text, rs, [one.v]);
      rs, s, done := rs + [one.v], one.s, done + [ArrowOf(text, one.v)];
    }
  }

  lemma {:induction false} AfterNone(p: G.Parsed<seq<G.Redirection<string>>>)
    ensures After([], p) == p
  {
    if p.Ok? {
      Regroup(p.v, [], []);
    }
  }

  lemma Regroup<T>(a: seq<T>, b: seq<T>, c: seq<T>)
    ensures (a + b) + c == a + (b + c) && [] + a == a == a + []
  {
  }

  lemma {:induction false} RedirAfter(ts: seq<G.Token>, rs: seq<G.Redirection<string>>)
    requires G.StartsRedir(ts)
    ensures After(rs, G.ParseRedirs(ts)) ==
      if |ts| < 2 || !ts[1].Word? then G.Panic("missing file for redirection")
      else After(rs + [G.Redirection(ts[1].w, G.ModeOf(ts[0]), G.FdOf(ts[0]))], G.ParseRedirs(ts[2..]))
  {
    if |ts| >= 2 && ts[1].Word? {
      var p := G.ParseRedirs(ts[2..]);
      if p.Ok? {
        Regroup(rs, [G.Redirection(ts[1].w, G.ModeOf(ts[0]), G.FdOf(ts[0]))], p.v);
      }
    }
  }

  lemma {:induction false} MoreArrows(text: string, rs: seq<Arrow>, more: seq<Arrow>)
    requires GoodArrows(text, rs) && GoodArrows(text, more)
    ensures GoodArrows(text, rs + more) && ArrowsOf(text, rs + more) == ArrowsOf(text, rs) + ArrowsOf(text, more)
    ensures |more| == 1 ==> ArrowsOf(text, more) == [ArrowOf(text, more[0])]
  {
  }

  function AfterArgs(args: seq<string>, rs: seq<G.Redirection<string>>, p: G.Parsed<G.Items>): G.Parsed<G.Items> {
    if p.Panic? then p else G.Ok(G.Items(args + p.v.args, rs + p.v.rs), p.rest)
  }

  predicate SameItems(text: string, args: seq<Span>, rs: seq<Arrow>, s: nat, p: G.Parsed<G.Items>) {
    && s <= |text| && GoodArgs(text, args) && GoodArrows(text, rs)
    && p == G.Ok(G.Items(WordsOf(text, args), ArrowsOf(text, rs)), Lex(text, s))
  }

  datatype Items = Items(args: seq<Span>, rs: seq<Arrow>)

  /** One round of parseexec's loop: nothing more for it, a panic, or an argument and its redirections. */
  datatype Round = NoMore(s: nat) | Bad(msg: string) | More(w: Span, rs: seq<Arrow>, s: nat)

  method ParseArg(text: string, s0: nat, argc: nat) returns (r: Round)
    requires s0 <= |text| && NoNul(text) && argc < G.MAXARGS
    ensures var ts := Lex(text, s0);
      match r
      case NoMore(s) => s0 <= s <= |text| && G.Stops(ts) && Lex(text, s) == ts
      case Bad(msg) => G.ParseArgs(ts, argc) == G.Panic(msg)
      case More(w, rs, s) =>
        && s0 < s <= |text| && Spans(text, w) && GoodArrows(text, rs) && argc + 1 < G.MAXARGS
        && ts != [] && ts[0] == G.Word(text[w.q..w.eq]) && G.ParseRedirs(ts[1..]) == G.Ok(ArrowsOf(text, rs), Lex(text, s))
  {
    var stop, s := Peek(text, s0, "|)&;");
    if s < |text| {
      PeekSees(text, s);
    }
    if stop {
      return NoMore(s);
    }
    var tok, q, eq, s1 := Gettoken(text, s);
    if tok == NUL {
      return NoMore(s1);
    }
    if tok != 'a' {
      return Bad("syntax");
    }
    if argc + 1 >= G.MAXARGS {
      return Bad("too many args");
    }
    var more := ParseRedirs(text, s1);
    if more.Stop? {
      return Bad(more.msg);
    }
    return More(Span(q, eq), more.v, more.s);
  }

  /** parseexec's loop over the arguments. */
  method ParseArgs(text: string, s0: nat) returns (r: Got<Items>)
    requires s0 <= |text| && NoNul(text)
    ensures r.Done? ==> s0 <= r.s && SameItems(text, r.v.args, r.v.rs, r.s, G.ParseArgs(Lex(text, s0), 0))
    ensures r.Stop? ==> G.ParseArgs(Lex(text, s0), 0) == G.Panic(r.msg)
  {
    var args: seq<Span>, rs: seq<Arrow>, s := [], [], s0;
    ghost var goal, words, done := G.ParseArgs(Lex(text, s0), 0), [], [];
    ghost var left := goal;
    ArgsAfterNone(goal);
    while true
      invariant s0 <= s <= |text| && GoodArgs(text, args) && GoodArrows(text, rs) && |args| < G.MAXARGS
      invariant words == WordsOf(text, args) && done == ArrowsOf(text, rs)
      invariant left == G.ParseArgs(Lex(text, s), |args|) && goal == AfterArgs(words, done, left)
      decreases |text| - s
    {
      var round := ParseArg(text, s, |args|);
      match round
      case NoMore(s1) =>
        ArgAfter(Lex(text, s), words, done, |args|);
        return Done(Items(args, rs), s1);
      case Bad(msg) =>
        return Stop(msg);
      case More(w, more, s1) =>
        ArgRound(Lex(text, s), words, done, |args|, ArrowsOf(text, more), Lex(text, s1));
        MoreArgs(text, args, w);
        MoreArrows(text, rs, more);
        words, done := words + [text[w.q..w.eq]], done + ArrowsOf(text, more);
        left := G.ParseArgs(Lex(text, s1), |args| + 1);
        args, rs, s := args + [w], rs + more, s1;
    }
  }

  lemma {:induction false} ArgsAfterNone(p: G.Parsed<G.Items>)
    ensures AfterArgs([], [], p) == p
  {
    if p.Ok? {
      Regroup(p.v.args, [], []);
      Regroup(p.v.rs, [], []);
    }
  }

  /** One round of the loop. */
  lemma {:induction false} ArgAfter(ts: seq<G.Token>, args: seq<string>, rs: seq<G.Redirection<string>>, n: nat)
    ensures AfterArgs(args, rs, G.ParseArgs(ts, n)) ==
      if G.Stops(ts) then G.Ok(G.Items(args, rs), ts)
      else if !ts[0].Word? then G.Panic("syntax")
      else if n + 1 >= G.MAXARGS then G.Panic("too many args")
      else
        var p := G.ParseRedirs(ts[1..]);
        if p.Panic? then G.Panic(p.msg) else AfterArgs(args + [ts[0].w], rs + p.v, G.ParseArgs(p.rest, n + 1))
  {
    Regroup(args, [], []);
    Regroup(rs, [], []);
    if !G.Stops(ts) && ts[0].Word? && n + 1 < G.MAXARGS {
      var p := G.ParseRedirs(ts[1..]);
      if p.Ok? {
        var q := G.ParseArgs(p.rest, n + 1);
        if q.Ok? {
          Regroup(args, [ts[0].w], q.v.args);
          Regroup(rs, p.v, q.v.rs);
        }
      }
    }
  }

  lemma {:induction false} ArgRound(ts: seq<G.Token>, args: seq<string>, rs: seq<G.Redirection<string>>, n: nat,
                 more: seq<G.Redirection<string>>, rest: seq<G.Token>)
    requires ts != [] && ts[0].Word? && n + 1 < G.MAXARGS && G.ParseRedirs(ts[1..]) == G.Ok(more, rest)
    ensures AfterArgs(args, rs, G.ParseArgs(ts, n)) == AfterArgs(args + [ts[0].w], rs + more, G.ParseArgs(rest, n + 1))
  {
    ArgAfter(ts, args, rs, n);
  }

  lemma {:induction false} MoreArgs(text: string, args: seq<Span>, w: Span)
    requires GoodArgs(text, args) && Spans(text, w)
    ensures GoodArgs(text, args + [w]) && WordsOf(text, args + [w]) == WordsOf(text, args) + [text[w.q..w.eq]]
  {
  }

  method ParseExec(text: string, s0: nat) returns (r: Got<Tree>)
    requires s0 <= |text| && NoNul(text)
    ensures Same(text, r, G.ParseExec(Lex(text, s0)))
    ensures r.Done? ==> s0 <= r.s
    decreases |text| - s0, 1
  {
    var open, s := Peek(text, s0, "(");
    if s < |text| {
      PeekSees(text, s);
    }
    if open {
      r := ParseBlock(text, s);
      return;
    }
    var first := ParseRedirs(text, s);
    if first.Stop? {
      return Stop(first.msg);
    }
    var items := ParseArgs(text, first.s);
    if items.Stop? {
      return Stop(items.msg);
    }
    var rs := first.v + items.v.rs;
    MoreArrows(text, first.v, items.v.rs);
    WrapOf(text, G.Exec(items.v.args), rs);
    return Done(G.Wrap(G.Exec(items.v.args), rs), items.s);
  }

  method ParseBlock(text: string, s0: nat) returns (r: Got<Tree>)
    requires s0 < |text| && NoNul(text) && G.Starts(Lex(text, s0), '(')
    ensures Same(text, r, G.ParseBlock(Lex(text, s0)))
    ensures r.Done? ==> s0 <= r.s
    decreases |text| - s0, 0
  {
    var open, s := Peek(text, s0, "(");
    PeekSees(text, s);
    var _, _, _, s1 := Gettoken(text, s);
    var line := ParseLine(text, s1);
    if line.Stop? {
      return line;
    }
    var shut, s2 := Peek(text, line.s, ")");
    if s2 < |text| {
      PeekSees(text, s2);
    }
    if !shut {
      return Stop("syntax - missing )");
    }
    var _, _, _, s3 := Gettoken(text, s2);
    var rs := ParseRedirs(text, s3);
    if rs.Stop? {
      return Stop(rs.msg);
    }
    WrapOf(text, line.v, rs.v);
    return Done(G.Wrap(line.v, rs.v), rs.s);
  }

  method ParsePipe(text: string, s0: nat) returns (r: Got<Tree>)
    requires s0 <= |text| && NoNul(text)
    ensures Same(text, r, G.ParsePipe(Lex(text, s0)))
    ensures r.Done? ==> s0 <= r.s
    decreases |text| - s0, 2
  {
    r := ParseExec(text, s0);
    if r.Stop? {
      return;
    }
    var bar, s := Peek(text, r.s, "|");
    if s < |text| {
      PeekSees(text, s);
    }
    if !bar {
      return Done(r.v, s);
    }
    var _, _, _, s1 := Gettoken(text, s);
    var right := ParsePipe(text, s1);
    if right.Stop? {
      return right;
    }
    return Done(G.Pipe(r.v, right.v), right.s);
  }

  method ParseLine(text: string, s0: nat) returns (r: Got<Tree>)
    requires s0 <= |text| && NoNul(text)
    ensures Same(text, r, G.ParseLine(Lex(text, s0)))
    ensures r.Done? ==> s0 <= r.s
    decreases |text| - s0, 3
  {
    r := ParsePipe(text, s0);
    if r.Stop? {
      return;
    }
    var cmd, s := ParseAmps(text, r.v, r.s);
    var semi, s1 := Peek(text, s, ";");
    if s1 < |text| {
      PeekSees(text, s1);
    }
    if !semi {
      return Done(cmd, s1);
    }
    var _, _, _, s2 := Gettoken(text, s1);
    var right := ParseLine(text, s2);
    if right.Stop? {
      return right;
    }
    return Done(G.List(cmd, right.v), right.s);
  }

  /** parseline's loop over "&". */
  method ParseAmps(text: string, c: Tree, s0: nat) returns (cmd: Tree, s: nat)
    requires s0 <= |text| && NoNul(text) && Good(text, c)
    ensures s0 <= s <= |text| && Good(text, cmd)
    ensures var ts := Lex(text, s0); var n := G.CountAmps(ts);
      CmdOf(text, cmd) == G.Backs(CmdOf(text, c), n) && Lex(text, s) == ts[n..]
  {
    cmd, s := c, s0;
    ghost var ts := Lex(text, s0);
    ghost var n := G.CountAmps(ts);
    while true
      invariant s0 <= s <= |text| && Good(text, cmd)
      invariant G.Backs(CmdOf(text, cmd), G.CountAmps(Lex(text, s))) == G.Backs(CmdOf(text, c), n)
      invariant Lex(text, s)[G.CountAmps(Lex(text, s))..] == ts[n..]
      decreases |text| - s
    {
      var amp;
      amp, s := Peek(text, s, "&");
      if s < |text| {
        PeekSees(text, s);
      }
      if !amp {
        return;
      }
      ghost var us := Lex(text, s);
      var _, _, _, s1 := Gettoken(text, s);
      assert us[1..] == Lex(text, s1);
      assert us[G.CountAmps(us)..] == us[1..][G.CountAmps(us[1..])..];
      cmd, s := G.Back(cmd), s1;
    }
  }

  // ---------- nulterminate ----------

  /** The ends of the words in a command. */
  ghost function Ends(c: Tree): set<int> {
    match c
    case Exec(args) => EndsOf(args)
    case Redir(d, r) => Ends(d) + {r.file.eq}
    case Pipe(a, b) => Ends(a) + Ends(b)
    case List(a, b) => Ends(a) + Ends(b)
    case Back(d) => Ends(d)
  }

  ghost function EndsOf(args: seq<Span>): (r: set<int>)
    ensures forall i | 0 <= i < |args| :: args[i].eq in r
    ensures forall e | e in r :: exists i :: 0 <= i < |args| && args[i].eq == e
  {
    set i | 0 <= i < |args| :: args[i].eq
  }

  ghost predicate Cut(was: string, now: string, ends: set<int>) {
    |was| == |now| && forall i | 0 <= i < |was| :: now[i] == if i in ends then NUL else was[i]
  }

  method Nulterminate(a: array<char>, c: Tree, ghost text: string)
    requires Good(text, c) && |text| < a.Length
    modifies a
    ensures Cut(old(a[..]), a[..], Ends(c))
  {
    match c
    case Exec(args) =>
      var i := 0;
      while i < |args|
        invariant 0 <= i <= |args|
        invariant Cut(old(a[..]), a[..], EndsOf(args[..i]))
      {
        assert Spans(text, args[i]);
        assert EndsOf(args[..i + 1]) == EndsOf(args[..i]) + {args[i].eq};
        a[args[i].eq] := NUL;
        i := i + 1;
      }
      assert args[..|args|] == args;
    case Redir(d, r) =>
      Nulterminate(a, d, text);
      a[r.file.eq] := NUL;
    case Pipe(l, r) =>
      Nulterminate(a, l, text);
      Nulterminate(a, r, text);
    case List(l, r) =>
      Nulterminate(a, l, text);
      Nulterminate(a, r, text);
    case Back(d) =>
      Nulterminate(a, d, text);
  }

  /** The C string at s. */
  function StringAt(buf: string, s: nat): string
    requires s <= |buf|
    decreases |buf| - s
  {
    if s == |buf| || buf[s] == NUL then "" else [buf[s]] + StringAt(buf, s + 1)
  }

  /** The command as the rest of the shell reads it: each word is the C string at its first character. */
  function ReadCmd(buf: string, c: Tree): G.Cmd<string>
    requires InBuf(buf, c)
  {
    match c
    case Exec(args) => G.Exec(ReadArgs(buf, args))
    case Redir(d, r) => G.Redir(ReadCmd(buf, d), G.Redirection(StringAt(buf, r.file.q), r.mode, r.fd))
    case Pipe(a, b) => G.Pipe(ReadCmd(buf, a), ReadCmd(buf, b))
    case List(a, b) => G.List(ReadCmd(buf, a), ReadCmd(buf, b))
    case Back(d) => G.Back(ReadCmd(buf, d))
  }

  predicate InBuf(buf: string, c: Tree) {
    match c
    case Exec(args) => forall i | 0 <= i < |args| :: args[i].q <= |buf|
    case Redir(d, r) => InBuf(buf, d) && r.file.q <= |buf|
    case Pipe(a, b) => InBuf(buf, a) && InBuf(buf, b)
    case List(a, b) => InBuf(buf, a) && InBuf(buf, b)
    case Back(d) => InBuf(buf, d)
  }

  function ReadArgs(buf: string, args: seq<Span>): seq<string>
    requires forall i | 0 <= i < |args| :: args[i].q <= |buf|
  {
    seq(|args|, i requires 0 <= i < |args| => StringAt(buf, args[i].q))
  }

  /** No word of the text ends inside another. */
  ghost predicate CleanEnds(text: string, ends: set<int>) {
    forall e | e in ends :: 0 <= e <= |text| && (e < |text| ==> !IsWordChar(text[e]))
  }

  lemma {:induction false} EndsClean(text: string, c: Tree)
    requires Good(text, c)
    ensures CleanEnds(text, Ends(c))
  {
    match c
    case Exec(args) =>
      forall e | e in Ends(c)
        ensures 0 <= e <= |text| && (e < |text| ==> !IsWordChar(text[e]))
      {
        var i :| 0 <= i < |args| && args[i].eq == e;
        assert Spans(text, args[i]);
      }
    case Redir(d, r) => EndsClean(text, d);
    case Pipe(a, b) => EndsClean(text, a); EndsClean(text, b);
    case List(a, b) => EndsClean(text, a); EndsClean(text, b);
    case Back(d) => EndsClean(text, d);
  }

  lemma {:induction false} StringIs(buf: string, s: nat, e: nat)
    requires s <= e < |buf| && buf[e] == NUL && forall i | s <= i < e :: buf[i] != NUL
    ensures StringAt(buf, s) == buf[s..e]
    decreases e - s
  {
    if s < e {
      StringIs(buf, s + 1, e);
      assert buf[s..e] == [buf[s]] + buf[s + 1..e];
    }
  }

  lemma WordSurvives(text: string, was: string, buf: string, ends: set<int>, w: Span)
    requires |text| < |was| && text == was[..|text|] && NoNul(text)
    requires Cut(was, buf, ends) && CleanEnds(text, ends) && Spans(text, w) && w.eq in ends
    ensures StringAt(buf, w.q) == text[w.q..w.eq]
  {
    forall i | w.q <= i < w.eq
      ensures buf[i] == text[i]
    {
      assert IsWordChar(text[i]);
      assert i !in ends;
    }
    StringIs(buf, w.q, w.eq);
    assert buf[w.q..w.eq] == text[w.q..w.eq];
  }

  /** Once every word's end is cut, each word reads as it was scanned. */
  lemma {:induction false} WordsSurvive(text: string, was: string, buf: string, ends: set<int>, c: Tree)
    requires |text| < |was| && text == was[..|text|] && NoNul(text)
    requires Cut(was, buf, ends) && CleanEnds(text, ends) && Good(text, c) && Ends(c) <= ends
    ensures InBuf(buf, c) && ReadCmd(buf, c) == CmdOf(text, c)
  {
    match c
    case Exec(args) =>
      forall i | 0 <= i < |args|
        ensures args[i].q <= |buf| && StringAt(buf, args[i].q) == text[args[i].q..args[i].eq]
      {
        assert Spans(text, args[i]);
        WordSurvives(text, was, buf, ends, args[i]);
      }
      assert ReadArgs(buf, args) == WordsOf(text, args);
    case Redir(d, r) =>
      WordsSurvive(text, was, buf, ends, d);
      WordSurvives(text, was, buf, ends, r.file);
    case Pipe(a, b) =>
      WordsSurvive(text, was, buf, ends, a);
      WordsSurvive(text, was, buf, ends, b);
    case List(a, b) =>
      WordsSurvive(text, was, buf, ends, a);
      WordsSurvive(text, was, buf, ends, b);
    case Back(d) =>
      WordsSurvive(text, was, buf, ends, d);
  }

  // ---------- parsecmd ----------

  method Strlen(a: array<char>) returns (n: nat)
    requires exists i :: 0 <= i < a.Length && a[i] == NUL
    ensures n < a.Length && a[n] == NUL && NoNul(a[..n])
  {
    n := 0;
    while a[n] != NUL
      invariant n < a.Length && forall i | 0 <= i < n :: a[i] != NUL
      decreases a.Length - n
    {
      n := n + 1;
    }
  }

  /** The command is the one the grammar gives for the line's tokens, and reads so from the cut line. */
  method Parsecmd(a: array<char>) returns (r: Got<Tree>, n: nat)
    requires exists i :: 0 <= i < a.Length && a[i] == NUL
    modifies a
    ensures n < a.Length && old(a[n]) == NUL && NoNul(old(a[..])[..n])
    ensures var p := G.Parse(Lex(old(a[..])[..n], 0));
      match r
      case Done(c, _) => InBuf(a[..], c) && p == G.Ok(ReadCmd(a[..], c), [])
      case Stop(msg) => p == G.Panic(msg) && a[..] == old(a[..])
  {
    n := Strlen(a);
    var text := a[..n];
    ghost var was := a[..];
    assert was[..n] == text;
    r := ParseLine(text, 0);
    if r.Stop? {
      return;
    }
    var _, s := Peek(text, r.s, "");
    if s != n {
      return Stop("syntax"), n;
    }
    Nulterminate(a, r.v, text);
    EndsClean(text, r.v);
    WordsSurvive(text, was, a[..], Ends(r.v), r.v);
  }
}
