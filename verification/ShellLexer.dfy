/** The tokens of a command line, as gettoken and peek of sh.c find them in the text. */
module ShellLexer {
  import opened ShellGrammar

  const NUL := '\0'

  predicate IsSpace(c: char) {
    c == ' ' || c == '\t' || c == '\r' || c == '\n' || c == '\U{b}'
  }

  predicate IsSymbol(c: char) {
    c == '<' || c == '|' || c == '>' || c == '&' || c == ';' || c == '(' || c == ')'
  }

  predicate IsWordChar(c: char) {
    !IsSpace(c) && !IsSymbol(c)
  }

  predicate NoNul(text: string) {
    forall i | 0 <= i < |text| :: text[i] != NUL
  }

  /** The first position from s on that is not white space. */
  function Skip(text: string, s: nat): (r: nat)
    requires s <= |text|
    ensures s <= r <= |text| && (forall i | s <= i < r :: IsSpace(text[i])) && (r < |text| ==> !IsSpace(text[r]))
    decreases |text| - s
  {
    if s < |text| && IsSpace(text[s]) then Skip(text, s + 1) else s
  }

  function WordEnd(text: string, s: nat): (r: nat)
    requires s <= |text|
    ensures s <= r <= |text| && (forall i | s <= i < r :: IsWordChar(text[i])) && (r < |text| ==> !IsWordChar(text[r]))
    decreases |text| - s
  {
    if s < |text| && IsWordChar(text[s]) then WordEnd(text, s + 1) else s
  }

  /** Where the token that begins at s ends. */
  function TokenEnd(text: string, s: nat): (r: nat)
    requires s < |text| && !IsSpace(text[s])
    ensures s < r <= |text|
  {
    if !IsSymbol(text[s]) then WordEnd(text, s)
    else if text[s] == '>' && s + 1 < |text| && text[s + 1] == '>' then s + 2
    else s + 1
  }

  function TokenAt(text: string, s: nat): Token
    requires s < |text| && !IsSpace(text[s])
  {
    if !IsSymbol(text[s]) then Word(text[s..WordEnd(text, s)])
    else if text[s] == '>' && s + 1 < |text| && text[s + 1] == '>' then Append
    else Sym(text[s])
  }

  function Lex(text: string, s: nat): seq<Token>
    requires s <= |text|
    decreases |text| - s
  {
    var q := Skip(text, s);
    if q == |text| then [] else [TokenAt(text, q)] + Lex(text, TokenEnd(text, q))
  }

  lemma {:induction false} LexSkip(text: string, s: nat)
    requires s <= |text|
    ensures Lex(text, Skip(text, s)) == Lex(text, s)
  {
    assert Skip(text, Skip(text, s)) == Skip(text, s);
  }

  // ---------- writing tokens as text ----------

  const BLANKS: string := " \t\r\n\U{b}"
  const SYMBOLS: string := "<|>&;()"

  /** Text without white space, symbols and NUL. */
  predicate GoodWord(w: string) {
    w != "" && forall i | 0 <= i < |w| :: w[i] !in BLANKS && w[i] !in SYMBOLS && w[i] != NUL
  }

  predicate GoodToken(t: Token) {
    (t.Sym? ==> t.c in SYMBOLS) && (t.Word? ==> GoodWord(t.w))
  }

  lemma Letters(c: char)
    ensures IsSpace(c) <==> c in BLANKS
    ensures IsSymbol(c) <==> c in SYMBOLS
  {
    assert BLANKS == [' ', '\t', '\r', '\n', '\U{b}'];
    assert SYMBOLS == ['<', '|', '>', '&', ';', '(', ')'];
  }

  lemma WordLetters(w: string)
    requires GoodWord(w)
    ensures forall i | 0 <= i < |w| :: IsWordChar(w[i]) && w[i] != NUL
  {
    forall i | 0 <= i < |w|
      ensures IsWordChar(w[i])
    {
      Letters(w[i]);
    }
  }

  predicate GoodTokens(ts: seq<Token>) {
    forall t | t in ts :: GoodToken(t)
  }

  function TokenText(t: Token): string {
    match t
    case Sym(c) => [c]
    case Append => ">>"
    case Word(w) => w
  }

  function Render(ts: seq<Token>): string {
    if ts == [] then "" else TokenText(ts[0]) + " " + Render(ts[1..])
  }

  /** t has b from position n on. */
  predicate EndsWith(t: string, n: nat, b: string) {
    |t| == n + |b| && forall i | 0 <= i < |b| :: t[n + i] == b[i]
  }

  lemma {:induction false} SkipShift(t: string, n: nat, b: string, s: nat)
    requires EndsWith(t, n, b) && s <= |b|
    ensures Skip(t, n + s) == n + Skip(b, s)
    decreases |b| - s
  {
    if s < |b| && IsSpace(b[s]) {
      SkipShift(t, n, b, s + 1);
    }
  }

  lemma {:induction false} WordEndShift(t: string, n: nat, b: string, s: nat)
    requires EndsWith(t, n, b) && s <= |b|
    ensures WordEnd(t, n + s) == n + WordEnd(b, s)
    decreases |b| - s
  {
    if s < |b| && IsWordChar(b[s]) {
      WordEndShift(t, n, b, s + 1);
    }
  }

  lemma {:induction false} TokenShift(t: string, n: nat, b: string, q: nat)
    requires EndsWith(t, n, b) && q < |b| && !IsSpace(b[q])
    ensures t[n + q] == b[q] && TokenAt(t, n + q) == TokenAt(b, q) && TokenEnd(t, n + q) == n + TokenEnd(b, q)
  {
    assert q + 1 < |b| ==> t[n + (q + 1)] == b[q + 1];
    WordEndShift(t, n, b, q);
    assert t[n + q..n + WordEnd(b, q)] == b[q..WordEnd(b, q)];
  }

  lemma {:induction false} LexCons(text: string, s: nat, q: nat, t: Token, e: nat)
    requires s <= |text| && Skip(text, s) == q < |text| && TokenAt(text, q) == t && TokenEnd(text, q) == e
    ensures Lex(text, s) == [t] + Lex(text, e)
  {
  }

  lemma {:induction false} LexNil(text: string, s: nat)
    requires s <= |text| && Skip(text, s) == |text|
    ensures Lex(text, s) == []
  {
  }

  lemma {:induction false} LexSame(t: string, r: nat, p: nat, f: nat, b: string, s: nat, q: nat, e: nat)
    requires r <= |t| && s <= |b| && Skip(t, r) == p < |t| && Skip(b, s) == q < |b|
    requires TokenAt(t, p) == TokenAt(b, q) && TokenEnd(t, p) == f && TokenEnd(b, q) == e && Lex(t, f) == Lex(b, e)
    ensures Lex(t, r) == Lex(b, s)
  {
    LexCons(t, r, p, TokenAt(t, p), f);
    LexCons(b, s, q, TokenAt(b, q), e);
  }

  lemma {:induction false} LexShift(t: string, n: nat, b: string, s: nat)
    requires EndsWith(t, n, b) && s <= |b|
    ensures Lex(t, n + s) == Lex(b, s)
    decreases |b| - s
  {
    var q := Skip(b, s);
    SkipShift(t, n, b, s);
    if q < |b| {
      TokenShift(t, n, b, q);
      var e := TokenEnd(b, q);
      LexShift(t, n, b, e);
      LexSame(t, n + s, n + q, n + e, b, s, q, e);
    } else {
      LexNil(b, s);
      LexNil(t, n + s);
    }
  }

  lemma {:induction false} WordFirst(text: string, s: nat, e: nat)
    requires s <= e <= |text| && (e < |text| ==> !IsWordChar(text[e])) && forall i | s <= i < e :: IsWordChar(text[i])
    ensures WordEnd(text, s) == e
    decreases e - s
  {
    if s < e {
      WordFirst(text, s + 1, e);
    }
  }

  // ---------- any white space between tokens ----------

  predicate Blank(g: string) {
    forall i | 0 <= i < |g| :: g[i] in BLANKS
  }

  /** The tokens in order, with gaps before, between and behind them. */
  function Layout(gaps: seq<string>, ts: seq<Token>): string
    requires |gaps| == |ts| + 1
  {
    if ts == [] then gaps[0] else gaps[0] + (TokenText(ts[0]) + Layout(gaps[1..], ts[1..]))
  }

  /** Without white space in between, u would be read as part of t. */
  predicate Clash(t: Token, u: Token) {
    (t.Word? && u.Word?) || (t == Sym('>') && (u == Sym('>') || u.Append?))
  }

  predicate Spaced(gaps: seq<string>, ts: seq<Token>)
    requires |gaps| == |ts| + 1
  {
    forall k | 0 < k < |ts| && Clash(ts[k - 1], ts[k]) :: gaps[k] != ""
  }

  lemma {:induction false} SkipGap(g: string, more: string, s: nat)
    requires Blank(g) && s <= |g| && (more != "" ==> !IsSpace(more[0]))
    ensures Skip(g + more, s) == |g|
    decreases |g| - s
  {
    if s < |g| {
      Letters(g[s]);
      SkipGap(g, more, s + 1);
    } else {
      assert more != "" ==> (g + more)[s] == more[0];
    }
  }

  /** What follows is taken for a part of the token. */
  predicate Joins(t: Token, more: string) {
    more != "" && ((t.Word? && IsWordChar(more[0])) || (t == Sym('>') && more[0] == '>'))
  }

  lemma {:induction false} TokenHead(t: Token, more: string)
    requires GoodToken(t)
    ensures var text := TokenText(t) + more;
      && text != "" && !IsSpace(text[0])
      && (!Joins(t, more) ==> TokenAt(text, 0) == t && TokenEnd(text, 0) == |TokenText(t)|)
      && (Joins(t, more) ==> TokenAt(text, 0) != t)
  {
    var text, e := TokenText(t) + more, |TokenText(t)|;
    Letters(text[0]);
    if t.Word? {
      WordLetters(t.w);
      assert forall i | 0 <= i < e :: text[i] == t.w[i];
      if Joins(t, more) {
        assert text[e] == more[0];
        assert WordEnd(text, 0) > e by {
          WordOver(text, 0, e);
        }
        assert |text[0..WordEnd(text, 0)]| > |t.w|;
      } else {
        assert more != "" ==> text[e] == more[0];
        WordFirst(text, 0, e);
        assert text[0..e] == t.w;
      }
    } else if more != "" {
      assert text[e] == more[0];
    }
  }

  lemma {:induction false} WordOver(text: string, s: nat, e: nat)
    requires s <= e < |text| && forall i | s <= i <= e :: IsWordChar(text[i])
    ensures WordEnd(text, s) > e
    decreases e - s
  {
    if s < e {
      WordOver(text, s + 1, e);
    }
  }

  lemma {:induction false} LexAt(text: string, n: nat, b: string, t: Token, e: nat)
    requires EndsWith(text, n, b) && Skip(text, 0) == n && b != "" && !IsSpace(b[0])
    requires t == TokenAt(b, 0) && e == TokenEnd(b, 0)
    ensures Lex(text, 0) == [t] + Lex(b, e)
  {
    TokenShift(text, n, b, 0);
    LexCons(text, 0, n, t, n + e);
    LexShift(text, n, b, e);
  }

  lemma {:induction false} LexHead(g: string, t: Token, more: string, b: string, text: string)
    requires Blank(g) && GoodToken(t) && b == TokenText(t) + more && text == g + b
    ensures if Joins(t, more) then Lex(text, 0) != [] && Lex(text, 0)[0] != t else Lex(text, 0) == [t] + Lex(more, 0)
  {
    TokenHead(t, more);
    SkipGap(g, b, 0);
    var u, e := TokenAt(b, 0), TokenEnd(b, 0);
    assert EndsWith(text, |g|, b);
    LexAt(text, |g|, b, u, e);
    if !Joins(t, more) {
      LexBehind(b, e, more);
    }
  }

  lemma {:induction false} LexBehind(b: string, e: nat, more: string)
    requires EndsWith(b, e, more)
    ensures Lex(b, e) == Lex(more, 0)
  {
    LexShift(b, e, more, 0);
  }

  /** The first character behind a token tells whether it clashes with the next. */
  lemma {:induction false} JoinsIfClash(t: Token, gaps: seq<string>, ts: seq<Token>)
    requires |gaps| == |ts| + 1 && GoodToken(t) && GoodTokens(ts) && Blank(gaps[0])
    ensures Joins(t, Layout(gaps, ts)) <==> gaps[0] == "" && ts != [] && Clash(t, ts[0])
  {
    var more := Layout(gaps, ts);
    if gaps[0] != "" {
      assert more[0] == gaps[0][0];
      Letters(more[0]);
    } else if ts != [] {
      var u := ts[0];
      assert u in ts && more[0] == TokenText(u)[0];
      Letters(more[0]);
    }
  }

  /** Tokens laid out with any white space, or none, before, between and behind them are read back if and
      only if there is some between two words, and between a > and the next. */
  lemma {:induction false} LexLayout(gaps: seq<string>, ts: seq<Token>)
    requires |gaps| == |ts| + 1 && GoodTokens(ts) && forall k | 0 <= k < |gaps| :: Blank(gaps[k])
    ensures Lex(Layout(gaps, ts), 0) == ts <==> Spaced(gaps, ts)
    decreases |ts|
  {
    if ts == [] {
      SkipGap(gaps[0], "", 0);
      assert gaps[0] + "" == gaps[0];
      LexNil(gaps[0], 0);
    } else {
      var t, gs, us := ts[0], gaps[1..], ts[1..];
      assert forall u | u in us :: u in ts;
      LexLayout(gs, us);
      JoinsIfClash(t, gs, us);
      LexHead(gaps[0], t, Layout(gs, us), TokenText(t) + Layout(gs, us), Layout(gaps, ts));
      SpacedRest(gaps, ts);
      assert ts == [t] + us;
    }
  }

  lemma SpacedRest(gaps: seq<string>, ts: seq<Token>)
    requires |gaps| == |ts| + 1 && ts != []
    ensures Spaced(gaps, ts) <==> Spaced(gaps[1..], ts[1..]) && (|ts| > 1 && Clash(ts[0], ts[1]) ==> gaps[1] != "")
  {
    var gs, us := gaps[1..], ts[1..];
    if Spaced(gs, us) && (|ts| > 1 && Clash(ts[0], ts[1]) ==> gaps[1] != "") {
      forall k | 0 < k < |ts| && Clash(ts[k - 1], ts[k])
        ensures gaps[k] != ""
      {
        if k > 1 {
          assert us[k - 2] == ts[k - 1] && us[k - 1] == ts[k] && gs[k - 1] == gaps[k];
        }
      }
    }
    if Spaced(gaps, ts) {
      forall k | 0 < k < |us| && Clash(us[k - 1], us[k])
        ensures gs[k] != ""
      {
        assert us[k - 1] == ts[k] && us[k] == ts[k + 1] && gs[k] == gaps[k + 1];
      }
    }
  }

  /** The gaps that Render leaves behind n tokens. */
  function Blanks(n: nat): seq<string> {
    seq(n, i => " ")
  }

  lemma {:induction false} RenderIsLayout(ts: seq<Token>)
    ensures Render(ts) == Layout([""] + Blanks(|ts|), ts)
    ensures " " + Render(ts) == Layout(Blanks(|ts| + 1), ts)
    decreases |ts|
  {
    if ts != [] {
      RenderIsLayout(ts[1..]);
      assert ([""] + Blanks(|ts|))[1..] == Blanks(|ts|) == Blanks(|ts| + 1)[1..];
      assert Render(ts) == TokenText(ts[0]) + (" " + Render(ts[1..]));
    }
  }

  /** What is rendered is read back. */
  lemma {:induction false} LexRender(ts: seq<Token>)
    requires GoodTokens(ts)
    ensures Lex(Render(ts), 0) == ts
  {
    RenderIsLayout(ts);
    LexLayout([""] + Blanks(|ts|), ts);
  }

  lemma {:induction false} RenderNoNul(ts: seq<Token>)
    requires GoodTokens(ts)
    ensures NoNul(Render(ts))
  {
    if ts != [] {
      RenderNoNul(ts[1..]);
      assert GoodToken(ts[0]);
    }
  }

  // ---------- good words in a command make good tokens ----------

  predicate GoodWords(c: Cmd<string>) {
    match c
    case Exec(args) => forall w | w in args :: GoodWord(w)
    case Redir(d, r) => GoodWords(d) && GoodWord(r.file)
    case Pipe(a, b) => GoodWords(a) && GoodWords(b)
    case List(a, b) => GoodWords(a) && GoodWords(b)
    case Back(d) => GoodWords(d)
  }

  lemma {:induction false} WrapWords(c: Cmd<string>, rs: seq<Redirection<string>>)
    requires GoodWords(Wrap(c, rs))
    ensures GoodWords(c) && forall r | r in rs :: GoodWord(r.file)
    decreases |rs|
  {
    if rs != [] {
      WrapWords(Redir(c, rs[0]), rs[1..]);
    }
  }

  lemma {:induction false} BackWords(c: Cmd<string>, n: nat)
    requires GoodWords(Backs(c, n))
    ensures GoodWords(c)
    decreases n
  {
    if n > 0 {
      BackWords(Back(c), n - 1);
    }
  }

  lemma {:induction false} ArrowGood(rs: seq<Arrow>)
    requires forall r | r in ArrowsOf(rs) :: GoodWord(r.file)
    ensures GoodTokens(ArrowToks(rs))
  {
    if rs != [] {
      assert ArrowOf(rs[0]) in ArrowsOf(rs);
      ArrowGood(rs[1..]);
    }
  }

  lemma {:induction false} ArgGood(args: seq<Arg>)
    requires forall w | w in ArgsOf(args).args :: GoodWord(w)
    requires forall r | r in ArgsOf(args).rs :: GoodWord(r.file)
    ensures GoodTokens(ArgToks(args))
  {
    if args != [] {
      assert args[0].w in ArgsOf(args).args;
      ArrowGood(args[0].rs);
      ArgGood(args[1..]);
    }
  }

  lemma {:induction false} UnitGood(u: Unit)
    requires GoodWords(UnitCmd(u))
    ensures GoodTokens(UnitToks(u))
    decreases u, 0
  {
    match u
    case Block(l, rs) =>
      WrapWords(LineCmd(l), ArrowsOf(rs));
      LineGood(l);
      ArrowGood(rs);
    case Simple(rs, args) =>
      WrapWords(Exec(ArgsOf(args).args), ArrowsOf(rs) + ArgsOf(args).rs);
      ArrowGood(rs);
      ArgGood(args);
  }

  lemma {:induction false} PipeGood(p: Pipeline)
    requires GoodWords(PipeCmd(p))
    ensures GoodTokens(PipeToks(p))
    decreases p, 0
  {
    UnitGood(p.u);
    if p.next.Some? {
      PipeGood(p.next.value);
    }
  }

  lemma {:induction false} AmpsGood(n: nat)
    ensures GoodTokens(Amps(n))
  {
    if n > 0 {
      AmpsGood(n - 1);
    }
  }

  lemma {:induction false} LineGood(l: Line)
    requires GoodWords(LineCmd(l))
    ensures GoodTokens(LineToks(l))
    decreases l, 0
  {
    BackWords(PipeCmd(l.p), l.amps);
    PipeGood(l.p);
    AmpsGood(l.amps);
    if l.next.Some? {
      LineGood(l.next.value);
    }
  }

  function Print(c: Cmd<string>): string {
    Render(LineToks(WriteLine(c)))
  }

  /** Every command whose words are words prints as a line of text that parses back to it. */
  lemma PrintParses(c: Cmd<string>)
    requires Writable(c) && GoodWords(c)
    ensures NoNul(Print(c)) && Parse(Lex(Print(c), 0)) == Ok(c, [])
  {
    WroteLineCmd(c);
    LineGood(WriteLine(c));
    LexRender(LineToks(WriteLine(c)));
    RenderNoNul(LineToks(WriteLine(c)));
    ParseWritten(c);
  }
}
