/** grep.c's matcher against the language of regular expressions.  C strings are sequences without their
    terminator, so "*text == 0" is "text is empty". */
module Grep {

  // ---------- what a pattern means ----------

  datatype Atom = Any | Lit(c: char)

  datatype Regex = Empty | Char(a: Atom) | Cat(r: Regex, s: Regex) | Rep(r: Regex)

  predicate Fits(a: Atom, c: char) {
    a.Any? || a.c == c
  }

  /** The language of a regular expression, by the usual clauses. */
  ghost predicate Lang(r: Regex, s: string)
    decreases r, |s|
  {
    match r
    case Empty => s == []
    case Char(a) => |s| == 1 && Fits(a, s[0])
    case Cat(x, y) => exists k | 0 <= k <= |s| :: Lang(x, s[..k]) && Lang(y, s[k..])
    case Rep(x) => s == [] || exists k | 0 < k <= |s| :: Lang(x, s[..k]) && Lang(r, s[k..])
  }

  function AtomOf(c: char): Atom {
    if c == '.' then Any else Lit(c)
  }

  /** A pattern read left to right: x* repeats x, a $ that ends the pattern anchors it, and ^, $ and *
      anywhere else stand for themselves. */
  datatype Pattern = Pattern(body: Regex, atEnd: bool)

  function Read(re: string): Pattern {
    if re == [] then Pattern(Empty, false)
    else if |re| >= 2 && re[1] == '*' then
      var p := Read(re[2..]);
      Pattern(Cat(Rep(Char(AtomOf(re[0]))), p.body), p.atEnd)
    else if re == "$" then Pattern(Empty, true)
    else
      var p := Read(re[1..]);
      Pattern(Cat(Char(AtomOf(re[0])), p.body), p.atEnd)
  }

  // ---------- writing patterns ----------

  /** One atom, repeated or not. */
  datatype Item = Item(a: Atom, star: bool)

  function CharOf(a: Atom): char {
    match a
    case Any => '.'
    case Lit(c) => c
  }

  function ItemText(i: Item): string {
    if i.star then [CharOf(i.a), '*'] else [CharOf(i.a)]
  }

  function Write(items: seq<Item>, atEnd: bool): string {
    if items == [] then (if atEnd then "$" else "") else ItemText(items[0]) + Write(items[1..], atEnd)
  }

  function Meaning(items: seq<Item>): Regex {
    if items == [] then Empty
    else Cat(if items[0].star then Rep(Char(items[0].a)) else Char(items[0].a), Meaning(items[1..]))
  }

  /** What can be written: no literal dot, no literal star behind an item that is not starred, and no
      literal dollar at the end, unless it is starred. */
  predicate Writable(items: seq<Item>, atEnd: bool) {
    && (forall k | 0 <= k < |items| :: items[k].a != Lit('.'))
    && (forall k | 0 < k < |items| && !items[k - 1].star :: items[k].a != Lit('*'))
    && (|items| > 0 && !atEnd && !items[|items| - 1].star ==> items[|items| - 1].a != Lit('$'))
  }

  lemma WritableRest(items: seq<Item>, atEnd: bool)
    requires items != []
    ensures Writable(items, atEnd) <==>
              && Writable(items[1..], atEnd) && items[0].a != Lit('.')
              && (|items| > 1 && !items[0].star ==> items[1].a != Lit('*'))
              && (|items| == 1 && !atEnd && !items[0].star ==> items[0].a != Lit('$'))
  {
    var r := items[1..];
    if Writable(r, atEnd) && items[0].a != Lit('.') && (|items| > 1 && !items[0].star ==> items[1].a != Lit('*')) {
      assert forall k | 0 < k < |items| :: items[k] == r[k - 1];
    }
    if Writable(items, atEnd) {
      assert forall k | 0 <= k < |r| :: r[k] == items[k + 1];
    }
  }

  lemma FirstChar(items: seq<Item>, atEnd: bool)
    ensures Write(items, atEnd) == [] <==> items == [] && !atEnd
    ensures Write(items, atEnd) != [] && Write(items, atEnd)[0] == '*' <==> items != [] && items[0].a == Lit('*')
    ensures items == [] && atEnd ==> Write(items, atEnd) == "$"
  {
  }

  /** A written pattern is read as what was written if and only if it can be written. */
  lemma {:induction false} ReadWritten(items: seq<Item>, atEnd: bool)
    ensures Read(Write(items, atEnd)) == Pattern(Meaning(items), atEnd) <==> Writable(items, atEnd)
    decreases |items|
  {
    if items != [] {
      var i, rest := items[0], items[1..];
      var text, more := Write(items, atEnd), Write(rest, atEnd);
      ReadWritten(rest, atEnd);
      WritableRest(items, atEnd);
      FirstChar(rest, atEnd);
      if i.star {
        assert text[2..] == more;
      } else {
        assert text[1..] == more;
        assert text == "$" <==> i.a == Lit('$') && more == [];
      }
    }
  }

  /** Every pattern is written by some list of items. */
  lemma {:induction false} EveryPatternIsWritten(re: string) returns (items: seq<Item>, atEnd: bool)
    ensures Writable(items, atEnd) && Write(items, atEnd) == re
    decreases |re|
  {
    if re == [] {
      items, atEnd := [], false;
    } else if |re| >= 2 && re[1] == '*' {
      var more;
      more, atEnd := EveryPatternIsWritten(re[2..]);
      items := [Item(AtomOf(re[0]), true)] + more;
      assert items[1..] == more && re == [re[0], '*'] + re[2..];
      WritableRest(items, atEnd);
    } else if re == "$" {
      items, atEnd := [], true;
    } else {
      var more;
      more, atEnd := EveryPatternIsWritten(re[1..]);
      items := [Item(AtomOf(re[0]), false)] + more;
      assert items[1..] == more && re == [re[0]] + re[1..];
      FirstChar(more, atEnd);
      WritableRest(items, atEnd);
    }
  }

  /** The pattern matches text[..j]. */
  ghost predicate Upto(p: Pattern, text: string, j: int) {
    0 <= j <= |text| && Lang(p.body, text[..j]) && (p.atEnd ==> j == |text|)
  }

  /** Some initial part of the text is in the language (all of it, for a trailing $). */
  ghost predicate MatchesHere(p: Pattern, text: string) {
    exists j :: Upto(p, text, j)
  }

  ghost predicate Matches(re: string, text: string) {
    if re != [] && re[0] == '^' then MatchesHere(Read(re[1..]), text)
    else exists i :: 0 <= i <= |text| && MatchesHere(Read(re), text[i..])
  }

  // ---------- the language of the two pattern shapes ----------

  predicate AllFit(a: Atom, s: string) {
    forall i | 0 <= i < |s| :: Fits(a, s[i])
  }

  lemma {:induction false} RepChar(a: Atom, s: string)
    ensures Lang(Rep(Char(a)), s) <==> AllFit(a, s)
    decreases |s|
  {
    if Lang(Rep(Char(a)), s) && s != [] {
      var k :| 0 < k <= |s| && Lang(Char(a), s[..k]) && Lang(Rep(Char(a)), s[k..]);
      RepChar(a, s[k..]);
      forall i | 0 <= i < |s|
        ensures Fits(a, s[i])
      {
        assert i >= 1 ==> s[i] == s[k..][i - 1];
      }
    }
    if AllFit(a, s) && s != [] {
      RepChar(a, s[1..]);
      assert Lang(Char(a), s[..1]) && Lang(Rep(Char(a)), s[1..]);
    }
  }

  lemma Slices(text: string, j: int, k: int)
    requires 0 <= k <= j <= |text|
    ensures text[..j][..k] == text[..k] && text[..j][k..] == text[k..][..j - k]
  {
  }

  lemma CharThen(a: Atom, p: Pattern, text: string)
    ensures MatchesHere(Pattern(Cat(Char(a), p.body), p.atEnd), text)
            <==> text != [] && Fits(a, text[0]) && MatchesHere(p, text[1..])
  {
    var q := Pattern(Cat(Char(a), p.body), p.atEnd);
    if MatchesHere(q, text) {
      var j :| Upto(q, text, j);
      var k :| 0 <= k <= |text[..j]| && Lang(Char(a), text[..j][..k]) && Lang(p.body, text[..j][k..]);
      assert |text[..j][..k]| == 1;
      Slices(text, j, k);
      assert Upto(p, text[1..], j - 1);
    }
    if text != [] && Fits(a, text[0]) && MatchesHere(p, text[1..]) {
      var j :| Upto(p, text[1..], j);
      var s := text[..j + 1];
      Slices(text, j + 1, 1);
      assert s[..1] == [text[0]];
      assert Lang(Char(a), s[..1]) && Lang(p.body, s[1..]);
      assert Upto(q, text, j + 1);
    }
  }

  lemma StarThen(a: Atom, p: Pattern, text: string)
    ensures MatchesHere(Pattern(Cat(Rep(Char(a)), p.body), p.atEnd), text)
            <==> exists k :: 0 <= k <= |text| && AllFit(a, text[..k]) && MatchesHere(p, text[k..])
  {
    var q := Pattern(Cat(Rep(Char(a)), p.body), p.atEnd);
    if MatchesHere(q, text) {
      var j :| Upto(q, text, j);
      var k :| 0 <= k <= |text[..j]| && Lang(Rep(Char(a)), text[..j][..k]) && Lang(p.body, text[..j][k..]);
      Slices(text, j, k);
      RepChar(a, text[..k]);
      assert Upto(p, text[k..], j - k);
    }
    if k :| 0 <= k <= |text| && AllFit(a, text[..k]) && MatchesHere(p, text[k..]) {
      var j :| Upto(p, text[k..], j);
      var s := text[..k + j];
      Slices(text, k + j, k);
      RepChar(a, s[..k]);
      assert Lang(Rep(Char(a)), s[..k]) && Lang(p.body, s[k..]);
      assert Upto(q, text, k + j);
    }
  }

  // ---------- plain patterns ----------

  /** No wildcard and no repetition. */
  predicate Plain(w: string) {
    '.' !in w && '*' !in w
  }

  predicate LastIs(w: string, c: char) {
    w != [] && w[|w| - 1] == c
  }

  predicate FirstIs(w: string, c: char) {
    w != [] && w[0] == c
  }

  lemma Nothing(text: string)
    ensures MatchesHere(Read(""), text) && (MatchesHere(Read("$"), text) <==> text == [])
  {
    assert Upto(Read(""), text, 0);
    if text == [] {
      assert Upto(Read("$"), text, 0);
    }
  }

  /** A plain pattern matches at the beginning exactly if the text begins with it; with a dollar behind it,
      exactly if it is the text. */
  lemma {:induction false} PlainHere(w: string, text: string)
    requires Plain(w)
    ensures !LastIs(w, '$') ==> (MatchesHere(Read(w), text) <==> w <= text)
    ensures MatchesHere(Read(w + "$"), text) <==> text == w
    decreases |w|
  {
    Nothing(text);
    if w == [] {
      assert w + "$" == "$";
    } else {
      var c, v := w[0], w[1..];
      assert w[0] in w && (|w| > 1 ==> w[1] in w);
      assert (w + "$")[1..] == v + "$";
      CharThen(Lit(c), Read(v + "$"), text);
      CharThen(Lit(c), Read(v), text);
      if text != [] {
        PlainHere(v, text[1..]);
        assert w == [c] + v && text == [text[0]] + text[1..];
      }
    }
  }

  ghost predicate EndsWith(text: string, w: string) {
    |w| <= |text| && text[|text| - |w|..] == w
  }

  ghost predicate Contains(text: string, w: string) {
    exists i :: 0 <= i <= |text| && w <= text[i..]
  }

  /** What match answers to a plain pattern and its anchored forms. */
  lemma PlainMatches(w: string, text: string)
    requires Plain(w)
    ensures !FirstIs(w, '^') && !LastIs(w, '$') ==> (Matches(w, text) <==> Contains(text, w))
    ensures !FirstIs(w, '^') ==> (Matches(w + "$", text) <==> EndsWith(text, w))
    ensures !LastIs(w, '$') ==> (Matches("^" + w, text) <==> w <= text)
    ensures Matches("^" + (w + "$"), text) <==> text == w
  {
    PlainHere(w, text);
    assert ("^" + w)[1..] == w && ("^" + (w + "$"))[1..] == w + "$";
    forall i | 0 <= i <= |text|
      ensures !LastIs(w, '$') ==> (MatchesHere(Read(w), text[i..]) <==> w <= text[i..])
      ensures MatchesHere(Read(w + "$"), text[i..]) <==> text[i..] == w
    {
      PlainHere(w, text[i..]);
    }
    assert FirstIs(w + "$", '^') <==> FirstIs(w, '^');
    if !FirstIs(w, '^') {
      PlainEnd(w, text);
      if !LastIs(w, '$') {
        PlainInside(w, text);
      }
    }
  }

  lemma PlainInside(w: string, text: string)
    requires !FirstIs(w, '^')
    requires forall i | 0 <= i <= |text| :: MatchesHere(Read(w), text[i..]) <==> w <= text[i..]
    ensures Matches(w, text) <==> Contains(text, w)
  {
  }

  lemma PlainEnd(w: string, text: string)
    requires !FirstIs(w, '^')
    requires forall i | 0 <= i <= |text| :: MatchesHere(Read(w + "$"), text[i..]) <==> text[i..] == w
    ensures Matches(w + "$", text) <==> EndsWith(text, w)
  {
    assert (w + "$")[0] == '^' <==> FirstIs(w, '^');
    if EndsWith(text, w) {
      var i := |text| - |w|;
      assert MatchesHere(Read(w + "$"), text[i..]);
    }
  }

  /** The text that a plain pattern with its anchors asks for, and where. */
  ghost predicate PlainAnswer(re: string, text: string) {
    if FirstIs(re, '^') then (if LastIs(re, '$') then text == re[1..|re| - 1] else re[1..] <= text)
    else if LastIs(re, '$') then EndsWith(text, re[..|re| - 1])
    else Contains(text, re)
  }

  lemma PlainPattern(re: string, text: string)
    requires Plain(re)
    ensures Matches(re, text) <==> PlainAnswer(re, text)
  {
    var a, z := if FirstIs(re, '^') then 1 else 0, if LastIs(re, '$') then |re| - 1 else |re|;
    var w := re[a..z];
    assert Plain(w) by {
      assert forall c | c in w :: c in re;
    }
    PlainMatches(w, text);
    if a == 1 {
      assert re == if z < |re| then "^" + (w + "$") else "^" + w;
      assert LastIs(w, '$') ==> LastIs(re, '$');
    } else {
      assert re == if z < |re| then w + "$" else w;
    }
  }

  // ---------- the matcher ----------

  /** match: true exactly when the text contains a string of the language, or begins with one for ^.  For a
      plain pattern that is: contains it, begins with it for ^, ends with it for $, is it for both. */
  method Match(re: string, text: string) returns (r: bool)
    ensures r <==> Matches(re, text)
    ensures Plain(re) ==> (r <==> PlainAnswer(re, text))
  {
    if Plain(re) {
      PlainPattern(re, text);
    }
    if re != [] && re[0] == '^' {
      r := MatchHere(re[1..], text);
      return;
    }
    var t := 0;
    assert text[0..] == text;
    while true
      invariant 0 <= t <= |text|
      invariant forall i | 0 <= i < t :: !MatchesHere(Read(re), text[i..])
      decreases |text| - t
    {
      r := MatchHere(re, text[t..]);
      if r {
        return;
      }
      if t == |text| {
        break;
      }
      t := t + 1;
    }
    return false;
  }

  method MatchHere(re: string, text: string) returns (r: bool)
    ensures r <==> MatchesHere(Read(re), text)
    decreases |re|, 0
  {
    if re == [] {
      assert Upto(Read(re), text, 0);
      return true;
    }
    if |re| >= 2 && re[1] == '*' {
      StarThen(AtomOf(re[0]), Read(re[2..]), text);
      r := MatchStar(re[0], re[2..], text);
      return;
    }
    if re[0] == '$' && |re| == 1 {
      assert text == [] ==> Upto(Read(re), text, 0);
      return text == [];
    }
    CharThen(AtomOf(re[0]), Read(re[1..]), text);
    if text != [] && (re[0] == '.' || re[0] == text[0]) {
      r := MatchHere(re[1..], text[1..]);
      return;
    }
    return false;
  }

  method MatchStar(c: char, re: string, text: string) returns (r: bool)
    ensures r <==> exists k :: 0 <= k <= |text| && AllFit(AtomOf(c), text[..k]) && MatchesHere(Read(re), text[k..])
    decreases |re|, 1
  {
    var t := 0;
    while true
      invariant 0 <= t <= |text| && AllFit(AtomOf(c), text[..t])
      invariant forall k | 0 <= k < t :: !MatchesHere(Read(re), text[k..])
      decreases |text| - t
    {
      r := MatchHere(re, text[t..]);
      if r {
        return;
      }
      if !(t < |text| && (text[t] == c || c == '.')) {
        forall k | 0 <= k <= |text| && AllFit(AtomOf(c), text[..k])
          ensures k <= t
        {
        }
        return false;
      }
      t := t + 1;
    }
  }
}
