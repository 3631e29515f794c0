/** Commands written with no more parentheses than the grammar needs: what binds tighter, what
    groups to the right, and in which order redirections nest. */
module ShellFlat {
  import opened ShellSpec
  import opened ShellPrint
  import opened ShellSpace

  function Name(w: string): Lexeme { Lexeme('a', w) }

  function Symbol(c: char): Lexeme { Lexeme(c, [c]) }

  function NameTokens(argv: seq<string>): (r: seq<Lexeme>)
    ensures |r| == |argv|
  {
    seq(|argv|, i requires 0 <= i < |argv| => Name(argv[i]))
  }

  function RedirTokens(rs: seq<(string, Direction)>): seq<Lexeme> {
    if rs == [] then [] else [Symbol(if rs[0].1 == In then '<' else '>'), Name(rs[0].0)] + RedirTokens(rs[1..])
  }

  function Enclosed(ts: seq<Lexeme>): seq<Lexeme> { [Symbol('(')] + ts + [Symbol(')')] }

  /** The tokens of a command where a line (3), a command that may be followed by `;` (2), a
      pipeline (1) or one command of a pipeline (0) is expected. */
  function Tokens(t: Tree, level: nat): seq<Lexeme> {
    match t
    case TExec(argv) => NameTokens(argv)
    case TRedir(sub, file, dir) => Tokens(sub, 0) + RedirTokens([(file, dir)])
    case TPipe(l, r) =>
      var body := Tokens(l, 0) + [Symbol('|')] + Tokens(r, 1);
      if level >= 1 then body else Enclosed(body)
    case TBack(sub) =>
      var body := Tokens(sub, 2) + [Symbol('&')];
      if level >= 2 then body else Enclosed(body)
    case TList(l, r) =>
      var body := Tokens(l, 2) + [Symbol(';')] + Tokens(r, 3);
      if level >= 3 then body else Enclosed(body)
  }

  // ----- a cursor in front of known tokens

  /** `>>` counted as `>`. */
  function Once(x: Lexeme): Lexeme { if x == Lexeme('+', ">>") then Symbol('>') else x }

  function Plainly(ts: seq<Lexeme>): (r: seq<Lexeme>)
    ensures |r| == |ts|
  {
    seq(|ts|, i requires 0 <= i < |ts| => Once(ts[i]))
  }

  /** From p on the line has these tokens, perhaps `>>` where they have `>`. */
  predicate Reads(s: string, p: nat, ts: seq<Lexeme>) { p <= |s| && Plainly(Lex(s, p)) == ts }

  /** The token the line goes on with, or NUL at its end. */
  function Front(ts: seq<Lexeme>): char { if ts == [] then NUL else ts[0].tok }

  lemma AtToken(s: string, p: nat, x: Lexeme, more: seq<Lexeme>)
    requires Reads(s, p, [x] + more)
    ensures var t := GetToken(s, p);
            && t.start < |s| && Once(Lexeme(t.tok, s[t.start..t.end])) == x && Reads(s, t.pos, more) && t.pos > p
            && (x.tok != '>' ==> t.tok == x.tok && Text(s, Word(t.start, t.end)) == x.text)
            && (x.tok == '>' ==> t.tok == '>' || t.tok == '+')
            && t.start < t.end && x.text != "" && s[t.start..t.end][0] == x.text[0]
            && GetToken(s, Skip(s, p)) == t
  {
    TokenAfterSkip(s, p);
    assert ([x] + more)[0] == x && ([x] + more)[1..] == more;
    var t := GetToken(s, p);
    if t.start < |s| {
      var ts := Lex(s, p);
      assert ts[0] == Lexeme(t.tok, s[t.start..t.end]) && ts[1..] == Lex(s, t.pos);
      assert Plainly(ts)[0] == Once(ts[0]) && Plainly(ts)[1..] == Plainly(ts[1..]);
    }
  }

  lemma AtEnd(s: string, p: nat)
    requires Reads(s, p, [])
    ensures GetToken(s, p) == Token(NUL, |s|, |s|, |s|) && Skip(s, p) == |s|
  {}

  /** Lexemes as the scanner makes them: a symbol's text is the symbol, and a name's first
      character is none. */
  predicate Scanned(x: Lexeme) {
    x.text != "" && (if IsSymbol(x.tok) then x.text == [x.tok] else x.tok == 'a' && !IsSymbol(x.text[0]))
  }

  predicate Lexical(ts: seq<Lexeme>) { forall i :: 0 <= i < |ts| ==> Scanned(ts[i]) }

  /** What Peek says, by the token in front. */
  lemma PeekFront(s: string, p: nat, ts: seq<Lexeme>, toks: string)
    requires Reads(s, p, ts) && Lexical(ts) && forall k :: 0 <= k < |toks| ==> IsSymbol(toks[k])
    ensures Peek(s, p, toks) <==> ts != [] && ts[0].tok in toks
    ensures p <= |s| && Skip(s, p) <= |s| && Reads(s, Skip(s, p), ts) && GetToken(s, Skip(s, p)) == GetToken(s, p)
  {
    hide Peek, Lex, Plainly, Once, Skip;
    PeekIs(s, p, toks);
    TokenAfterSkip(s, p);
    if ts == [] {
      AtEnd(s, p);
    } else {
      assert ts == [ts[0]] + ts[1..];
      AtToken(s, p, ts[0], ts[1..]);
      if ts[0].tok == 'a' && ts[0].text[0] in toks { assert IsSymbol(ts[0].text[0]); }
    }
  }

  lemma LexicalParts(a: seq<Lexeme>, b: seq<Lexeme>)
    requires Lexical(a + b)
    ensures Lexical(a) && Lexical(b)
  {
    hide Scanned;
    forall i | 0 <= i < |a| ensures Scanned(a[i]) { assert (a + b)[i] == a[i]; }
    forall i | 0 <= i < |b| ensures Scanned(b[i]) { assert (a + b)[|a| + i] == b[i]; }
  }

  // ----- redirections and arguments

  lemma {:induction false} RedirsFromTokens(s: string, p: nat, rs: seq<(string, Direction)>, more: seq<Lexeme>)
    requires Reads(s, p, RedirTokens(rs) + more) && Lexical(RedirTokens(rs) + more) && Front(more) != '<' && Front(more) != '>'
    ensures var r := ParseRedirs(s, p); r.Ok? && Names(s, r.val) == rs && Reads(s, r.pos, more)
    decreases rs
  {
    hide Lex, GetToken, Peek, Skip, RedirsOk, Text, Names;
    var ts := RedirTokens(rs) + more;
    PeekFront(s, p, ts, "<>");
    if rs == [] {
      assert ts == more;
      NamesNone(s);
    } else {
      var (x, y) := (ts[0], ts[1]);
      assert ts == [x] + ts[1..] && ts[1..] == [y] + (RedirTokens(rs[1..]) + more);
      AtToken(s, p, x, ts[1..]);
      var op := GetToken(s, p);
      AtToken(s, op.pos, y, RedirTokens(rs[1..]) + more);
      var name := GetToken(s, op.pos);
      assert ts == [x, y] + (RedirTokens(rs[1..]) + more);
      LexicalParts([x, y], RedirTokens(rs[1..]) + more);
      RedirsFromTokens(s, name.pos, rs[1..], more);
      NamesPeel(s, Redirection(Word(name.start, name.end), rs[0].1), ParseRedirs(s, name.pos).val, rs);
    }
  }

  lemma NamesNone(s: string)
    ensures Names(s, []) == []
  {}

  lemma NamesPeel(s: string, one: Redirection, more: seq<Redirection>, rs: seq<(string, Direction)>)
    requires rs != [] && Text(s, one.file) == rs[0].0 && one.dir == rs[0].1 && Names(s, more) == rs[1..]
    ensures Names(s, [one] + more) == rs
  {
    assert Names(s, [one] + more) == [(Text(s, one.file), one.dir)] + Names(s, more);
  }

  /** `<` is for input, `>` and `>>` are for output. */
  lemma SignTells(s: string, p: nat)
    requires p <= |s| && Peek(s, p, "<>") && ParseRedirs(s, p).Ok?
    ensures Skip(s, p) < |s| && ParseRedirs(s, p).val != []
    ensures ParseRedirs(s, p).val[0].dir == if s[Skip(s, p)] == '<' then In else Out
  {
    TokenAfterSkip(s, p);
  }

  /** A tree wrapped in redirections, the first one innermost. */
  function WrapTree(t: Tree, rs: seq<(string, Direction)>): Tree
    decreases rs
  {
    if rs == [] then t else WrapTree(TRedir(t, rs[0].0, rs[0].1), rs[1..])
  }

  lemma {:induction false} WrapIsTree(s: string, c: Cmd, rs: seq<Redirection>)
    ensures TreeOf(s, Wrap(c, rs)) == WrapTree(TreeOf(s, c), Names(s, rs))
    decreases rs
  {
    if rs != [] {
      assert Names(s, rs)[0] == (Text(s, rs[0].file), rs[0].dir) && Names(s, rs)[1..] == Names(s, rs[1..]);
      WrapIsTree(s, Redir(c, rs[0].file, rs[0].dir), rs[1..]);
    }
  }

  /** Where one command of a pipeline may end. */
  predicate Closes(more: seq<Lexeme>) { Front(more) in "|)&;" || more == [] }

  lemma {:induction false} ArgsFromTokens(s: string, p: nat, argv: seq<Word>, rs: seq<Redirection>, names: seq<string>,
                                          list: seq<(string, Direction)>, more: seq<Lexeme>)
    requires Reads(s, p, NameTokens(names) + (RedirTokens(list) + more)) && Lexical(NameTokens(names) + (RedirTokens(list) + more))
    requires Closes(more) && |argv| + |names| < MAXARGS && (names == [] ==> list == [])
    requires RedirsOk(s, rs) && forall i :: 0 <= i < |argv| ==> IsWord(s, argv[i])
    ensures var r := ParseArgs(s, p, argv, rs);
            && r.Ok? && Reads(s, r.pos, more)
            && TreeOf(s, r.val) == WrapTree(TExec(Texts(s, argv) + names), Names(s, rs) + list)
    decreases names
  {
    hide Lex, GetToken, Peek, Skip, RedirsOk, Text, Names, Texts, IsWord, ParseRedirs, Wrap, WrapTree, NameTokens;
    var rest := RedirTokens(list) + more;
    var ts := NameTokens(names) + rest;
    PeekFront(s, p, ts, "|)&;");
    if names == [] {
      assert rest == more && ts == more by { NoNames(); }
      assert Names(s, rs) + list == Names(s, rs) && Texts(s, argv) + names == Texts(s, argv);
      WrapIsTree(s, Exec(argv), rs);
      ExecTexts(s, argv);
      if more == [] { AtEnd(s, p); }
    } else {
      NamesFront(names, rest);
      var (x, later) := (ts[0], NameTokens(names[1..]) + rest);
      AtToken(s, p, x, later);
      var t := GetToken(s, p);
      var w := Word(t.start, t.end);
      LexicalParts([x], later);
      ArgRedirs(s, t.pos, names[1..], list, more);
      var got := ParseRedirs(s, t.pos);
      var left := if names[1..] == [] then [] else list;
      RedirsJoined(s, rs, got.val);
      MoreTexts(s, argv, w, names);
      ArgsFromTokens(s, got.pos, argv + [w], rs + got.val, names[1..], left, more);
      MoreNames(s, rs, got.val, left, list);
    }
  }

  lemma NoNames()
    ensures NameTokens([]) == []
  {}

  lemma NamesFront(names: seq<string>, rest: seq<Lexeme>)
    requires names != []
    ensures var ts := NameTokens(names) + rest; ts == [Name(names[0])] + (NameTokens(names[1..]) + rest) && ts[0] == Name(names[0])
  {
    assert NameTokens(names) == [Name(names[0])] + NameTokens(names[1..]);
  }

  lemma ExecTexts(s: string, argv: seq<Word>)
    ensures TreeOf(s, Exec(argv)) == TExec(Texts(s, argv))
  {
    hide Text;
    assert TreeOf(s, Exec(argv)).argv == Texts(s, argv);
  }

  lemma MoreTexts(s: string, argv: seq<Word>, w: Word, names: seq<string>)
    requires names != [] && Text(s, w) == names[0]
    ensures Texts(s, argv + [w]) + names[1..] == Texts(s, argv) + names
  {
    assert Texts(s, argv + [w]) == Texts(s, argv) + [Text(s, w)];
    assert names == [names[0]] + names[1..];
  }

  lemma MoreNames(s: string, rs: seq<Redirection>, got: seq<Redirection>, left: seq<(string, Direction)>, list: seq<(string, Direction)>)
    requires Names(s, got) + left == list
    ensures Names(s, rs + got) + left == Names(s, rs) + list
  {
    assert Names(s, rs + got) == Names(s, rs) + Names(s, got);
  }

  /** Behind an argument: the redirections, if it was the last one; none, if another follows. */
  lemma ArgRedirs(s: string, p: nat, names: seq<string>, list: seq<(string, Direction)>, more: seq<Lexeme>)
    requires Reads(s, p, NameTokens(names) + (RedirTokens(list) + more)) && Lexical(NameTokens(names) + (RedirTokens(list) + more))
    requires Closes(more)
    ensures var r := ParseRedirs(s, p);
            var left := if names == [] then [] else list;
            && r.Ok? && Names(s, r.val) + left == list && Reads(s, r.pos, NameTokens(names) + (RedirTokens(left) + more))
            && Lexical(NameTokens(names) + (RedirTokens(left) + more))
  {
    hide Lex, Names, Lexical;
    var rest := RedirTokens(list) + more;
    if names == [] {
      NoNames();
      assert NameTokens(names) + rest == rest;
      RedirsFromTokens(s, p, list, more);
      LexicalParts(RedirTokens(list), more);
      assert NameTokens(names) + (RedirTokens([]) + more) == more;
      assert list + [] == list;
    } else {
      NamesFront(names, rest);
      var ts := NameTokens(names) + rest;
      assert RedirTokens([]) + ts == ts;
      RedirsFromTokens(s, p, [], ts);
    }
  }

  // ----- the levels of the grammar

  /** What is left of a command under its redirections. */
  function Core(t: Tree): Tree { if t.TRedir? then Core(t.sub) else t }

  /** Its redirections, the innermost first. */
  function RedirsOf(t: Tree): seq<(string, Direction)> { if t.TRedir? then RedirsOf(t.sub) + [(t.file, t.dir)] else [] }

  lemma {:induction false} RedirTokensMore(a: seq<(string, Direction)>, b: seq<(string, Direction)>)
    ensures RedirTokens(a + b) == RedirTokens(a) + RedirTokens(b)
    decreases a
  {
    if a == [] {
      assert a + b == b;
    } else {
      assert (a + b)[1..] == a[1..] + b;
      RedirTokensMore(a[1..], b);
    }
  }

  lemma {:induction false} WrapMore(t: Tree, a: seq<(string, Direction)>, b: seq<(string, Direction)>)
    ensures WrapTree(t, a + b) == WrapTree(WrapTree(t, a), b)
    decreases a
  {
    if a == [] {
      assert a + b == b;
    } else {
      assert (a + b)[1..] == a[1..] + b;
      WrapMore(TRedir(t, a[0].0, a[0].1), a[1..], b);
    }
  }

  /** A command is its core wrapped in its redirections, and so are its tokens. */
  lemma {:induction false} CoreWrapped(t: Tree)
    ensures !Core(t).TRedir? && WrapTree(Core(t), RedirsOf(t)) == t
    ensures Tokens(t, 0) == Tokens(Core(t), 0) + RedirTokens(RedirsOf(t))
    decreases t
  {
    if t.TRedir? {
      CoreWrapped(t.sub);
      var one := [(t.file, t.dir)];
      WrapMore(Core(t), RedirsOf(t.sub), one);
      assert one[1..] == [];
      RedirTokensMore(RedirsOf(t.sub), one);
      assert WrapTree(t.sub, one) == t;
    } else {
      assert RedirTokens(RedirsOf(t)) == [];
    }
  }

  /** What a parsing function gives: the tree, and the tokens behind it. */
  ghost predicate Gives(s: string, r: Parse<Cmd>, t: Tree, more: seq<Lexeme>) {
    r.Ok? && TreeOf(s, r.val) == t && Reads(s, r.pos, more)
  }

  /** Words and redirections. */
  lemma WordsRead(s: string, p: nat, names: seq<string>, list: seq<(string, Direction)>, more: seq<Lexeme>)
    requires Reads(s, p, NameTokens(names) + (RedirTokens(list) + more)) && Lexical(NameTokens(names) + (RedirTokens(list) + more))
    requires Closes(more) && |names| < MAXARGS
    ensures Gives(s, ParseExec(s, p), WrapTree(TExec(names), list), more)
  {
    hide Lex, GetToken, Peek, Skip, RedirsOk, Names, ParseRedirs, ParseArgs, WrapTree, NameTokens, Lexical;
    var ts := NameTokens(names) + (RedirTokens(list) + more);
    NoParen(names, list, more);
    PeekFront(s, p, ts, "(");
    if names == [] {
      NoNames();
      assert ts == RedirTokens(list) + more;
      RedirsFromTokens(s, Skip(s, p), list, more);
      var rs := ParseRedirs(s, Skip(s, p));
      LexicalParts(RedirTokens(list), more);
      assert NameTokens([]) + (RedirTokens([]) + more) == more;
      ArgsFromTokens(s, rs.pos, [], rs.val, [], [], more);
      assert Texts(s, []) + [] == names && list + [] == list;
    } else {
      NamesFront(names, RedirTokens(list) + more);
      assert RedirTokens([]) + ts == ts;
      RedirsFromTokens(s, Skip(s, p), [], ts);
      var rs := ParseRedirs(s, Skip(s, p));
      ArgsFromTokens(s, rs.pos, [], rs.val, names, list, more);
      assert Texts(s, []) + names == names && [] + list == list;
    }
  }

  lemma NoParen(names: seq<string>, list: seq<(string, Direction)>, more: seq<Lexeme>)
    requires Closes(more)
    ensures Front(NameTokens(names) + (RedirTokens(list) + more)) != '('
  {}

  /** A line in parentheses and redirections. */
  lemma EnclosedReads(s: string, p: nat, body: seq<Lexeme>, t: Tree, list: seq<(string, Direction)>, more: seq<Lexeme>)
    requires Reads(s, p, Enclosed(body) + (RedirTokens(list) + more)) && Lexical(Enclosed(body) + (RedirTokens(list) + more))
    requires Closes(more)
    requires forall q: nat, rest: seq<Lexeme> ::
               q > p && Reads(s, q, body + rest) && Lexical(body + rest) && (rest == [] || Front(rest) == ')') ==> Gives(s, ParseLine(s, q), t, rest)
    ensures Gives(s, ParseExec(s, p), WrapTree(t, list), more)
  {
    hide Lex, GetToken, Peek, Skip, RedirsOk, Names, ParseRedirs, ParseLine, ParseArgs, Wrap, WrapTree, WordsOk, Lexical;
    var rest := [Symbol(')')] + (RedirTokens(list) + more);
    var ts := Enclosed(body) + (RedirTokens(list) + more);
    assert ts == [Symbol('(')] + (body + rest);
    PeekFront(s, p, ts, "(");
    AtToken(s, p, Symbol('('), body + rest);
    LexicalParts([Symbol('(')], body + rest);
    LexicalParts(body, rest);
    var q := GetToken(s, p).pos;
    assert Gives(s, ParseLine(s, q), t, rest);
    var r := ParseLine(s, q);
    PeekFront(s, r.pos, rest, ")");
    AtToken(s, r.pos, Symbol(')'), RedirTokens(list) + more);
    LexicalParts([Symbol(')')], RedirTokens(list) + more);
    RedirsFromTokens(s, GetToken(s, r.pos).pos, list, more);
    WrapIsTree(s, r.val, ParseRedirs(s, GetToken(s, r.pos).pos).val);
  }

  // ----- one lemma for each level, by recursion on the tree

  function Size(t: Tree): (n: nat)
    ensures n > 0
  {
    match t
    case TExec(_) => 1
    case TRedir(sub, _, _) => 1 + Size(sub)
    case TPipe(l, r) => 1 + Size(l) + Size(r)
    case TList(l, r) => 1 + Size(l) + Size(r)
    case TBack(sub) => 1 + Size(sub)
  }

  /** The level at which a command needs no parentheses. */
  function LevelOf(t: Tree): nat { if t.TList? then 3 else if t.TBack? then 2 else if t.TPipe? then 1 else 0 }

  /** How many levels down the parser goes before it comes to the parts of t. */
  function Descent(t: Tree, level: nat): nat {
    if LevelOf(t) == 0 || level < LevelOf(t) then level + 4 else level - LevelOf(t)
  }

  lemma {:induction false} CoreFacts(t: Tree)
    requires PlainTree(t)
    ensures PlainTree(Core(t)) && Size(Core(t)) <= Size(t) && (t.TRedir? ==> Size(Core(t)) < Size(t)) && (!t.TRedir? ==> Core(t) == t)
    decreases t
  {
    if t.TRedir? { CoreFacts(t.sub); }
  }

  /** Nothing that belongs to a pipeline follows. */
  predicate EndsPipe(more: seq<Lexeme>) { more == [] || Front(more) in ")&;" }

  predicate EndsLine(more: seq<Lexeme>) { more == [] || Front(more) == ')' }

  lemma {:induction false} UnitReads(s: string, p: nat, t: Tree, more: seq<Lexeme>)
    requires PlainTree(t) && Reads(s, p, Tokens(t, 0) + more) && Lexical(Tokens(t, 0) + more) && Closes(more)
    ensures Gives(s, ParseExec(s, p), t, more)
    decreases Size(t), Descent(t, 0)
  {
    hide Lex, ParseExec, ParseLine, WrapTree, NameTokens, Lexical, PlainTree, Gives;
    CoreWrapped(t);
    CoreFacts(t);
    var (core, list) := (Core(t), RedirsOf(t));
    var rest := RedirTokens(list) + more;
    assert Tokens(t, 0) + more == Tokens(core, 0) + rest;
    if core.TExec? {
      FewWords(core);
      WordsRead(s, p, core.argv, list, more);
    } else {
      var body := Tokens(core, 3);
      assert Tokens(core, 0) == Enclosed(body);
      forall q: nat, later: seq<Lexeme> | q > p && Reads(s, q, body + later) && Lexical(body + later) && (later == [] || Front(later) == ')')
        ensures Gives(s, ParseLine(s, q), core, later)
      {
        LineFromTokens(s, q, core, later);
      }
      EnclosedReads(s, p, body, core, list, more);
    }
  }

  lemma FewWords(t: Tree)
    requires PlainTree(t) && t.TExec?
    ensures |t.argv| < 10
  {}

  /** One step of a pipeline. */
  lemma PipeStep(s: string, p: nat, l: Tree, r: Tree, m: nat, more: seq<Lexeme>)
    requires p <= |s| && ParseExec(s, p).Ok? && ParseExec(s, p).pos == m && TreeOf(s, ParseExec(s, p).val) == l
    requires Reads(s, m, [Symbol('|')] + (Tokens(r, 1) + more)) && Lexical([Symbol('|')] + (Tokens(r, 1) + more))
    requires Gives(s, ParsePipe(s, GetToken(s, m).pos), r, more)
    ensures Gives(s, ParsePipe(s, p), TPipe(l, r), more)
  {
    hide Lex, GetToken, Peek, Skip, ParseExec, WordsOk, Tokens, Lexical;
    PeekFront(s, m, [Symbol('|')] + (Tokens(r, 1) + more), "|");
    TreeOfPair(s, ParseExec(s, p).val, ParsePipe(s, GetToken(s, m).pos).val);
  }

  lemma {:induction false} PipeFromTokens(s: string, p: nat, t: Tree, more: seq<Lexeme>)
    requires PlainTree(t) && Reads(s, p, Tokens(t, 1) + more) && Lexical(Tokens(t, 1) + more) && EndsPipe(more)
    ensures Gives(s, ParsePipe(s, p), t, more)
    decreases Size(t), Descent(t, 1)
  {
    hide Lex, GetToken, Peek, Skip, ParseExec, Lexical, TreeOf, WordsOk;
    if t.TPipe? {
      var later := [Symbol('|')] + (Tokens(t.right, 1) + more);
      assert Tokens(t, 1) + more == Tokens(t.left, 0) + later;
      UnitReads(s, p, t.left, later);
      LexicalParts(Tokens(t.left, 0), later);
      LexicalParts([Symbol('|')], Tokens(t.right, 1) + more);
      var m := ParseExec(s, p).pos;
      AtToken(s, m, Symbol('|'), Tokens(t.right, 1) + more);
      PipeFromTokens(s, GetToken(s, m).pos, t.right, more);
      PipeStep(s, p, t.left, t.right, m, more);
    } else {
      UnitReads(s, p, t, more);
      LexicalParts(Tokens(t, 1), more);
      PeekFront(s, ParseExec(s, p).pos, more, "|");
    }
  }

  /** A pipeline with any `&` behind it: what is left for the line to read. */
  ghost predicate Begins(s: string, p: nat, t: Tree, c: Cmd, m: nat, more: seq<Lexeme>) {
    p <= |s| && Reads(s, m, more) && WordsOk(s, c) && TreeOf(s, c) == t && ParseLine(s, p) == ParseLineTail(s, m, c)
  }

  lemma {:induction false} AndFromTokens(s: string, p: nat, t: Tree, more: seq<Lexeme>) returns (c: Cmd, m: nat)
    requires PlainTree(t) && Reads(s, p, Tokens(t, 2) + more) && Lexical(Tokens(t, 2) + more) && EndsPipe(more)
    ensures Begins(s, p, t, c, m, more)
    decreases Size(t), Descent(t, 2)
  {
    hide Lex, GetToken, Peek, Skip, ParsePipe, Lexical, TreeOf, WordsOk;
    if t.TBack? {
      var later := [Symbol('&')] + more;
      assert Tokens(t, 2) + more == Tokens(t.sub, 2) + later;
      var d, k := AndFromTokens(s, p, t.sub, later);
      LexicalParts(Tokens(t.sub, 2), later);
      PeekFront(s, k, later, "&");
      AtToken(s, k, Symbol('&'), more);
      BackOf(s, d);
      c, m := Back(d), GetToken(s, k).pos;
    } else {
      PipeFromTokens(s, p, t, more);
      c, m := ParsePipe(s, p).val, ParsePipe(s, p).pos;
    }
  }

  lemma BackOf(s: string, d: Cmd)
    requires WordsOk(s, d)
    ensures WordsOk(s, Back(d)) && TreeOf(s, Back(d)) == TBack(TreeOf(s, d))
  {}

  lemma {:induction false} LineFromTokens(s: string, p: nat, t: Tree, more: seq<Lexeme>)
    requires PlainTree(t) && Reads(s, p, Tokens(t, 3) + more) && Lexical(Tokens(t, 3) + more) && EndsLine(more)
    ensures Gives(s, ParseLine(s, p), t, more)
    decreases Size(t), Descent(t, 3)
  {
    hide Lex, GetToken, Peek, Skip, ParseLine, Lexical, TreeOf, WordsOk;
    if t.TList? {
      var later := [Symbol(';')] + (Tokens(t.right, 3) + more);
      assert Tokens(t, 3) + more == Tokens(t.left, 2) + later;
      var c, m := AndFromTokens(s, p, t.left, later);
      LexicalParts(Tokens(t.left, 2), later);
      LexicalParts([Symbol(';')], Tokens(t.right, 3) + more);
      PeekFront(s, m, later, "&");
      PeekFront(s, m, later, ";");
      AtToken(s, m, Symbol(';'), Tokens(t.right, 3) + more);
      var q := GetToken(s, m).pos;
      LineFromTokens(s, q, t.right, more);
      TreeOfPair(s, c, ParseLine(s, q).val);
    } else {
      var c, m := AndFromTokens(s, p, t, more);
      LexicalParts(Tokens(t, 3), more);
      PeekFront(s, m, more, "&");
      PeekFront(s, m, more, ";");
    }
  }

  // ----- whole lines

  lemma OneRedirTokens(file: string, dir: Direction)
    ensures RedirTokens([(file, dir)]) == [Symbol(if dir == In then '<' else '>'), Name(file)]
  {
    assert [(file, dir)][1..] == [];
  }

  lemma TokensLexical(t: Tree, level: nat)
    requires PlainTree(t)
    ensures Lexical(Tokens(t, level))
  {
    hide Tokens, PlainTree;
    TokensSpellable(t, level);
    forall i | 0 <= i < |Tokens(t, level)| ensures Scanned(Tokens(t, level)[i]) {
      assert Spellable(Tokens(t, level)[i]);
    }
  }

  /** Any line with the tokens of a command, parentheses only where the grammar needs them and
      each `>` perhaps doubled, is that command. */
  lemma FlatParses(t: Tree, s: string)
    requires PlainTree(t) && Plainly(Lex(s, 0)) == Tokens(t, 3)
    ensures ParseCmd(s).Ok? && TreeOf(s, ParseCmd(s).val) == t
  {
    hide Lex, ParseLine, TreeOf, WordsOk, Tokens, PlainTree, Lexical, Skip, GetToken;
    TokensLexical(t, 3);
    assert Tokens(t, 3) + [] == Tokens(t, 3);
    LineFromTokens(s, 0, t, []);
    AtEnd(s, ParseLine(s, 0).pos);
  }

  /** Tokens written out, each with a blank behind it. */
  function Spell(ts: seq<Lexeme>): string { if ts == [] then "" else ts[0].text + " " + Spell(ts[1..]) }

  predicate Spellable(x: Lexeme) {
    if IsSymbol(x.tok) then x.text == [x.tok] else x.tok == 'a' && PlainText(x.text)
  }

  predicate Written(x: Lexeme) { Spellable(x) || x == Lexeme('+', ">>") }

  /** They are read back as they are. */
  lemma {:induction false} SpelledLex(s: string, p: nat, ts: seq<Lexeme>)
    requires (forall i :: 0 <= i < |ts| ==> Written(ts[i])) && At(s, p, Spell(ts)) && p + |Spell(ts)| == |s|
    ensures p <= |s| && Lex(s, p) == ts
    decreases ts
  {
    hide GetToken, PlainText, Skip, Written;
    if ts == [] {
      EndToken(s);
    } else {
      var (x, q) := (ts[0], p + |ts[0].text|);
      AtParts(s, p, x.text + " ", Spell(ts[1..]));
      AtParts(s, p, x.text, " ");
      AtChar(s, q, ' ');
      SpelledLex(s, q + 1, ts[1..]);
      SpelledToken(s, p, x);
      SkipBlank(s, q);
      TokenAfterSkip(s, q + 1);
      assert s[p..q] == x.text;
      assert ts == [x] + ts[1..];
    }
  }

  lemma SkipBlank(s: string, q: nat)
    requires q < |s| && s[q] == ' '
    ensures Skip(s, q) == Skip(s, q + 1)
  {}

  lemma SpelledToken(s: string, p: nat, x: Lexeme)
    requires Written(x) && At(s, p, x.text) && p + |x.text| < |s| && s[p + |x.text|] == ' '
    ensures GetToken(s, p) == Token(x.tok, p, p + |x.text|, Skip(s, p + |x.text|)) && p < |s|
  {
    hide Skip;
    if x.tok == '+' {
      AtParts(s, p, ">", ">");
      AtChar(s, p, '>');
      AtChar(s, p + 1, '>');
      SkipStays(s, p);
    } else if IsSymbol(x.tok) {
      AtChar(s, p, x.tok);
      SkipStays(s, p);
    } else {
      PlainIsGood(x.text);
      WordToken(s, p, x.text);
    }
  }

  lemma {:induction false} TokensSpellable(t: Tree, level: nat)
    requires PlainTree(t)
    ensures forall i :: 0 <= i < |Tokens(t, level)| ==> Spellable(Tokens(t, level)[i])
    decreases t
  {
    match t
    case TExec(argv) =>
    case TRedir(sub, file, dir) => TokensSpellable(sub, 0); OneRedirTokens(file, dir);
    case TPipe(l, r) => TokensSpellable(l, 0); TokensSpellable(r, 1);
    case TBack(sub) => TokensSpellable(sub, 2);
    case TList(l, r) => TokensSpellable(l, 2); TokensSpellable(r, 3);
  }

  /** Every command, written with no more parentheses than the grammar needs and with `>` or `>>`
      for output, is read back: pipes bind tighter than `&`, and `&` than `;`; pipes and `;`
      group to the right; each further redirection of a command goes around those before it. */
  lemma ParseUndoesSpelling(t: Tree, ts: seq<Lexeme>)
    requires PlainTree(t) && Plainly(ts) == Tokens(t, 3)
    ensures var s := Spell(ts); ParseCmd(s).Ok? && TreeOf(s, ParseCmd(s).val) == t
  {
    hide Tokens, ParseCmd, TreeOf, Lex, PlainTree, Spell, Spellable;
    TokensSpellable(t, 3);
    forall i | 0 <= i < |ts| ensures Written(ts[i]) {
      assert Spellable(Plainly(ts)[i]) && Plainly(ts)[i] == Once(ts[i]);
    }
    var s := Spell(ts);
    assert s[0..0 + |s|] == s;
    SpelledLex(s, 0, ts);
    FlatParses(t, s);
  }

  /** The three signs at work. */
  lemma SignRedirects(w: string, sign: string, dir: Direction, file: string)
    requires PlainText(w) && PlainText(file) && ((sign, dir) == ("<", In) || (sign, dir) == (">", Out) || (sign, dir) == (">>", Out))
    ensures var s := w + " " + sign + " " + file + " ";
            ParseCmd(s).Ok? && TreeOf(s, ParseCmd(s).val) == TRedir(TExec([w]), file, dir)
  {
    hide PlainText, ParseCmd, TreeOf;
    var t := TRedir(TExec([w]), file, dir);
    var mark := if sign == ">>" then Lexeme('+', ">>") else Symbol(sign[0]);
    var ts := [Name(w), mark, Name(file)];
    OneRedirTokens(file, dir);
    assert NameTokens([w]) == [Name(w)];
    assert Plainly(ts) == Tokens(t, 3);
    assert Spell(ts) == w + " " + sign + " " + file + " " by { ThreeSpelled(Name(w), mark, Name(file)); }
    ParseUndoesSpelling(t, ts);
  }

  lemma ThreeSpelled(x: Lexeme, y: Lexeme, z: Lexeme)
    ensures Spell([x, y, z]) == x.text + " " + y.text + " " + z.text + " "
  {
    assert [x, y, z][1..] == [y, z] && [y, z][1..] == [z] && [z][1..] == [];
    assert Spell([z]) == z.text + " ";
  }
}
