/** The shell's characters, spelled out: which separate words, and that nothing in a line but
    its tokens decides what it means. */
module ShellSpace {
  import opened ShellSpec
  import opened ShellPrint

  /** What the characters of a word are. */
  predicate Plain(c: char) {
    && c != ' ' && c != '\t' && c != '\r' && c != '\n' && c != '\U{000B}'
    && c != '<' && c != '|' && c != '>' && c != '&' && c != ';' && c != '(' && c != ')'
  }

  predicate White(c: char) { c == ' ' || c == '\t' || c == '\r' || c == '\n' || c == '\U{000B}' }

  predicate AllWhite(s: string) { forall i :: 0 <= i < |s| ==> White(s[i]) }

  // ----- the words of an accepted line

  /** A run of plain characters that cannot be made longer. */
  predicate PlainWord(s: string, w: Word) {
    && w.start < w.end <= |s| && (forall k :: w.start <= k < w.end ==> Plain(s[k]))
    && (w.end < |s| ==> !Plain(s[w.end]))
  }

  predicate PlainWords(s: string, c: Cmd) {
    match c
    case Exec(argv) => |argv| < 10 && forall i :: 0 <= i < |argv| ==> PlainWord(s, argv[i])
    case Redir(sub, file, _) => PlainWord(s, file) && PlainWords(s, sub)
    case Pipe(l, r) => PlainWords(s, l) && PlainWords(s, r)
    case List(l, r) => PlainWords(s, l) && PlainWords(s, r)
    case Back(sub) => PlainWords(s, sub)
  }

  lemma {:induction false} WordsArePlain(s: string, c: Cmd)
    requires WordsOk(s, c)
    ensures PlainWords(s, c)
  {
    match c
    case Exec(argv) =>
    case Redir(sub, _, _) => WordsArePlain(s, sub);
    case Pipe(l, r) => WordsArePlain(s, l); WordsArePlain(s, r);
    case List(l, r) => WordsArePlain(s, l); WordsArePlain(s, r);
    case Back(sub) => WordsArePlain(s, sub);
  }

  /** In an accepted line every word of the command is such a run: none has a blank, a tab, a
      carriage return, a newline, a vertical tab or one of the seven symbols. */
  lemma AcceptedWords(s: string)
    requires ParseCmd(s).Ok?
    ensures PlainWords(s, ParseCmd(s).val)
  {
    WordsArePlain(s, ParseCmd(s).val);
  }

  // ----- a line as its tokens

  datatype Lexeme = Lexeme(tok: char, text: string)

  function Lex(s: string, p: nat): seq<Lexeme>
    requires p <= |s|
    decreases |s| - p
  {
    var t := GetToken(s, p);
    if t.start == |s| then [] else [Lexeme(t.tok, s[t.start..t.end])] + Lex(s, t.pos)
  }

  predicate Same(s: string, p: nat, u: string, q: nat) { p <= |s| && q <= |u| && Lex(s, p) == Lex(u, q) }

  lemma TokenAfterSkip(s: string, p: nat)
    requires p <= |s|
    ensures GetToken(s, Skip(s, p)) == GetToken(s, p) && Lex(s, Skip(s, p)) == Lex(s, p)
  {
    SkipStays(s, Skip(s, p));
  }

  /** At the same tokens, the parser's tests and steps agree. */
  lemma SameStep(s: string, p: nat, u: string, q: nat)
    requires Same(s, p, u, q)
    ensures var (a, b) := (GetToken(s, p), GetToken(u, q));
            && (a.start == |s| <==> b.start == |u|) && a.tok == b.tok
            && (a.start < |s| ==> && s[a.start..a.end] == u[b.start..b.end] && Same(s, a.pos, u, b.pos) && a.pos > p && b.pos > q)
            && (a.start == |s| ==> a.tok == NUL && a.pos == |s| && b.pos == |u| && Same(s, a.pos, u, b.pos))
  {
    var (a, b) := (GetToken(s, p), GetToken(u, q));
    if a.start < |s| {
      assert Lex(s, p)[0] == Lexeme(a.tok, s[a.start..a.end]) && Lex(s, p)[1..] == Lex(s, a.pos);
      assert b.start < |u|;
      assert Lex(u, q)[0] == Lexeme(b.tok, u[b.start..b.end]) && Lex(u, q)[1..] == Lex(u, b.pos);
    } else {
      assert Lex(s, p) == [];
      assert b.start == |u|;
    }
  }

  lemma SameSkip(s: string, p: nat, u: string, q: nat)
    requires Same(s, p, u, q)
    ensures Same(s, Skip(s, p), u, Skip(u, q))
  {
    hide Lex;
    TokenAfterSkip(s, p);
    TokenAfterSkip(u, q);
  }

  lemma PeekIs(s: string, p: nat, toks: string)
    requires p <= |s|
    ensures var t := GetToken(s, p);
            && (t.start < |s| ==> t.start < t.end) && (Peek(s, p, toks) <==> t.start < |s| && s[t.start..t.end][0] in toks)
  {}

  lemma SamePeek(s: string, p: nat, u: string, q: nat, toks: string)
    requires Same(s, p, u, q)
    ensures Peek(s, p, toks) <==> Peek(u, q, toks)
  {
    hide Lex, GetToken, Peek;
    SameStep(s, p, u, q);
    PeekIs(s, p, toks);
    PeekIs(u, q, toks);
  }

  // ----- equal tokens, equal commands

  function Names(s: string, rs: seq<Redirection>): (r: seq<(string, Direction)>)
    ensures |r| == |rs|
  {
    seq(|rs|, i requires 0 <= i < |rs| => (Text(s, rs[i].file), rs[i].dir))
  }

  function Texts(s: string, argv: seq<Word>): (r: seq<string>)
    ensures |r| == |argv|
  {
    seq(|argv|, i requires 0 <= i < |argv| => Text(s, argv[i]))
  }

  /** Both panic, or both mean the same and stop at the same tokens. */
  predicate Alike(s: string, u: string, a: Parse<Cmd>, b: Parse<Cmd>) {
    if a.Panic? then b.Panic? else b.Ok? && Same(s, a.pos, u, b.pos) && TreeOf(s, a.val) == TreeOf(u, b.val)
  }

  predicate AlikeRedirs(s: string, u: string, a: Parse<seq<Redirection>>, b: Parse<seq<Redirection>>) {
    if a.Panic? then b.Panic? else b.Ok? && Same(s, a.pos, u, b.pos) && Names(s, a.val) == Names(u, b.val)
  }

  lemma NamesMore(s: string, u: string, a: seq<Redirection>, b: seq<Redirection>, c: seq<Redirection>, d: seq<Redirection>)
    requires Names(s, a) == Names(u, b) && Names(s, c) == Names(u, d)
    ensures Names(s, a + c) == Names(u, b + d)
  {
    assert |a| == |Names(s, a)| == |Names(u, b)| == |b|;
    assert Names(s, a + c) == Names(s, a) + Names(s, c);
    assert Names(u, b + d) == Names(u, b) + Names(u, d);
  }

  lemma {:induction false} SameWrap(s: string, u: string, c: Cmd, d: Cmd, a: seq<Redirection>, b: seq<Redirection>)
    requires TreeOf(s, c) == TreeOf(u, d) && Names(s, a) == Names(u, b)
    ensures TreeOf(s, Wrap(c, a)) == TreeOf(u, Wrap(d, b))
    decreases a
  {
    assert |a| == |Names(s, a)| == |Names(u, b)| == |b|;
    if a != [] {
      assert Names(s, a)[0] == Names(u, b)[0];
      assert Names(s, a[1..]) == Names(s, a)[1..] && Names(u, b[1..]) == Names(u, b)[1..];
      SameWrap(s, u, Redir(c, a[0].file, a[0].dir), Redir(d, b[0].file, b[0].dir), a[1..], b[1..]);
    }
  }

  lemma {:induction false} SameRedirs(s: string, p: nat, u: string, q: nat)
    requires Same(s, p, u, q)
    ensures AlikeRedirs(s, u, ParseRedirs(s, p), ParseRedirs(u, q))
    decreases |s| - p
  {
    hide Lex, GetToken, Peek, Skip, RedirsOk;
    SamePeek(s, p, u, q, "<>");
    SameSkip(s, p, u, q);
    TokenAfterSkip(s, p);
    TokenAfterSkip(u, q);
    SameStep(s, p, u, q);
    PeekIs(s, p, "<>");
    var (a, b) := (GetToken(s, p), GetToken(u, q));
    if Peek(s, p, "<>") {
      SameStep(s, a.pos, u, b.pos);
      var (x, y) := (GetToken(s, a.pos), GetToken(u, b.pos));
      if x.tok == 'a' {
        WordBegins(s, a.pos);
        SameRedirs(s, x.pos, u, y.pos);
        if ParseRedirs(s, x.pos).Ok? {
          NamesMore(s, u, [Redirection(Word(x.start, x.end), if a.tok == '<' then In else Out)],
                    [Redirection(Word(y.start, y.end), if b.tok == '<' then In else Out)],
                    ParseRedirs(s, x.pos).val, ParseRedirs(u, y.pos).val);
        }
      }
    }
  }

  lemma WordBegins(s: string, p: nat)
    requires p <= |s| && GetToken(s, p).tok == 'a'
    ensures GetToken(s, p).start < |s|
  {}

  lemma {:induction false} SameLine(s: string, p: nat, u: string, q: nat)
    requires Same(s, p, u, q)
    ensures Alike(s, u, ParseLine(s, p), ParseLine(u, q))
    decreases |s| - p, 4
  {
    hide Lex, ParsePipe, ParseLineTail, WordsOk, TreeOf;
    SamePipe(s, p, u, q);
    var (a, b) := (ParsePipe(s, p), ParsePipe(u, q));
    if a.Ok? { SameTail(s, a.pos, u, b.pos, a.val, b.val); }
  }

  lemma {:induction false} SameTail(s: string, p: nat, u: string, q: nat, c: Cmd, d: Cmd)
    requires Same(s, p, u, q) && WordsOk(s, c) && WordsOk(u, d) && TreeOf(s, c) == TreeOf(u, d)
    ensures Alike(s, u, ParseLineTail(s, p, c), ParseLineTail(u, q, d))
    decreases |s| - p, 0
  {
    hide Lex, GetToken, Peek, Skip, ParseLine, WordsOk, TreeOf;
    SamePeek(s, p, u, q, "&");
    SamePeek(s, p, u, q, ";");
    SameSkip(s, p, u, q);
    TokenAfterSkip(s, p);
    TokenAfterSkip(u, q);
    SameStep(s, p, u, q);
    PeekIs(s, p, "&");
    PeekIs(s, p, ";");
    var (a, b) := (GetToken(s, p), GetToken(u, q));
    if Peek(s, p, "&") {
      SameBack(s, u, c, d);
      SameTail(s, a.pos, u, b.pos, Back(c), Back(d));
    } else if Peek(s, p, ";") {
      SameLine(s, a.pos, u, b.pos);
      if ParseLine(s, a.pos).Ok? { SameList(s, u, c, d, ParseLine(s, a.pos).val, ParseLine(u, b.pos).val); }
    }
  }

  lemma SameBack(s: string, u: string, c: Cmd, d: Cmd)
    requires WordsOk(s, c) && WordsOk(u, d) && TreeOf(s, c) == TreeOf(u, d)
    ensures WordsOk(s, Back(c)) && WordsOk(u, Back(d)) && TreeOf(s, Back(c)) == TreeOf(u, Back(d))
  {}

  lemma SameList(s: string, u: string, c: Cmd, d: Cmd, x: Cmd, y: Cmd)
    requires TreeOf(s, c) == TreeOf(u, d) && TreeOf(s, x) == TreeOf(u, y)
    ensures TreeOf(s, List(c, x)) == TreeOf(u, List(d, y))
  {}

  lemma {:induction false} SamePipe(s: string, p: nat, u: string, q: nat)
    requires Same(s, p, u, q)
    ensures Alike(s, u, ParsePipe(s, p), ParsePipe(u, q))
    decreases |s| - p, 3
  {
    hide Lex, GetToken, Peek, Skip, ParseExec, WordsOk;
    SameExec(s, p, u, q);
    var (x, y) := (ParseExec(s, p), ParseExec(u, q));
    if x.Ok? {
      SamePeek(s, x.pos, u, y.pos, "|");
      SameSkip(s, x.pos, u, y.pos);
      TokenAfterSkip(s, x.pos);
      TokenAfterSkip(u, y.pos);
      SameStep(s, x.pos, u, y.pos);
      PeekIs(s, x.pos, "|");
      if Peek(s, x.pos, "|") { SamePipe(s, GetToken(s, x.pos).pos, u, GetToken(u, y.pos).pos); }
    }
  }

  lemma {:induction false} SameBlock(s: string, p: nat, u: string, q: nat)
    requires Same(s, p, u, q)
    ensures Alike(s, u, ParseBlock(s, p), ParseBlock(u, q))
    decreases |s| - p, 1
  {
    hide Lex, GetToken, Peek, Skip, ParseLine, ParseRedirs, WordsOk, Wrap, RedirsOk;
    SamePeek(s, p, u, q, "(");
    TokenAfterSkip(s, p);
    TokenAfterSkip(u, q);
    SameStep(s, p, u, q);
    PeekIs(s, p, "(");
    if Peek(s, p, "(") {
      var (a, b) := (GetToken(s, p), GetToken(u, q));
      SameLine(s, a.pos, u, b.pos);
      var (x, y) := (ParseLine(s, a.pos), ParseLine(u, b.pos));
      if x.Ok? {
        SamePeek(s, x.pos, u, y.pos, ")");
        TokenAfterSkip(s, x.pos);
        TokenAfterSkip(u, y.pos);
        SameStep(s, x.pos, u, y.pos);
        var (e, f) := (GetToken(s, x.pos), GetToken(u, y.pos));
        SameRedirs(s, e.pos, u, f.pos);
        if ParseRedirs(s, e.pos).Ok? {
          SameWrap(s, u, x.val, y.val, ParseRedirs(s, e.pos).val, ParseRedirs(u, f.pos).val);
        }
      }
    }
  }

  lemma {:induction false} SameExec(s: string, p: nat, u: string, q: nat)
    requires Same(s, p, u, q)
    ensures Alike(s, u, ParseExec(s, p), ParseExec(u, q))
    decreases |s| - p, 2
  {
    hide Lex, GetToken, Peek, Skip, ParseRedirs, ParseArgs, ParseBlock, WordsOk, RedirsOk;
    SamePeek(s, p, u, q, "(");
    if Peek(s, p, "(") {
      SameBlock(s, p, u, q);
    } else {
      SameSkip(s, p, u, q);
      SameRedirs(s, Skip(s, p), u, Skip(u, q));
      var (x, y) := (ParseRedirs(s, Skip(s, p)), ParseRedirs(u, Skip(u, q)));
      if x.Ok? {
        assert Texts(s, []) == Texts(u, []);
        SameArgs(s, x.pos, u, y.pos, [], [], x.val, y.val);
      }
    }
  }

  lemma SameExecNode(s: string, u: string, argv: seq<Word>, brgv: seq<Word>)
    requires Texts(s, argv) == Texts(u, brgv)
    ensures TreeOf(s, Exec(argv)) == TreeOf(u, Exec(brgv)) && |argv| == |brgv|
  {
    assert |argv| == |Texts(s, argv)| == |Texts(u, brgv)| == |brgv|;
  }

  lemma TextsMore(s: string, u: string, argv: seq<Word>, brgv: seq<Word>, w: Word, v: Word)
    requires Texts(s, argv) == Texts(u, brgv) && Text(s, w) == Text(u, v)
    ensures Texts(s, argv + [w]) == Texts(u, brgv + [v])
  {
    assert |argv| == |Texts(s, argv)| == |Texts(u, brgv)| == |brgv|;
    assert Texts(s, argv + [w]) == Texts(s, argv) + [Text(s, w)];
    assert Texts(u, brgv + [v]) == Texts(u, brgv) + [Text(u, v)];
  }

  lemma {:induction false} SameArgs(s: string, p: nat, u: string, q: nat, argv: seq<Word>, brgv: seq<Word>,
                                    rs: seq<Redirection>, qs: seq<Redirection>)
    requires Same(s, p, u, q) && Texts(s, argv) == Texts(u, brgv) && Names(s, rs) == Names(u, qs)
    requires RedirsOk(s, rs) && |argv| < MAXARGS && forall i :: 0 <= i < |argv| ==> IsWord(s, argv[i])
    requires RedirsOk(u, qs) && |brgv| < MAXARGS && forall i :: 0 <= i < |brgv| ==> IsWord(u, brgv[i])
    ensures Alike(s, u, ParseArgs(s, p, argv, rs), ParseArgs(u, q, brgv, qs))
    decreases |s| - p, 0
  {
    hide Lex, GetToken, Peek, Skip, ParseRedirs, Wrap, RedirsOk, IsWord, TreeOf, Names, Texts;
    SamePeek(s, p, u, q, "|)&;");
    SameSkip(s, p, u, q);
    TokenAfterSkip(s, p);
    TokenAfterSkip(u, q);
    SameStep(s, p, u, q);
    SameExecNode(s, u, argv, brgv);
    SameWrap(s, u, Exec(argv), Exec(brgv), rs, qs);
    var (a, b) := (GetToken(s, p), GetToken(u, q));
    if !Peek(s, p, "|)&;") && a.tok == 'a' && |argv| + 1 < MAXARGS {
      WordBegins(s, p);
      SameRedirs(s, a.pos, u, b.pos);
      var (x, y) := (ParseRedirs(s, a.pos), ParseRedirs(u, b.pos));
      if x.Ok? {
        TextsMore(s, u, argv, brgv, Word(a.start, a.end), Word(b.start, b.end));
        NamesMore(s, u, rs, qs, x.val, y.val);
        RedirsJoined(s, rs, x.val);
        RedirsJoined(u, qs, y.val);
        SameArgs(s, x.pos, u, y.pos, argv + [Word(a.start, a.end)], brgv + [Word(b.start, b.end)], rs + x.val, qs + y.val);
      }
    }
  }

  lemma RedirsJoined(s: string, a: seq<Redirection>, b: seq<Redirection>)
    requires RedirsOk(s, a) && RedirsOk(s, b)
    ensures RedirsOk(s, a + b)
  {}

  /** Two lines of the same tokens are accepted alike, and mean the same. */
  lemma TokensDecide(s: string, u: string)
    requires Lex(s, 0) == Lex(u, 0)
    ensures ParseCmd(s).Ok? <==> ParseCmd(u).Ok?
    ensures ParseCmd(s).Ok? ==> TreeOf(s, ParseCmd(s).val) == TreeOf(u, ParseCmd(u).val)
  {
    hide Lex, ParseLine, TreeOf, WordsOk, GetToken, Skip;
    SameLine(s, 0, u, 0);
    var (a, b) := (ParseLine(s, 0), ParseLine(u, 0));
    if a.Ok? {
      SameStep(s, a.pos, u, b.pos);
      TokenStart(s, a.pos);
      TokenStart(u, b.pos);
    }
  }

  lemma TokenStart(s: string, p: nat)
    requires p <= |s|
    ensures GetToken(s, p).start == Skip(s, p)
  {}

  // ----- white space between the tokens

  /** From p and q on, u is s with each blank stretched to a run of white space, and perhaps
      such a run at the end. */
  predicate SpreadAt(s: string, p: nat, u: string, q: nat)
    requires p <= |s| && q <= |u|
    decreases |s| - p
  {
    if p == |s| then AllWhite(u[q..])
    else if s[p] == ' ' then exists k :: q < k <= |u| && AllWhite(u[q..k]) && SpreadAt(s, p + 1, u, k)
    else q < |u| && u[q] == s[p] && SpreadAt(s, p + 1, u, q + 1)
  }

  predicate Spread(s: string, u: string) { SpreadAt(s, 0, u, 0) }

  lemma {:induction false} SkipWhite(u: string, q: nat, k: nat)
    requires q <= k <= |u| && AllWhite(u[q..k])
    ensures Skip(u, q) == Skip(u, k)
    decreases k - q
  {
    if q < k {
      assert u[q] == u[q..k][0];
      assert u[q + 1..k] == u[q..k][1..];
      SkipWhite(u, q + 1, k);
    }
  }

  /** Behind the white space both lines are at the same character, or both at their end. */
  lemma {:induction false} SpreadSkip(s: string, p: nat, u: string, q: nat)
    requires p <= |s| && q <= |u| && SpreadAt(s, p, u, q)
    ensures var (a, b) := (Skip(s, p), Skip(u, q));
            SpreadAt(s, a, u, b) && (a == |s| <==> b == |u|) && (a < |s| ==> s[a] == u[b])
    decreases |s| - p
  {
    if p == |s| {
      assert u[q..] == u[q..|u|];
      SkipWhite(u, q, |u|);
    } else if s[p] == ' ' {
      var k :| q < k <= |u| && AllWhite(u[q..k]) && SpreadAt(s, p + 1, u, k);
      SkipWhite(u, q, k);
      SpreadSkip(s, p + 1, u, k);
    } else if IsSpace(s[p]) {
      SpreadSkip(s, p + 1, u, q + 1);
    }
  }

  /** What stands at q when s has ended, or has a blank, at p. */
  lemma SpreadNext(s: string, p: nat, u: string, q: nat)
    requires p <= |s| && q <= |u| && SpreadAt(s, p, u, q)
    ensures if p < |s| && s[p] != ' ' then q < |u| && u[q] == s[p] else q == |u| || White(u[q])
  {
    if p == |s| {
      if q < |u| { assert u[q] == u[q..][0]; }
    } else if s[p] == ' ' {
      var k :| q < k <= |u| && AllWhite(u[q..k]) && SpreadAt(s, p + 1, u, k);
      assert u[q] == u[q..k][0];
    }
  }

  /** A word is the same word in both lines. */
  lemma {:induction false} SpreadWord(s: string, p: nat, u: string, q: nat)
    requires p <= |s| && q <= |u| && SpreadAt(s, p, u, q)
    ensures var (a, b) := (WordEnd(s, p), WordEnd(u, q));
            SpreadAt(s, a, u, b) && s[p..a] == u[q..b]
    decreases |s| - p
  {
    SpreadNext(s, p, u, q);
    if p < |s| && IsWordChar(s[p]) {
      SpreadWord(s, p + 1, u, q + 1);
      var (a, b) := (WordEnd(s, p), WordEnd(u, q));
      assert s[p..a] == [s[p]] + s[p + 1..a] && u[q..b] == [u[q]] + u[q + 1..b];
    }
  }

  lemma SpreadStep(s: string, p: nat, u: string, q: nat)
    requires p < |s| && q <= |u| && s[p] != ' ' && SpreadAt(s, p, u, q)
    ensures q < |u| && u[q] == s[p] && SpreadAt(s, p + 1, u, q + 1)
  {}

  /** A symbol is the same symbol, `>>` included. */
  lemma SpreadSymbol(s: string, a: nat, u: string, b: nat)
    requires a < |s| && b <= |u| && IsSymbol(s[a]) && SpreadAt(s, a, u, b)
    ensures b < |u| && s[a] == u[b]
    ensures var two := s[a] == '>' && CharAt(s, a + 1) == '>';
            var n := if two then 2 else 1;
            && (two <==> u[b] == '>' && CharAt(u, b + 1) == '>')
            && a + n <= |s| && b + n <= |u| && s[a..a + n] == u[b..b + n]
            && SpreadAt(s, Skip(s, a + n), u, Skip(u, b + n))
  {
    hide SpreadAt, Skip;
    SpreadStep(s, a, u, b);
    SpreadNext(s, a + 1, u, b + 1);
    if s[a] == '>' && CharAt(s, a + 1) == '>' {
      SpreadStep(s, a + 1, u, b + 1);
      SpreadSkip(s, a + 2, u, b + 2);
    } else {
      SpreadSkip(s, a + 1, u, b + 1);
    }
  }

  /** So is every token. */
  lemma SpreadToken(s: string, p: nat, u: string, q: nat)
    requires p <= |s| && q <= |u| && SpreadAt(s, p, u, q)
    ensures var (a, b) := (GetToken(s, p), GetToken(u, q));
            && (a.start == |s| <==> b.start == |u|)
            && (a.start < |s| ==> a.tok == b.tok && s[a.start..a.end] == u[b.start..b.end] && SpreadAt(s, a.pos, u, b.pos))
  {
    hide Skip, WordEnd, SpreadAt, IsSymbol, IsWord;
    SpreadSkip(s, p, u, q);
    var (a, b) := (Skip(s, p), Skip(u, q));
    if a < |s| {
      if IsSymbol(s[a]) {
        SpreadSymbol(s, a, u, b);
      } else {
        NoSign(s[a]);
        SpreadWord(s, a, u, b);
        SpreadSkip(s, WordEnd(s, a), u, WordEnd(u, b));
      }
    }
  }

  lemma NoSign(c: char)
    requires !IsSymbol(c)
    ensures c != '>'
  {}

  lemma {:induction false} SpreadLex(s: string, p: nat, u: string, q: nat)
    requires p <= |s| && q <= |u| && SpreadAt(s, p, u, q)
    ensures Lex(s, p) == Lex(u, q)
    decreases |s| - p
  {
    hide GetToken, SpreadAt;
    SpreadToken(s, p, u, q);
    var (a, b) := (GetToken(s, p), GetToken(u, q));
    if a.start < |s| { SpreadLex(s, a.pos, u, b.pos); }
  }

  /** A tree the shell can read, its words non-empty and plain, at most nine to a command. */
  predicate PlainTree(t: Tree) {
    match t
    case TExec(argv) => |argv| < 10 && forall i :: 0 <= i < |argv| ==> PlainText(argv[i])
    case TRedir(sub, file, _) => PlainText(file) && PlainTree(sub)
    case TPipe(l, r) => PlainTree(l) && PlainTree(r)
    case TList(l, r) => PlainTree(l) && PlainTree(r)
    case TBack(sub) => PlainTree(sub)
  }

  predicate PlainText(w: string) { w != "" && forall k :: 0 <= k < |w| ==> Plain(w[k]) && w[k] != '\0' }

  lemma {:induction false} PlainIsPrintable(t: Tree)
    requires PlainTree(t)
    ensures Printable(t)
  {
    match t
    case TExec(argv) =>
      forall i | 0 <= i < |argv| ensures GoodWord(argv[i]) { PlainIsGood(argv[i]); }
    case TRedir(sub, file, _) => PlainIsGood(file); PlainIsPrintable(sub);
    case TPipe(l, r) => PlainIsPrintable(l); PlainIsPrintable(r);
    case TList(l, r) => PlainIsPrintable(l); PlainIsPrintable(r);
    case TBack(sub) => PlainIsPrintable(sub);
  }

  lemma PlainIsGood(w: string)
    requires PlainText(w)
    ensures GoodWord(w)
  {}

  /** White space decides nothing: a line with its blanks stretched, and white space at its
      end, is accepted exactly if the line is, and means the same. */
  lemma SpacingDecidesNothing(s: string, u: string)
    requires Spread(s, u)
    ensures ParseCmd(s).Ok? <==> ParseCmd(u).Ok?
    ensures ParseCmd(s).Ok? ==> TreeOf(s, ParseCmd(s).val) == TreeOf(u, ParseCmd(u).val)
  {
    hide Lex, SpreadAt, ParseCmd, TreeOf;
    SpreadLex(s, 0, u, 0);
    TokensDecide(s, u);
  }

  /** The text of every command, with each blank replaced by any blanks, tabs, carriage
      returns, newlines and vertical tabs, and any of them at the end, parses to the command. */
  lemma SpacedTextParses(t: Tree, u: string)
    requires PlainTree(t) && Spread(Print(t), u)
    ensures ParseCmd(u).Ok? && TreeOf(u, ParseCmd(u).val) == t
  {
    hide SpreadAt, ParseCmd, TreeOf, Print, Printable;
    PlainIsPrintable(t);
    ParseUndoesPrint(t);
    SpacingDecidesNothing(Print(t), u);
  }

  /** A line as it is typed: a word and a newline. */
  lemma TypedLine(w: string)
    requires PlainText(w)
    ensures ParseCmd(w + "\n").Ok? && TreeOf(w + "\n", ParseCmd(w + "\n").val) == TExec([w])
  {
    var (s, u) := (Print(TExec([w])), w + "\n");
    var rest: seq<string> := [];
    assert [w][1..] == rest && PrintWords(rest) == "";
    assert s == PrintWords([w]) == w + " " + "" == w + " ";
    SpreadTyped(w, 0);
    SpacedTextParses(TExec([w]), u);
  }

  lemma {:induction false} SpreadTyped(w: string, p: nat)
    requires PlainText(w) && p <= |w|
    ensures SpreadAt(w + " ", p, w + "\n", p)
    decreases |w| - p
  {
    var (s, u) := (w + " ", w + "\n");
    if p == |w| {
      assert u[p..p + 1] == "\n" && AllWhite(u[p..p + 1]) && AllWhite(u[p + 1..]);
      assert SpreadAt(s, p + 1, u, p + 1);
    } else {
      SpreadTyped(w, p + 1);
    }
  }
}
