/** Printing a command tree fully parenthesised, and the proof that the parser
    gives the tree back. */
module ShellPrint {
  import opened ShellSpec

  /** A command with its words spelled out. */
  datatype Tree =
    | TExec(argv: seq<string>)
    | TRedir(sub: Tree, file: string, dir: Direction)
    | TPipe(left: Tree, right: Tree)
    | TList(left: Tree, right: Tree)
    | TBack(sub: Tree)

  predicate GoodWord(w: string) { w != "" && NUL !in w && forall k :: 0 <= k < |w| ==> IsWordChar(w[k]) }

  /** What the shell can represent: at most nine words to a command, each non-empty and free of symbols. */
  predicate Printable(t: Tree) {
    match t
    case TExec(argv) => |argv| < MAXARGS && forall i :: 0 <= i < |argv| ==> GoodWord(argv[i])
    case TRedir(sub, file, _) => GoodWord(file) && Printable(sub)
    case TPipe(l, r) => Printable(l) && Printable(r)
    case TList(l, r) => Printable(l) && Printable(r)
    case TBack(sub) => Printable(sub)
  }

  function PrintWords(argv: seq<string>): string {
    if argv == [] then "" else argv[0] + " " + PrintWords(argv[1..])
  }

  function Sign(dir: Direction): string { if dir == In then "<" else ">" }

  function Print(t: Tree): string {
    match t
    case TExec(argv) => PrintWords(argv)
    case TRedir(sub, file, dir) => "(" + Print(sub) + ")" + Sign(dir) + file
    case TPipe(l, r) => "(" + Print(l) + ")|(" + Print(r) + ")"
    case TList(l, r) => "(" + Print(l) + ");(" + Print(r) + ")"
    case TBack(sub) => "(" + Print(sub) + ")&"
  }

  function Text(s: string, w: Word): string { if w.start <= w.end <= |s| then s[w.start..w.end] else "" }

  /** The tree a parsed command stands for in its line. */
  function TreeOf(s: string, c: Cmd): Tree {
    match c
    case Exec(argv) => TExec(seq(|argv|, i requires 0 <= i < |argv| => Text(s, argv[i])))
    case Redir(sub, file, dir) => TRedir(TreeOf(s, sub), Text(s, file), dir)
    case Pipe(l, r) => TPipe(TreeOf(s, l), TreeOf(s, r))
    case List(l, r) => TList(TreeOf(s, l), TreeOf(s, r))
    case Back(sub) => TBack(TreeOf(s, sub))
  }

  // ----- text at a known place

  /** The text `w` stands at position p of s. */
  predicate At(s: string, p: nat, w: string) { p + |w| <= |s| && s[p..p + |w|] == w }

  lemma AtParts(s: string, p: nat, a: string, b: string)
    requires At(s, p, a + b)
    ensures At(s, p, a) && At(s, p + |a|, b)
  {
    var w := s[p..p + |a + b|];
    assert w[..|a|] == a && w[|a|..] == b;
    assert s[p..p + |a|] == w[..|a|];
    assert s[p + |a|..p + |a| + |b|] == w[|a|..];
  }

  lemma AtChar(s: string, p: nat, c: char)
    requires At(s, p, [c])
    ensures p < |s| && s[p] == c
  {
    assert s[p..p + 1][0] == c;
  }

  /** Nothing but the end of the line or a closing parenthesis follows. */
  predicate Stops(s: string, p: nat) { p == |s| || (p < |s| && s[p] == ')') }

  /** The cursor does not move over white space here. */
  predicate Solid(s: string, p: nat) { p <= |s| && (p < |s| ==> !IsSpace(s[p])) }

  lemma SkipStays(s: string, p: nat)
    requires Solid(s, p)
    ensures Skip(s, p) == p
  {}

  // ----- one rule for each way the parser proceeds

  /** A one-character symbol token. */
  lemma SymbolToken(s: string, p: nat)
    requires p < |s| && IsSymbol(s[p]) && Solid(s, p + 1) && (s[p] == '>' ==> CharAt(s, p + 1) != '>')
    ensures GetToken(s, p) == Token(s[p], p, p + 1, p + 1)
  {
    SkipStays(s, p);
    SkipStays(s, p + 1);
  }

  lemma PeekAt(s: string, p: nat, toks: string)
    requires Solid(s, p)
    ensures Peek(s, p, toks) == (p < |s| && s[p] in toks)
  {
    SkipStays(s, p);
  }

  lemma NoRedirs(s: string, p: nat)
    requires Solid(s, p) && (p < |s| ==> s[p] != '<' && s[p] != '>')
    ensures ParseRedirs(s, p) == Ok([], p)
  {
    SkipStays(s, p);
    PeekAt(s, p, "<>");
  }

  lemma PipeEnds(s: string, p: nat, c: Cmd, q: nat)
    requires p <= |s| && ParseExec(s, p) == Ok(c, q) && Solid(s, q) && (q < |s| ==> s[q] != '|')
    ensures ParsePipe(s, p) == Ok(c, q)
  {
    hide ParseExec, Peek, GetToken;
    SkipStays(s, q);
    PeekAt(s, q, "|");
  }

  lemma PipeGoesOn(s: string, p: nat, l: Cmd, m: nat, r: Cmd, q: nat)
    requires p <= |s| && ParseExec(s, p) == Ok(l, m) && m < |s| && s[m] == '|' && Solid(s, m + 1)
    requires ParsePipe(s, m + 1) == Ok(r, q)
    ensures ParsePipe(s, p) == Ok(Pipe(l, r), q)
  {
    hide ParseExec, Peek, GetToken;
    SkipStays(s, m);
    PeekAt(s, m, "|");
    SymbolToken(s, m);
  }

  lemma LineEnds(s: string, p: nat, c: Cmd, q: nat)
    requires p <= |s| && ParsePipe(s, p) == Ok(c, q) && Stops(s, q)
    ensures ParseLine(s, p) == Ok(c, q)
  {
    hide ParsePipe, Peek, GetToken;
    SkipStays(s, q);
    PeekAt(s, q, "&");
    PeekAt(s, q, ";");
  }

  lemma LineGoesBack(s: string, p: nat, c: Cmd, m: nat)
    requires p <= |s| && ParsePipe(s, p) == Ok(c, m) && m < |s| && s[m] == '&' && Stops(s, m + 1)
    ensures ParseLine(s, p) == Ok(Back(c), m + 1)
  {
    hide ParsePipe, Peek, GetToken;
    SkipStays(s, m);
    SkipStays(s, m + 1);
    PeekAt(s, m, "&");
    PeekAt(s, m + 1, "&");
    PeekAt(s, m + 1, ";");
    SymbolToken(s, m);
    assert ParseLineTail(s, m + 1, Back(c)) == Ok(Back(c), m + 1);
  }

  lemma LineGoesOn(s: string, p: nat, l: Cmd, m: nat, r: Cmd, q: nat)
    requires p <= |s| && ParsePipe(s, p) == Ok(l, m) && m < |s| && s[m] == ';' && Solid(s, m + 1)
    requires ParseLine(s, m + 1) == Ok(r, q)
    ensures ParseLine(s, p) == Ok(List(l, r), q)
  {
    hide ParsePipe, Peek, GetToken;
    SkipStays(s, m);
    PeekAt(s, m, "&");
    PeekAt(s, m, ";");
    SymbolToken(s, m);
    assert ParseLineTail(s, m, l) == Ok(List(l, r), q);
  }

  lemma BlockIs(s: string, p: nat, c: Cmd, e: nat, rs: seq<Redirection>, q: nat)
    requires p < |s| && s[p] == '(' && Solid(s, p + 1) && ParseLine(s, p + 1) == Ok(c, e)
    requires e < |s| && s[e] == ')' && Solid(s, e + 1) && ParseRedirs(s, e + 1) == Ok(rs, q)
    ensures ParseExec(s, p) == Ok(Wrap(c, rs), q)
  {
    hide ParseLine, ParseRedirs, Peek, GetToken, Wrap;
    SkipStays(s, p);
    SkipStays(s, e);
    PeekAt(s, p, "(");
    PeekAt(s, e, ")");
    SymbolToken(s, p);
    SymbolToken(s, e);
  }

  /** A redirection sign, a word, and the end of a command. */
  lemma OneRedir(s: string, m: nat, file: string, q: nat)
    requires m < |s| && (s[m] == '<' || s[m] == '>') && GoodWord(file) && At(s, m + 1, file) && q == m + 1 + |file| && Stops(s, q)
    ensures ParseRedirs(s, m) == Ok([Redirection(Word(m + 1, q), if s[m] == '<' then In else Out)], q)
    ensures Text(s, Word(m + 1, q)) == file
  {
    hide Peek, GetToken, GoodWord, At, Skip, Text, IsWord;
    WordToken(s, m + 1, file);
    SkipStays(s, m);
    SkipStays(s, m + 1);
    SkipStays(s, q);
    PeekAt(s, m, "<>");
    SymbolToken(s, m);
    NoRedirs(s, q);
    var r := Redirection(Word(m + 1, q), if s[m] == '<' then In else Out);
    assert [r] + [] == [r];
    RedirGoesOn(s, m, s[m], m + 1, q);
  }

  /** A redirection sign and a word are read as one redirection, before any others. */
  lemma RedirGoesOn(s: string, m: nat, c: char, start: nat, q: nat)
    requires m < |s| && s[m] == c && (c == '<' || c == '>') && start <= q <= |s|
    requires Skip(s, m) == m && Peek(s, m, "<>") && GetToken(s, m) == Token(c, m, m + 1, start)
    requires GetToken(s, start) == Token('a', start, q, q) && ParseRedirs(s, q) == Ok([], q)
    ensures ParseRedirs(s, m) == Ok([Redirection(Word(start, q), if c == '<' then In else Out)] + [], q)
  {
    hide Peek, GetToken, Skip, IsWord;
  }

  // ----- words

  lemma {:induction false} WordEndIs(s: string, p: nat, e: nat)
    requires p <= e <= |s| && (forall k :: p <= k < e ==> IsWordChar(s[k])) && (e < |s| ==> !IsWordChar(s[e]))
    ensures WordEnd(s, p) == e
    decreases e - p
  {
    if p < e {
      WordEndIs(s, p + 1, e);
    }
  }

  /** A word at p, followed by something else, is read as one token. */
  lemma WordToken(s: string, p: nat, w: string)
    requires GoodWord(w) && At(s, p, w) && (p + |w| < |s| ==> !IsWordChar(s[p + |w|]))
    ensures p < |s| && IsWordChar(s[p])
    ensures GetToken(s, p) == Token('a', p, p + |w|, Skip(s, p + |w|)) && Text(s, Word(p, p + |w|)) == w
    ensures IsWord(s, Word(p, p + |w|))
  {
    forall k | p <= k < p + |w| ensures IsWordChar(s[k]) {
      assert s[k] == s[p..p + |w|][k - p] == w[k - p];
    }
    WordEndIs(s, p, p + |w|);
  }

  function WordsAt(p: nat, argv: seq<string>): seq<Word>
    decreases argv
  {
    if argv == [] then [] else [Word(p, p + |argv[0]|)] + WordsAt(p + |argv[0]| + 1, argv[1..])
  }

  predicate GoodWords(argv: seq<string>) { forall i :: 0 <= i < |argv| ==> GoodWord(argv[i]) }

  lemma GoodRest(argv: seq<string>)
    requires argv != [] && GoodWords(argv)
    ensures GoodWord(argv[0]) && GoodWords(argv[1..])
  {
    forall i | 0 <= i < |argv[1..]| ensures GoodWord(argv[1..][i]) {
      assert argv[1..][i] == argv[i + 1];
    }
  }

  /** The first of several printed words, its space, and what follows. */
  lemma FirstWord(s: string, p: nat, argv: seq<string>)
    requires argv != [] && GoodWords(argv) && At(s, p, PrintWords(argv)) && Stops(s, p + |PrintWords(argv)|)
    ensures var q := p + |argv[0]|;
            && q < |s| && s[q] == ' ' && p < |s| && IsWordChar(s[p]) && IsWord(s, Word(p, q))
            && GetToken(s, p) == Token('a', p, q, Skip(s, q)) && Text(s, Word(p, q)) == argv[0]
            && At(s, q + 1, PrintWords(argv[1..])) && GoodWords(argv[1..])
            && Stops(s, q + 1 + |PrintWords(argv[1..])|) && p + |PrintWords(argv)| == q + 1 + |PrintWords(argv[1..])|
  {
    hide At, GoodWord, GoodWords, Text, GetToken, IsWord, Skip, Stops;
    GoodRest(argv);
    var q := p + |argv[0]|;
    AtParts(s, p, argv[0] + " ", PrintWords(argv[1..]));
    AtParts(s, p, argv[0], " ");
    AtChar(s, q, ' ');
    WordToken(s, p, argv[0]);
  }

  /** Where printed words start there is a word or the end. */
  lemma WordsStart(s: string, p: nat, argv: seq<string>)
    requires GoodWords(argv) && At(s, p, PrintWords(argv)) && Stops(s, p + |PrintWords(argv)|)
    ensures Solid(s, p) && (p < |s| ==> IsWordChar(s[p]) || s[p] == ')')
  {
    if argv != [] {
      FirstWord(s, p, argv);
    }
  }

  predicate TextsAre(s: string, ws: seq<Word>, argv: seq<string>) {
    |ws| == |argv| && forall i :: 0 <= i < |argv| ==> Text(s, ws[i]) == argv[i]
  }

  lemma TextsPeel(s: string, w: Word, ws: seq<Word>, argv: seq<string>)
    requires argv != [] && Text(s, w) == argv[0] && TextsAre(s, ws, argv[1..])
    ensures TextsAre(s, [w] + ws, argv)
  {
    hide Text;
    forall i | 0 <= i < |argv| ensures Text(s, ([w] + ws)[i]) == argv[i] {
      if i > 0 {
        assert argv[i] == argv[1..][i - 1];
      }
    }
  }

  lemma {:induction false} WordsAtText(s: string, p: nat, argv: seq<string>)
    requires GoodWords(argv) && At(s, p, PrintWords(argv)) && Stops(s, p + |PrintWords(argv)|)
    ensures TextsAre(s, WordsAt(p, argv), argv)
    decreases argv
  {
    hide At, GoodWords, IsWord, Text, GetToken, PrintWords, Stops;
    if argv != [] {
      FirstWord(s, p, argv);
      WordsAtText(s, p + |argv[0]| + 1, argv[1..]);
      TextsPeel(s, Word(p, p + |argv[0]|), WordsAt(p + |argv[0]| + 1, argv[1..]), argv);
    }
  }

  predicate WordsOf(s: string, ws: seq<Word>) { |ws| < MAXARGS && forall i :: 0 <= i < |ws| ==> IsWord(s, ws[i]) }

  lemma ArgsEnd(s: string, p: nat, done: seq<Word>)
    requires WordsOf(s, done) && Stops(s, p)
    ensures ParseArgs(s, p, done, []) == Ok(Exec(done), p)
  {
    hide IsWord, GetToken, Peek, Skip;
    SkipStays(s, p);
    PeekAt(s, p, "|)&;");
    if p == |s| {
      EndToken(s);
    }
  }

  lemma EndToken(s: string)
    ensures GetToken(s, |s|) == Token(NUL, |s|, |s|, |s|)
  {}

  lemma ArgsGoOn(s: string, p: nat, done: seq<Word>, q: nat)
    requires |done| + 1 < MAXARGS && WordsOf(s, done) && p < |s| && IsWordChar(s[p])
    requires q < |s| && s[q] == ' ' && Solid(s, q + 1) && (q + 1 < |s| ==> s[q + 1] != '<' && s[q + 1] != '>')
    requires GetToken(s, p) == Token('a', p, q, Skip(s, q)) && WordsOf(s, done + [Word(p, q)])
    ensures ParseArgs(s, p, done, []) == ParseArgs(s, q + 1, done + [Word(p, q)], [])
  {
    hide IsWord, GetToken, Peek, Wrap, ParseRedirs;
    SkipStays(s, p);
    SkipStays(s, q + 1);
    assert Skip(s, q) == q + 1;
    PeekAt(s, p, "|)&;");
    NoRedirs(s, q + 1);
    var none: seq<Redirection> := [];
    assert none + none == none;
  }

  lemma WordsAtPeel(p: nat, argv: seq<string>, done: seq<Word>)
    requires argv != []
    ensures var q := p + |argv[0]|; done + [Word(p, q)] + WordsAt(q + 1, argv[1..]) == done + WordsAt(p, argv)
  {}

  lemma OneMore(s: string, done: seq<Word>, w: Word)
    requires WordsOf(s, done) && IsWord(s, w) && |done| + 1 < MAXARGS
    ensures WordsOf(s, done + [w])
  {
    hide IsWord;
  }

  lemma {:induction false} ArgsRead(s: string, p: nat, done: seq<Word>, argv: seq<string>)
    requires |done| + |argv| < MAXARGS && WordsOf(s, done)
    requires GoodWords(argv) && At(s, p, PrintWords(argv)) && Stops(s, p + |PrintWords(argv)|)
    ensures ParseArgs(s, p, done, []) == Ok(Exec(done + WordsAt(p, argv)), p + |PrintWords(argv)|)
    decreases argv
  {
    hide At, GoodWords, IsWord, Text, GetToken, ParseArgs, WordsOf;
    if argv == [] {
      ArgsEnd(s, p, done);
      assert done + [] == done;
    } else {
      hide PrintWords, WordsAt, Stops, Solid;
      FirstWord(s, p, argv);
      var q := p + |argv[0]|;
      WordsStart(s, q + 1, argv[1..]);
      OneMore(s, done, Word(p, q));
      ArgsRead(s, q + 1, done + [Word(p, q)], argv[1..]);
      ArgsGoOn(s, p, done, q);
      WordsAtPeel(p, argv, done);
    }
  }

  lemma ExecIs(s: string, p: nat)
    requires Solid(s, p) && (p < |s| ==> IsWordChar(s[p]) || s[p] == ')')
    ensures ParseExec(s, p) == ParseArgs(s, p, [], [])
  {
    hide ParseArgs, Peek;
    SkipStays(s, p);
    PeekAt(s, p, "(");
    NoRedirs(s, p);
  }

  // ----- the parts of printed commands

  function Parens(t: Tree): string { "(" + Print(t) + ")" }

  lemma InParens(s: string, p: nat, t: Tree)
    requires At(s, p, Parens(t))
    ensures var e := p + 1 + |Print(t)|;
            && At(s, p + 1, Print(t)) && Stops(s, e) && e < |s| && s[e] == ')' && p < |s| && s[p] == '('
            && e + 1 == p + |Parens(t)|
  {
    AtParts(s, p, "(" + Print(t), ")");
    AtParts(s, p, "(", Print(t));
    AtChar(s, p, '(');
    AtChar(s, p + 1 + |Print(t)|, ')');
  }

  /** The parts of a text a, a character, a text b. */
  lemma PairParts(s: string, p: nat, a: string, c: char, b: string)
    requires At(s, p, a + ([c] + b))
    ensures At(s, p, a) && p + |a| < |s| && s[p + |a|] == c && At(s, p + |a| + 1, b)
  {
    AtParts(s, p, a, [c] + b);
    AtParts(s, p + |a|, [c], b);
    AtChar(s, p + |a|, c);
  }

  lemma Regroup(a: string, c: char, b: string)
    ensures "(" + a + ")" + [c] + b == "(" + a + ")" + ([c] + b)
  {}

  lemma PrintForms(l: Tree, r: Tree, file: string, dir: Direction)
    ensures Print(TPipe(l, r)) == Parens(l) + (['|'] + Parens(r))
    ensures Print(TList(l, r)) == Parens(l) + ([';'] + Parens(r))
    ensures Print(TBack(l)) == Parens(l) + (['&'] + "")
    ensures Print(TRedir(l, file, dir)) == Parens(l) + ([Sign(dir)[0]] + file)
  {
    var (a, b) := (Print(l), Print(r));
    PipeForm(a, b);
    ListForm(a, b);
    BackForm(a);
    Regroup(a, Sign(dir)[0], file);
  }

  lemma PipeForm(a: string, b: string)
    ensures "(" + a + ")|(" + b + ")" == "(" + a + ")" + (['|'] + ("(" + b + ")"))
  {}

  lemma ListForm(a: string, b: string)
    ensures "(" + a + ");(" + b + ")" == "(" + a + ")" + ([';'] + ("(" + b + ")"))
  {}

  lemma BackForm(a: string)
    ensures "(" + a + ")&" == "(" + a + ")" + (['&'] + "")
  {}

  /** Printed text starts with a word character or a parenthesis, or is empty. */
  lemma PrintStart(s: string, p: nat, t: Tree)
    requires Printable(t) && At(s, p, Print(t)) && Stops(s, p + |Print(t)|)
    ensures Solid(s, p)
  {
    if t.TExec? {
      WordsStart(s, p, t.argv);
    } else {
      assert Print(t)[0] == '(';
      assert s[p] == s[p..p + |Print(t)|][0];
    }
  }

  // ----- reading printed commands

  /** A printed command at p, read as a line, gives the tree and stops where its text stops. */
  ghost predicate LineReads(s: string, p: nat, t: Tree) {
    && p + |Print(t)| <= |s|
    && var r := ParseLine(s, p);
       r.Ok? && r.pos == p + |Print(t)| && TreeOf(s, r.val) == t
  }

  /** A command in parentheses, followed by redirections, is read as one block. */
  lemma BlockReads(s: string, p: nat, t: Tree, rs: seq<Redirection>, q: nat)
    requires Printable(t) && At(s, p, Parens(t)) && LineReads(s, p + 1, t)
    requires var m := p + |Parens(t)|; Solid(s, m) && ParseRedirs(s, m) == Ok(rs, q)
    ensures ParseExec(s, p) == Ok(Wrap(ParseLine(s, p + 1).val, rs), q)
  {
    hide ParseLine, ParseExec, Print, At, ParseRedirs, Printable, Parens, Wrap, TreeOf;
    InParens(s, p, t);
    PrintStart(s, p + 1, t);
    BlockIs(s, p, ParseLine(s, p + 1).val, p + 1 + |Print(t)|, rs, q);
  }

  /** The same without redirections. */
  lemma PlainBlock(s: string, p: nat, t: Tree)
    requires Printable(t) && At(s, p, Parens(t)) && LineReads(s, p + 1, t)
    requires var m := p + |Parens(t)|; Solid(s, m) && (m < |s| ==> s[m] != '<' && s[m] != '>')
    ensures var c := ParseLine(s, p + 1).val; ParseExec(s, p) == Ok(c, p + |Parens(t)|) && TreeOf(s, c) == t
  {
    hide ParseExec, Parens;
    NoRedirs(s, p + |Parens(t)|);
    BlockReads(s, p, t, [], p + |Parens(t)|);
  }

  lemma ExecTree(s: string, ws: seq<Word>, argv: seq<string>)
    requires TextsAre(s, ws, argv)
    ensures TreeOf(s, Exec(ws)) == TExec(argv)
  {
    hide Text;
    assert TreeOf(s, Exec(ws)).argv == argv;
  }

  lemma ExecReads(s: string, p: nat, argv: seq<string>)
    requires |argv| < MAXARGS && GoodWords(argv) && At(s, p, PrintWords(argv)) && Stops(s, p + |PrintWords(argv)|)
    ensures LineReads(s, p, TExec(argv))
  {
    hide At, PrintWords, ParseArgs, ParseExec, ParsePipe, ParseLine, WordsAt, Text, GoodWords, TreeOf, TextsAre;
    var q, c := p + |PrintWords(argv)|, Exec(WordsAt(p, argv));
    WordsStart(s, p, argv);
    ArgsRead(s, p, [], argv);
    WordsAtText(s, p, argv);
    assert [] + WordsAt(p, argv) == WordsAt(p, argv);
    ExecIs(s, p);
    PipeEnds(s, p, c, q);
    LineEnds(s, p, c, q);
    ExecTree(s, WordsAt(p, argv), argv);
    assert Print(TExec(argv)) == PrintWords(argv);
  }

  /** A command in parentheses at the end of a line is a pipeline and a line of its own. */
  lemma LastBlock(s: string, p: nat, t: Tree, q: nat)
    requires Printable(t) && At(s, p, Parens(t)) && LineReads(s, p + 1, t) && q == p + |Parens(t)| && Stops(s, q)
    ensures p < |s| && s[p] == '('
    ensures var c := ParseLine(s, p + 1).val;
            ParsePipe(s, p) == Ok(c, q) && ParseLine(s, p) == Ok(c, q) && TreeOf(s, c) == t
  {
    hide At, Parens, ParsePipe, ParseExec, ParseRedirs, ParseLine, Printable, Print, TreeOf;
    PlainBlock(s, p, t);
    InParens(s, p, t);
    PipeEnds(s, p, ParseLine(s, p + 1).val, q);
    LineEnds(s, p, ParseLine(s, p + 1).val, q);
  }

  lemma TreeOfPair(s: string, c: Cmd, d: Cmd)
    ensures TreeOf(s, Pipe(c, d)) == TPipe(TreeOf(s, c), TreeOf(s, d))
    ensures TreeOf(s, List(c, d)) == TList(TreeOf(s, c), TreeOf(s, d))
  {}

  lemma PipeReads(s: string, p: nat, l: Tree, r: Tree)
    requires Printable(l) && Printable(r) && At(s, p, Parens(l)) && At(s, p + |Parens(l)| + 1, Parens(r))
    requires var m := p + |Parens(l)|; m < |s| && s[m] == '|' && Stops(s, m + 1 + |Parens(r)|)
    requires LineReads(s, p + 1, l) && LineReads(s, p + |Parens(l)| + 2, r)
    ensures LineReads(s, p, TPipe(l, r))
  {
    hide At, Parens, ParsePipe, ParseExec, ParseRedirs, ParseLine, Printable, Print, TreeOf;
    var m, q := p + |Parens(l)|, p + |Parens(l)| + 1 + |Parens(r)|;
    var (c, d) := (ParseLine(s, p + 1).val, ParseLine(s, m + 2).val);
    LastBlock(s, m + 1, r, q);
    PlainBlock(s, p, l);
    PipeGoesOn(s, p, c, m, d, q);
    LineEnds(s, p, Pipe(c, d), q);
    TreeOfPair(s, c, d);
    PrintForms(l, r, "", In);
  }

  lemma ListReads(s: string, p: nat, l: Tree, r: Tree)
    requires Printable(l) && Printable(r) && At(s, p, Parens(l)) && At(s, p + |Parens(l)| + 1, Parens(r))
    requires var m := p + |Parens(l)|; m < |s| && s[m] == ';' && Stops(s, m + 1 + |Parens(r)|)
    requires LineReads(s, p + 1, l) && LineReads(s, p + |Parens(l)| + 2, r)
    ensures LineReads(s, p, TList(l, r))
  {
    hide At, Parens, ParsePipe, ParseExec, ParseRedirs, ParseLine, Printable, Print, TreeOf;
    var m, q := p + |Parens(l)|, p + |Parens(l)| + 1 + |Parens(r)|;
    var (c, d) := (ParseLine(s, p + 1).val, ParseLine(s, m + 2).val);
    LastBlock(s, m + 1, r, q);
    PlainBlock(s, p, l);
    PipeEnds(s, p, c, m);
    LineGoesOn(s, p, c, m, d, q);
    TreeOfPair(s, c, d);
    PrintForms(l, r, "", In);
  }

  lemma BackReads(s: string, p: nat, t: Tree)
    requires Printable(t) && At(s, p, Parens(t)) && LineReads(s, p + 1, t)
    requires var m := p + |Parens(t)|; m < |s| && s[m] == '&' && Stops(s, m + 1)
    ensures LineReads(s, p, TBack(t))
  {
    hide At, Parens, ParsePipe, ParseExec, ParseRedirs, ParseLine, Printable, Print;
    var m, c := p + |Parens(t)|, ParseLine(s, p + 1).val;
    PlainBlock(s, p, t);
    PipeEnds(s, p, c, m);
    LineGoesBack(s, p, c, m);
    PrintForms(t, t, "", In);
  }

  lemma RedirReads(s: string, p: nat, t: Tree, file: string, dir: Direction)
    requires Printable(t) && GoodWord(file) && At(s, p, Parens(t)) && LineReads(s, p + 1, t)
    requires var m := p + |Parens(t)|;
             m < |s| && s[m] == Sign(dir)[0] && At(s, m + 1, file) && Stops(s, m + 1 + |file|)
    ensures LineReads(s, p, TRedir(t, file, dir))
  {
    hide At, Parens, ParsePipe, ParseExec, ParseRedirs, ParseLine, Printable, Print, GoodWord;
    var m, q, c := p + |Parens(t)|, p + |Parens(t)| + 1 + |file|, ParseLine(s, p + 1).val;
    var rs := [Redirection(Word(m + 1, q), dir)];
    OneRedir(s, m, file, q);
    BlockReads(s, p, t, rs, q);
    assert Wrap(c, rs) == Redir(c, Word(m + 1, q), dir) by { assert rs[1..] == []; }
    PipeEnds(s, p, Wrap(c, rs), q);
    LineEnds(s, p, Wrap(c, rs), q);
    PrintForms(t, t, file, dir);
  }

  lemma ExecForm(argv: seq<string>)
    requires Printable(TExec(argv))
    ensures GoodWords(argv) && |argv| < MAXARGS && Print(TExec(argv)) == PrintWords(argv)
  {}

  /** The two parts of a printed pipeline or list. */
  lemma PairAt(s: string, p: nat, l: Tree, c: char, r: Tree)
    requires At(s, p, Parens(l) + ([c] + Parens(r)))
    ensures var m := p + |Parens(l)|;
            && At(s, p, Parens(l)) && m < |s| && s[m] == c && At(s, m + 1, Parens(r))
            && At(s, p + 1, Print(l)) && Stops(s, p + 1 + |Print(l)|)
            && At(s, m + 2, Print(r)) && Stops(s, m + 2 + |Print(r)|)
  {
    hide At, Print, Stops, Parens;
    PairParts(s, p, Parens(l), c, Parens(r));
    InParens(s, p, l);
    InParens(s, p + |Parens(l)| + 1, r);
  }

  /** The part in parentheses of a printed redirection or background command. */
  lemma OneAt(s: string, p: nat, t: Tree, c: char, rest: string)
    requires At(s, p, Parens(t) + ([c] + rest))
    ensures var m := p + |Parens(t)|;
            && At(s, p, Parens(t)) && m < |s| && s[m] == c && At(s, m + 1, rest)
            && At(s, p + 1, Print(t)) && Stops(s, p + 1 + |Print(t)|)
  {
    hide At, Print, Stops, Parens;
    PairParts(s, p, Parens(t), c, rest);
    InParens(s, p, t);
  }

  /** The text of a printed command, wherever it stands in front of the end or a
      closing parenthesis, is read back as that command. */
  lemma {:induction false} PrintedReads(s: string, p: nat, t: Tree)
    requires Printable(t) && At(s, p, Print(t)) && Stops(s, p + |Print(t)|)
    ensures LineReads(s, p, t)
    decreases t
  {
    hide At, Print, LineReads, Stops, GoodWord, Parens, ParseLine;
    match t
    case TExec(argv) =>
      ExecForm(argv);
      ExecReads(s, p, argv);
    case TRedir(sub, file, dir) =>
      PrintForms(sub, sub, file, dir);
      OneAt(s, p, sub, Sign(dir)[0], file);
      PrintedReads(s, p + 1, sub);
      RedirReads(s, p, sub, file, dir);
    case TPipe(l, r) =>
      PrintForms(l, r, "", In);
      PairAt(s, p, l, '|', r);
      PrintedReads(s, p + 1, l);
      PrintedReads(s, p + |Parens(l)| + 2, r);
      PipeReads(s, p, l, r);
    case TList(l, r) =>
      PrintForms(l, r, "", In);
      PairAt(s, p, l, ';', r);
      PrintedReads(s, p + 1, l);
      PrintedReads(s, p + |Parens(l)| + 2, r);
      ListReads(s, p, l, r);
    case TBack(sub) =>
      PrintForms(sub, sub, "", In);
      OneAt(s, p, sub, '&', "");
      PrintedReads(s, p + 1, sub);
      BackReads(s, p, sub);
  }

  /** Parsing the printed text of a command consumes all of it and gives the command. */
  lemma ParseUndoesPrint(t: Tree)
    requires Printable(t)
    ensures var s := Print(t);
            var r := ParseCmd(s);
            r.Ok? && r.pos == |s| && TreeOf(s, r.val) == t
  {
    hide Print, ParseLine;
    var s := Print(t);
    assert s[0..0 + |s|] == s;
    PrintedReads(s, 0, t);
    SkipStays(s, |s|);
  }

  // ----- every line the parser accepts

  lemma WordIsGood(s: string, w: Word)
    requires IsWord(s, w) && NUL !in s
    ensures GoodWord(Text(s, w))
  {
    var x := Text(s, w);
    forall k | 0 <= k < |x| ensures IsWordChar(x[k]) && x[k] != NUL {
      assert x[k] == s[w.start + k] && s[w.start + k] in s;
    }
  }

  lemma {:induction false} ParsedIsPrintable(s: string, c: Cmd)
    requires WordsOk(s, c) && NUL !in s
    ensures Printable(TreeOf(s, c))
    decreases c
  {
    hide IsWord, GoodWord, Text;
    match c
    case Exec(argv) =>
      forall i | 0 <= i < |argv| ensures GoodWord(TreeOf(s, c).argv[i]) {
        WordIsGood(s, argv[i]);
      }
    case Redir(sub, file, _) => WordIsGood(s, file); ParsedIsPrintable(s, sub);
    case Pipe(l, r) => ParsedIsPrintable(s, l); ParsedIsPrintable(s, r);
    case List(l, r) => ParsedIsPrintable(s, l); ParsedIsPrintable(s, r);
    case Back(sub) => ParsedIsPrintable(s, sub);
  }

  /** Whatever line the parser accepts, the fully parenthesised text of its command is
      accepted too and means the same command. */
  lemma ReprintMeansTheSame(s: string)
    requires ParseCmd(s).Ok? && NUL !in s
    ensures var t := TreeOf(s, ParseCmd(s).val);
            var r := ParseCmd(Print(t));
            r.Ok? && TreeOf(Print(t), r.val) == t
  {
    hide Print, ParseLine, Printable;
    ParsedIsPrintable(s, ParseCmd(s).val);
    ParseUndoesPrint(TreeOf(s, ParseCmd(s).val));
  }
}
