/** The shell's parser over a character buffer: the methods move a cursor through
    the line, and the words of the finished command are then cut out in place. */
module Shell {
  import opened ShellSpec
  import opened ShellPrint

  // ----- the cursor may skip white space at any time

  lemma SkipTwice(s: string, p: nat)
    requires p <= |s|
    ensures Skip(s, Skip(s, p)) == Skip(s, p)
  {
    SkipStays(s, Skip(s, p));
  }

  lemma RedirsAfterSkip(s: string, p: nat)
    requires p <= |s|
    ensures ParseRedirs(s, Skip(s, p)) == ParseRedirs(s, p)
  {
    SkipTwice(s, p);
    hide Skip, GetToken;
  }

  lemma TailAfterSkip(s: string, p: nat, c: Cmd)
    requires p <= |s| && WordsOk(s, c)
    ensures ParseLineTail(s, Skip(s, p), c) == ParseLineTail(s, p, c)
  {
    hide Skip, GetToken, ParseLine, WordsOk;
    SkipTwice(s, p);
  }

  lemma ArgsAfterSkip(s: string, p: nat, argv: seq<Word>, rs: seq<Redirection>)
    requires p <= |s| && RedirsOk(s, rs) && WordsOf(s, argv)
    ensures ParseArgs(s, Skip(s, p), argv, rs) == ParseArgs(s, p, argv, rs)
  {
    hide Skip, GetToken, ParseRedirs, Wrap, RedirsOk, IsWord;
    SkipTwice(s, p);
  }

  // ----- the exec node under its redirections

  /** Filling in the argument array of the exec node a command's redirections lead to. */
  function SetArgs(c: Cmd, argv: seq<Word>): Cmd {
    match c
    case Exec(_) => Exec(argv)
    case Redir(sub, file, dir) => Redir(SetArgs(sub, argv), file, dir)
    case _ => c
  }

  lemma {:induction false} SetArgsIs(c: Cmd, rs: seq<Redirection>, argv: seq<Word>)
    ensures SetArgs(Wrap(c, rs), argv) == Wrap(SetArgs(c, argv), rs)
    decreases rs
  {
    if rs != [] {
      SetArgsIs(Redir(c, rs[0].file, rs[0].dir), rs[1..], argv);
    }
  }

  /** A method's outcome is what the grammar says, unless both panic. */
  predicate Agrees(r: Parse<Cmd>, ok: bool, c: Cmd, p: nat) {
    if ok then r == Ok(c, p) else r.Panic?
  }

  /** Redirections already read, then those still to come, are those there were. */
  predicate RedirsSoFar(s: string, start: nat, p: nat, done: seq<Redirection>)
    requires start <= |s| && p <= |s|
  {
    var (all, rest) := (ParseRedirs(s, start), ParseRedirs(s, p));
    if rest.Panic? then all.Panic? else all == Ok(done + rest.val, rest.pos)
  }

  lemma RedirsStart(s: string, p: nat)
    requires p <= |s|
    ensures RedirsSoFar(s, p, Skip(s, p), [])
  {
    hide ParseRedirs, Skip;
    RedirsAfterSkip(s, p);
    var r := ParseRedirs(s, p);
    assert r.Ok? ==> [] + r.val == r.val;
  }

  lemma RedirsStep(s: string, start: nat, p: nat, done: seq<Redirection>)
    requires start <= |s| && p <= |s| && RedirsSoFar(s, start, p, done) && Peek(s, p, "<>") && Skip(s, p) == p
    ensures var op := GetToken(s, p);
            var name := GetToken(s, op.pos);
            if name.tok != 'a' then ParseRedirs(s, start).Panic? else
              RedirsSoFar(s, start, Skip(s, name.pos), done + [Redirection(Word(name.start, name.end), if op.tok == '<' then In else Out)])
  {
    hide GetToken, Skip, Peek, RedirsOk, ParseRedirs;
    var op := GetToken(s, p);
    var name := GetToken(s, op.pos);
    RedirsAfterSkip(s, name.pos);
    RedirsUnfold(s, p);
    var rest := ParseRedirs(s, name.pos);
    var one := Redirection(Word(name.start, name.end), if op.tok == '<' then In else Out);
    if name.tok == 'a' && rest.Ok? {
      assert done + ([one] + rest.val) == done + [one] + rest.val;
    }
  }

  /** One redirection and those behind it. */
  lemma RedirsUnfold(s: string, p: nat)
    requires p <= |s| && Peek(s, p, "<>") && Skip(s, p) == p
    ensures var op := GetToken(s, p);
            var name := GetToken(s, op.pos);
            if name.tok != 'a' then ParseRedirs(s, p).Panic? else
              var rest := ParseRedirs(s, name.pos);
              if rest.Panic? then ParseRedirs(s, p).Panic?
              else ParseRedirs(s, p) == Ok([Redirection(Word(name.start, name.end), if op.tok == '<' then In else Out)] + rest.val, rest.pos)
  {
    hide GetToken, Skip, Peek, RedirsOk;
  }

  lemma RedirsDone(s: string, start: nat, p: nat, done: seq<Redirection>)
    requires start <= |s| && p <= |s| && RedirsSoFar(s, start, p, done) && !Peek(s, p, "<>") && Skip(s, p) == p
    ensures ParseRedirs(s, start) == Ok(done, p)
  {
    hide GetToken, Skip, Peek;
    assert done + [] == done;
  }

  lemma WrapOne(c: Cmd, done: seq<Redirection>, one: Redirection)
    ensures Wrap(c, done + [one]) == Redir(Wrap(c, done), one.file, one.dir)
  {
    WrapTwice(c, done, [one]);
    assert [one][1..] == [];
  }

  lemma WrapNone(c: Cmd)
    ensures Wrap(c, []) == c
  {}

  lemma PeekMoves(s: string, p: nat, toks: string)
    requires p <= |s| && Peek(s, p, toks)
    ensures GetToken(s, p).pos > p && p < |s|
  {}

  lemma BackOk(s: string, c: Cmd)
    requires WordsOk(s, c)
    ensures WordsOk(s, Back(c))
  {}

  lemma NoWords(s: string)
    ensures WordsOf(s, [])
  {}

  lemma BlockAfterSkip(s: string, p: nat)
    requires p <= |s| && Peek(s, p, "(")
    ensures ParseExec(s, p) == ParseBlock(s, Skip(s, p))
  {
    SkipTwice(s, p);
    hide Skip, GetToken, ParseLine, ParseRedirs;
  }

  /** What is left of an exec command once some of it has been read. */
  function ArgsFrom(s: string, p: nat, argv: seq<Word>, rs: seq<Redirection>): Parse<Cmd> {
    if p <= |s| && RedirsOk(s, rs) && WordsOf(s, argv) then ParseArgs(s, p, argv, rs) else Panic
  }

  /** One round of the argument loop. */
  lemma ArgsStep(s: string, p: nat, argv: seq<Word>, rs: seq<Redirection>)
    requires p <= |s| && RedirsOk(s, rs) && WordsOf(s, argv) && Skip(s, p) == p && !Peek(s, p, "|)&;")
    ensures var t := GetToken(s, p);
            var longer := argv + [Word(t.start, t.end)];
            if t.tok == NUL then ParseArgs(s, p, argv, rs) == Ok(Wrap(Exec(argv), rs), t.pos)
            else if t.tok != 'a' || |longer| >= MAXARGS then ParseArgs(s, p, argv, rs).Panic?
            else
              var more := ParseRedirs(s, t.pos);
              && t.pos > p && WordsOf(s, longer)
              && if more.Panic? then ParseArgs(s, p, argv, rs).Panic?
                 else RedirsOk(s, rs + more.val) && ParseArgs(s, p, argv, rs) == ParseArgs(s, more.pos, longer, rs + more.val)
  {
    hide Skip, ParseRedirs, Wrap, IsWord;
  }

  // ----- where the words of a command end

  function Ends(c: Cmd): set<nat> {
    match c
    case Exec(argv) => WordEnds(argv)
    case Redir(sub, file, _) => Ends(sub) + {file.end}
    case Pipe(l, r) => Ends(l) + Ends(r)
    case List(l, r) => Ends(l) + Ends(r)
    case Back(sub) => Ends(sub)
  }

  function WordEnds(argv: seq<Word>): set<nat> {
    if argv == [] then {} else {argv[0].end} + WordEnds(argv[1..])
  }

  lemma {:induction false} WordEndsPush(argv: seq<Word>, w: Word)
    ensures WordEnds(argv + [w]) == WordEnds(argv) + {w.end}
    decreases argv
  {
    if argv == [] {
      assert (argv + [w])[1..] == [];
    } else {
      assert (argv + [w])[1..] == argv[1..] + [w];
      WordEndsPush(argv[1..], w);
    }
  }

  /** The buffer with a NUL at every position of `ends`. */
  ghost predicate CutAt(before: seq<char>, after: seq<char>, ends: set<nat>) {
    |after| == |before| && forall i :: 0 <= i < |after| ==> after[i] == if i in ends then NUL else before[i]
  }

  /** Positions where no word of the line continues. */
  predicate Boundary(s: string, i: nat) { i <= |s| && (i < |s| ==> !IsWordChar(s[i])) }

  lemma {:induction false} WordEndsBound(s: string, argv: seq<Word>)
    requires forall i :: 0 <= i < |argv| ==> IsWord(s, argv[i])
    ensures forall e :: e in WordEnds(argv) ==> Boundary(s, e)
    decreases argv
  {
    if argv != [] {
      assert IsWord(s, argv[0]);
      assert forall i :: 0 <= i < |argv[1..]| ==> argv[1..][i] == argv[i + 1];
      WordEndsBound(s, argv[1..]);
    }
  }

  lemma {:induction false} EndsBound(s: string, c: Cmd)
    requires WordsOk(s, c)
    ensures forall e :: e in Ends(c) ==> Boundary(s, e)
    decreases c
  {
    match c
    case Exec(argv) => WordEndsBound(s, argv);
    case Redir(sub, _, _) => EndsBound(s, sub);
    case Pipe(l, r) => EndsBound(s, l); EndsBound(s, r);
    case List(l, r) => EndsBound(s, l); EndsBound(s, r);
    case Back(sub) => EndsBound(s, sub);
  }

  // ----- words as the C strings they become

  /** The C string that starts at p. */
  function CString(b: seq<char>, p: nat): string
    decreases |b| - p
  {
    if p >= |b| || b[p] == NUL then "" else [b[p]] + CString(b, p + 1)
  }

  /** The tree of a command when its words are read from their start pointers alone. */
  function CTree(b: seq<char>, c: Cmd): Tree {
    match c
    case Exec(argv) => TExec(seq(|argv|, i requires 0 <= i < |argv| => CString(b, argv[i].start)))
    case Redir(sub, file, dir) => TRedir(CTree(b, sub), CString(b, file.start), dir)
    case Pipe(l, r) => TPipe(CTree(b, l), CTree(b, r))
    case List(l, r) => TList(CTree(b, l), CTree(b, r))
    case Back(sub) => TBack(CTree(b, sub))
  }

  lemma {:induction false} CStringIs(b: seq<char>, p: nat, e: nat)
    requires p <= e < |b| && b[e] == NUL && forall k :: p <= k < e ==> b[k] != NUL
    ensures CString(b, p) == b[p..e]
    decreases e - p
  {
    if p < e {
      CStringIs(b, p + 1, e);
      assert b[p..e] == [b[p]] + b[p + 1..e];
    }
  }

  /** A buffer in which a line's words have been cut out. */
  ghost predicate Cut(s: string, b: seq<char>, ends: set<nat>) {
    |s| < |b| && b[|s|] == NUL && NUL !in s
    && (forall e :: e in ends ==> Boundary(s, e))
    && (forall i :: 0 <= i < |s| ==> b[i] == if i in ends then NUL else s[i])
  }

  lemma WordCut(s: string, b: seq<char>, ends: set<nat>, w: Word)
    requires Cut(s, b, ends) && IsWord(s, w) && w.end in ends
    ensures CString(b, w.start) == Text(s, w)
  {
    assert b[w.end] == NUL;
    forall k | w.start <= k < w.end ensures b[k] == s[k] && b[k] != NUL {
      assert !Boundary(s, k);
      assert s[k] in s;
    }
    CStringIs(b, w.start, w.end);
    assert b[w.start..w.end] == s[w.start..w.end];
  }

  lemma {:induction false} WordEndsHas(argv: seq<Word>, i: nat)
    requires i < |argv|
    ensures argv[i].end in WordEnds(argv)
    decreases i
  {
    if i > 0 {
      WordEndsHas(argv[1..], i - 1);
    }
  }

  lemma {:induction false} TreeCut(s: string, b: seq<char>, ends: set<nat>, c: Cmd)
    requires Cut(s, b, ends) && WordsOk(s, c) && Ends(c) <= ends
    ensures CTree(b, c) == TreeOf(s, c)
    decreases c
  {
    hide Cut, IsWord, CString, Text;
    match c
    case Exec(argv) =>
      forall i | 0 <= i < |argv| ensures CString(b, argv[i].start) == Text(s, argv[i]) {
        WordEndsHas(argv, i);
        WordCut(s, b, ends, argv[i]);
      }
    case Redir(sub, file, _) =>
      WordCut(s, b, ends, file);
      TreeCut(s, b, ends, sub);
    case Pipe(l, r) => TreeCut(s, b, ends, l); TreeCut(s, b, ends, r);
    case List(l, r) => TreeCut(s, b, ends, l); TreeCut(s, b, ends, r);
    case Back(sub) => TreeCut(s, b, ends, sub);
  }

  /** Once the words of a parsed command are cut out, every argument and file name read
      as a C string is the word the line had there. */
  lemma CutKeepsWords(s: string, before: seq<char>, after: seq<char>, c: Cmd)
    requires |s| < |before| && before[..|s|] == s && before[|s|] == NUL && NUL !in s
    requires WordsOk(s, c) && CutAt(before, after, Ends(c))
    ensures CTree(after, c) == TreeOf(s, c)
  {
    EndsBound(s, c);
    assert forall i :: 0 <= i < |s| ==> before[i] == before[..|s|][i];
    hide WordsOk, Ends;
    TreeCut(s, after, Ends(c), c);
  }

  lemma {:induction false} WordsNoNul(argv: seq<string>)
    requires GoodWords(argv)
    ensures NUL !in PrintWords(argv)
    decreases argv
  {
    if argv != [] {
      GoodRest(argv);
      WordsNoNul(argv[1..]);
    }
  }

  lemma {:induction false} PrintNoNul(t: Tree)
    requires Printable(t)
    ensures NUL !in Print(t)
    decreases t
  {
    match t
    case TExec(argv) => WordsNoNul(argv);
    case TRedir(sub, _, _) => PrintNoNul(sub);
    case TPipe(l, r) => PrintNoNul(l); PrintNoNul(r);
    case TList(l, r) => PrintNoNul(l); PrintNoNul(r);
    case TBack(sub) => PrintNoNul(sub);
  }

  /** From a command to its text, through the parser and the cutting, to the C strings
      in the buffer, nothing changes. */
  lemma PrintedCommandComesBack(t: Tree, before: seq<char>, after: seq<char>)
    requires Printable(t) && |Print(t)| < |before| && before[..|Print(t)|] == Print(t) && before[|Print(t)|] == NUL
    ensures var r := ShellSpec.ParseCmd(Print(t));
            r.Ok? && (CutAt(before, after, Ends(r.val)) ==> CTree(after, r.val) == t)
  {
    hide Print, ShellSpec.ParseCmd, CutAt, Ends, CTree, TreeOf, WordsOk;
    ParseUndoesPrint(t);
    PrintNoNul(t);
    var c := ShellSpec.ParseCmd(Print(t)).val;
    if CutAt(before, after, Ends(c)) {
      CutKeepsWords(Print(t), before, after, c);
    }
  }

  class Parser {
    const buf: array<char>
    const es: nat
    var ps: nat
    ghost const text: string

    ghost predicate Valid()
      reads this, buf
    {
      && es < buf.Length && buf[es] == NUL && ps <= es
      && |text| == es && buf[..es] == text && NUL !in text
    }

    /** Start at the beginning of a NUL-terminated buffer, whose length is measured. */
    constructor (line: array<char>)
      requires NUL in line[..]
      ensures Valid() && buf == line && ps == 0
    {
      var n := 0;
      assert exists k :: 0 <= k < line.Length && line[k] == NUL by {
        var k :| 0 <= k < |line[..]| && line[..][k] == NUL;
        assert line[k] == NUL;
      }
      while line[n] != NUL
        invariant n < line.Length && forall k :: 0 <= k < n ==> line[k] != NUL
        decreases line.Length - n
      {
        n := n + 1;
      }
      buf, es, ps := line, n, 0;
      text := line[..n];
    }

    method SkipSpaces()
      requires Valid()
      modifies `ps
      ensures Valid() && ps == Skip(text, old(ps))
    {
      while ps < es && IsSpace(buf[ps])
        invariant Valid() && Skip(text, ps) == Skip(text, old(ps))
        decreases es - ps
      {
        assert text[ps] == buf[ps];
        ps := ps + 1;
      }
      assert ps < es ==> text[ps] == buf[ps];
    }

    method Peek(toks: string) returns (yes: bool)
      requires Valid() && NUL !in toks
      modifies `ps
      ensures Valid() && ps == Skip(text, old(ps)) && Skip(text, ps) == ps
      ensures yes == ShellSpec.Peek(text, old(ps), toks) && yes == ShellSpec.Peek(text, ps, toks)
    {
      SkipTwice(text, ps);
      SkipSpaces();
      yes := buf[ps] != NUL && buf[ps] in toks;
      assert ps < es ==> text[ps] == buf[ps] && text[ps] in text;
    }

    method GetToken() returns (tok: char, q: nat, eq: nat)
      requires Valid()
      modifies `ps
      ensures Valid() && ShellSpec.GetToken(text, old(ps)) == Token(tok, q, eq, ps)
    {
      ghost var p := ps;
      SkipSpaces();
      q := ps;
      tok := buf[ps];
      assert ps < es ==> text[ps] == buf[ps] && text[ps] in text;
      if tok == NUL {
      } else if tok == '|' || tok == '(' || tok == ')' || tok == ';' || tok == '&' || tok == '<' {
        ps := ps + 1;
      } else if tok == '>' {
        ps := ps + 1;
        assert buf[ps] == CharAt(text, ps) by { assert ps < es ==> text[ps] == buf[ps]; }
        if buf[ps] == '>' {
          tok := '+';
          ps := ps + 1;
        }
      } else {
        tok := 'a';
        ScanWord();
      }
      eq := ps;
      SkipSpaces();
    }

    method ScanWord()
      requires Valid()
      modifies `ps
      ensures Valid() && ps == WordEnd(text, old(ps))
    {
      while ps < es && !IsSpace(buf[ps]) && !IsSymbol(buf[ps])
        invariant Valid() && WordEnd(text, ps) == WordEnd(text, old(ps))
        decreases es - ps
      {
        assert text[ps] == buf[ps];
        ps := ps + 1;
      }
      assert ps < es ==> text[ps] == buf[ps];
    }

    /** The command wrapped in the redirections that follow, or a panic. */
    method ParseRedirs(c: Cmd) returns (ok: bool, cmd: Cmd, ghost rs: seq<Redirection>)
      requires Valid()
      modifies `ps
      ensures Valid() && ps >= old(ps)
      ensures if ok then ShellSpec.ParseRedirs(text, old(ps)) == Ok(rs, ps) && cmd == Wrap(c, rs)
              else ShellSpec.ParseRedirs(text, old(ps)).Panic?
    {
      hide ShellSpec.ParseRedirs, ShellSpec.GetToken, ShellSpec.Peek, Skip, Wrap, RedirsSoFar, RedirsOk;
      ghost var start := ps;
      rs, cmd, ok := [], c, true;
      assert Wrap(c, rs) == c by { WrapNone(c); }
      RedirsStart(text, start);
      var more := Peek("<>");
      while more
        invariant Valid() && start <= ps && cmd == Wrap(c, rs) && RedirsSoFar(text, start, ps, rs)
        invariant Skip(text, ps) == ps && more == ShellSpec.Peek(text, ps, "<>")
        decreases es - ps, more
      {
        RedirsStep(text, start, ps, rs);
        PeekMoves(text, ps, "<>");
        ghost var here := ps;
        var tok, _, _ := GetToken();
        var kind, q, eq := GetToken();
        if kind != 'a' {
          ok := false;
          return;
        }
        ghost var one := Redirection(Word(q, eq), if tok == '<' then In else Out);
        WrapOne(c, rs, one);
        if tok == '<' {
          cmd := Redir(cmd, Word(q, eq), In);
        } else {
          cmd := Redir(cmd, Word(q, eq), Out);
        }
        rs := rs + [one];
        more := Peek("<>");
      }
      RedirsDone(text, start, ps, rs);
    }

    method ParseLine() returns (ok: bool, cmd: Cmd)
      requires Valid()
      modifies `ps
      ensures Valid() && ps >= old(ps) && Agrees(ShellSpec.ParseLine(text, old(ps)), ok, cmd, ps)
      decreases es - ps, 4
    {
      hide ShellSpec.ParsePipe, ShellSpec.GetToken, ShellSpec.Peek, Skip, WordsOk;
      ghost var start := ps;
      ok, cmd := ParsePipe();
      if !ok {
        return;
      }
      TailAfterSkip(text, ps, cmd);
      var more := Peek("&");
      while more
        invariant Valid() && start <= ps && WordsOk(text, cmd) && Skip(text, ps) == ps && more == ShellSpec.Peek(text, ps, "&")
        invariant ShellSpec.ParseLine(text, start) == ParseLineTail(text, ps, cmd)
        decreases es - ps, more
      {
        PeekMoves(text, ps, "&");
        BackOk(text, cmd);
        var _, _, _ := GetToken();
        cmd := Back(cmd);
        TailAfterSkip(text, ps, cmd);
        more := Peek("&");
      }
      more := Peek(";");
      if more {
        PeekMoves(text, ps, ";");
        var _, _, _ := GetToken();
        var right: Cmd;
        ok, right := ParseLine();
        cmd := List(cmd, right);
      }
    }

    method ParsePipe() returns (ok: bool, cmd: Cmd)
      requires Valid()
      modifies `ps
      ensures Valid() && ps >= old(ps) && Agrees(ShellSpec.ParsePipe(text, old(ps)), ok, cmd, ps)
      decreases es - ps, 3
    {
      hide ShellSpec.ParseExec, ShellSpec.GetToken, ShellSpec.Peek, Skip, WordsOk;
      ok, cmd := ParseExec();
      if !ok {
        return;
      }
      var more := Peek("|");
      if more {
        PeekMoves(text, ps, "|");
        var _, _, _ := GetToken();
        var right: Cmd;
        ok, right := ParsePipe();
        cmd := Pipe(cmd, right);
      }
    }

    method ParseBlock() returns (ok: bool, cmd: Cmd)
      requires Valid()
      modifies `ps
      ensures Valid() && ps >= old(ps) && Agrees(ShellSpec.ParseBlock(text, old(ps)), ok, cmd, ps)
      decreases es - ps, 1
    {
      hide ShellSpec.ParseLine, ShellSpec.ParseRedirs, ShellSpec.GetToken, ShellSpec.Peek, Skip, WordsOk, Wrap;
      cmd := Exec([]);
      var open := Peek("(");
      if !open {
        ok := false;
        return;
      }
      PeekMoves(text, ps, "(");
      var _, _, _ := GetToken();
      ok, cmd := ParseLine();
      if !ok {
        return;
      }
      var close := Peek(")");
      if !close {
        ok := false;
        return;
      }
      var _, _, _ := GetToken();
      ghost var rs: seq<Redirection>;
      ok, cmd, rs := ParseRedirs(cmd);
    }

    method ParseExec() returns (ok: bool, cmd: Cmd)
      requires Valid()
      modifies `ps
      ensures Valid() && ps >= old(ps) && Agrees(ShellSpec.ParseExec(text, old(ps)), ok, cmd, ps)
      decreases es - ps, 2
    {
      hide ShellSpec.ParseBlock, ShellSpec.ParseRedirs, ShellSpec.GetToken, ShellSpec.Peek, Skip, WordsOk, Wrap, RedirsOk, IsWord, WordsOf;
      ghost var start := ps;
      var open := Peek("(");
      if open {
        BlockAfterSkip(text, start);
        ok, cmd := ParseBlock();
        return;
      }
      var argv: seq<Word> := [];
      ghost var rs: seq<Redirection>;
      ok, cmd, rs := ParseRedirs(Exec([]));
      if !ok {
        return;
      }
      NoWords(text);
      ArgsAfterSkip(text, ps, argv, rs);
      var stop := Peek("|)&;");
      while !stop
        invariant Valid() && start <= ps && Skip(text, ps) == ps && stop == ShellSpec.Peek(text, ps, "|)&;")
        invariant WordsOf(text, argv) && RedirsOk(text, rs) && cmd == Wrap(Exec(argv), rs)
        invariant ShellSpec.ParseExec(text, start) == ArgsFrom(text, ps, argv, rs)
        decreases es - ps, !stop
      {
        ArgsStep(text, ps, argv, rs);
        var tok, q, eq := GetToken();
        if tok == NUL {
          break;
        }
        if tok != 'a' {
          ok := false;
          return;
        }
        SetArgsIs(Exec(argv), rs, argv + [Word(q, eq)]);
        argv := argv + [Word(q, eq)];
        cmd := SetArgs(cmd, argv);
        if |argv| >= MAXARGS {
          ok := false;
          return;
        }
        ghost var more: seq<Redirection>;
        ok, cmd, more := ParseRedirs(cmd);
        if !ok {
          return;
        }
        WrapTwice(Exec(argv), rs, more);
        rs := rs + more;
        ArgsAfterSkip(text, ps, argv, rs);
        stop := Peek("|)&;");
      }
    }

    /** Writes a NUL behind every word of the command. */
    method NulTerminate(c: Cmd)
      requires WordsOk(text, c) && |text| < buf.Length
      modifies buf
      ensures CutAt(old(buf[..]), buf[..], Ends(c))
      decreases c
    {
      match c
      case Exec(argv) =>
        var i := 0;
        while i < |argv|
          invariant 0 <= i <= |argv| && CutAt(old(buf[..]), buf[..], WordEnds(argv[..i]))
        {
          assert IsWord(text, argv[i]);
          buf[argv[i].end] := NUL;
          WordEndsPush(argv[..i], argv[i]);
          assert argv[..i + 1] == argv[..i] + [argv[i]];
          i := i + 1;
        }
        assert argv[..i] == argv;
      case Redir(sub, file, _) =>
        NulTerminate(sub);
        buf[file.end] := NUL;
      case Pipe(l, r) =>
        NulTerminate(l);
        NulTerminate(r);
      case List(l, r) =>
        NulTerminate(l);
        NulTerminate(r);
      case Back(sub) =>
        NulTerminate(sub);
    }

    /** Parses the whole line; on success the words, read as C strings from the buffer,
        make up the command the line spells. */
    method ParseCmd() returns (ok: bool, cmd: Cmd)
      requires Valid() && ps == 0
      modifies this, buf
      ensures Agrees(ShellSpec.ParseCmd(text), ok, cmd, es)
      ensures ok ==> CTree(buf[..], cmd) == TreeOf(text, cmd)
      ensures !ok ==> buf[..] == old(buf[..])
    {
      hide ShellSpec.ParseLine, Skip, WordsOk, TreeOf, CTree, Ends, CutAt;
      ok, cmd := ParseLine();
      if ok {
        var _ := Peek("");
        ok := ps == es;
        if ok {
          NulTerminate(cmd);
          CutKeepsWords(text, old(buf[..]), buf[..], cmd);
        }
      }
    }
  }
}
