/** The grammar of the xv6 shell as its recursive-descent parser reads it.

    A line is a string without NUL; positions run up to its length, where the C
    string has its terminator.  Words are pairs of positions into the line. */
module ShellSpec {

  const NUL: char := '\0'
  const MAXARGS := 10

  datatype Word = Word(start: nat, end: nat)

  datatype Direction = In | Out

  datatype Redirection = Redirection(file: Word, dir: Direction)

  datatype Cmd =
    | Exec(argv: seq<Word>)
    | Redir(sub: Cmd, file: Word, dir: Direction)
    | Pipe(left: Cmd, right: Cmd)
    | List(left: Cmd, right: Cmd)
    | Back(sub: Cmd)

  /** A value with the cursor behind what was read, or a panic. */
  datatype Parse<T> = Ok(val: T, pos: nat) | Panic

  /** The token character, the span of its text, and the cursor behind it. */
  datatype Token = Token(tok: char, start: nat, end: nat, pos: nat)

  predicate IsSpace(c: char) { c == ' ' || c == '\t' || c == '\r' || c == '\n' || c == '\U{000B}' }

  predicate IsSymbol(c: char) { c == '<' || c == '|' || c == '>' || c == '&' || c == ';' || c == '(' || c == ')' }

  predicate IsWordChar(c: char) { !IsSpace(c) && !IsSymbol(c) }

  function CharAt(s: string, p: nat): char { if p < |s| then s[p] else NUL }

  function Skip(s: string, p: nat): (r: nat)
    requires p <= |s|
    ensures p <= r <= |s| && (r < |s| ==> !IsSpace(s[r]))
    decreases |s| - p
  {
    if p < |s| && IsSpace(s[p]) then Skip(s, p + 1) else p
  }

  function WordEnd(s: string, p: nat): (r: nat)
    requires p <= |s|
    ensures p <= r <= |s| && (forall k :: p <= k < r ==> IsWordChar(s[k])) && (r < |s| ==> !IsWordChar(s[r]))
    decreases |s| - p
  {
    if p < |s| && IsWordChar(s[p]) then WordEnd(s, p + 1) else p
  }

  /** Whether the next character behind white space is one of `toks`. */
  function Peek(s: string, p: nat, toks: string): bool
    requires p <= |s|
  {
    var q := Skip(s, p);
    q < |s| && s[q] in toks
  }

  function GetToken(s: string, p: nat): (t: Token)
    requires p <= |s|
    ensures p <= t.start <= t.end <= t.pos <= |s|
    ensures t.start < |s| ==> t.start < t.end
    ensures t.tok == 'a' ==> IsWord(s, Word(t.start, t.end))
  {
    var q := Skip(s, p);
    if q == |s| then Token(NUL, q, q, q)
    else if s[q] == '>' && CharAt(s, q + 1) == '>' then Token('+', q, q + 2, Skip(s, q + 2))
    else if IsSymbol(s[q]) then Token(s[q], q, q + 1, Skip(s, q + 1))
    else Token('a', q, WordEnd(s, q), Skip(s, WordEnd(s, q)))
  }

  /** A maximal run of word characters. */
  predicate IsWord(s: string, w: Word) {
    && w.start < w.end <= |s|
    && (forall k :: w.start <= k < w.end ==> IsWordChar(s[k]))
    && (w.end < |s| ==> !IsWordChar(s[w.end]))
  }

  /** Every word of a command is a maximal run, and no command has ten arguments. */
  predicate WordsOk(s: string, c: Cmd) {
    match c
    case Exec(argv) => |argv| < MAXARGS && forall i :: 0 <= i < |argv| ==> IsWord(s, argv[i])
    case Redir(sub, file, _) => IsWord(s, file) && WordsOk(s, sub)
    case Pipe(l, r) => WordsOk(s, l) && WordsOk(s, r)
    case List(l, r) => WordsOk(s, l) && WordsOk(s, r)
    case Back(sub) => WordsOk(s, sub)
  }

  predicate RedirsOk(s: string, rs: seq<Redirection>) {
    forall i :: 0 <= i < |rs| ==> IsWord(s, rs[i].file)
  }

  /** The command wrapped in redirections, the first one innermost. */
  function Wrap(c: Cmd, rs: seq<Redirection>): Cmd
    decreases rs
  {
    if rs == [] then c else Wrap(Redir(c, rs[0].file, rs[0].dir), rs[1..])
  }

  lemma {:induction false} WrapOk(s: string, c: Cmd, rs: seq<Redirection>)
    requires WordsOk(s, c) && RedirsOk(s, rs)
    ensures WordsOk(s, Wrap(c, rs))
    decreases rs
  {
    if rs != [] {
      WrapOk(s, Redir(c, rs[0].file, rs[0].dir), rs[1..]);
    }
  }

  lemma {:induction false} WrapTwice(c: Cmd, a: seq<Redirection>, b: seq<Redirection>)
    ensures Wrap(Wrap(c, a), b) == Wrap(c, a + b)
    decreases a
  {
    if a == [] {
      assert a + b == b;
    } else {
      assert (a + b)[1..] == a[1..] + b;
      WrapTwice(Redir(c, a[0].file, a[0].dir), a[1..], b);
    }
  }

  // ----- the parser

  function ParseRedirs(s: string, p: nat): (r: Parse<seq<Redirection>>)
    requires p <= |s|
    ensures r.Ok? ==> p <= r.pos <= |s| && RedirsOk(s, r.val)
    decreases |s| - p
  {
    var at := Skip(s, p);
    if !Peek(s, p, "<>") then Ok([], at) else
      var op := GetToken(s, at);
      var name := GetToken(s, op.pos);
      if name.tok != 'a' then Panic else
        var rest := ParseRedirs(s, name.pos);
        if rest.Panic? then Panic else
          Ok([Redirection(Word(name.start, name.end), if op.tok == '<' then In else Out)] + rest.val, rest.pos)
  }

  function ParseLine(s: string, p: nat): (r: Parse<Cmd>)
    requires p <= |s|
    ensures r.Ok? ==> p <= r.pos <= |s| && WordsOk(s, r.val)
    decreases |s| - p, 4
  {
    var first := ParsePipe(s, p);
    if first.Panic? then Panic else ParseLineTail(s, first.pos, first.val)
  }

  /** What may follow a pipeline: any number of `&`, then perhaps `;` and another line. */
  function ParseLineTail(s: string, p: nat, c: Cmd): (r: Parse<Cmd>)
    requires p <= |s| && WordsOk(s, c)
    ensures r.Ok? ==> p <= r.pos <= |s| && WordsOk(s, r.val)
    decreases |s| - p, 0
  {
    var at := Skip(s, p);
    if Peek(s, p, "&") then ParseLineTail(s, GetToken(s, at).pos, Back(c))
    else if Peek(s, p, ";") then
      var rest := ParseLine(s, GetToken(s, at).pos);
      if rest.Panic? then Panic else Ok(List(c, rest.val), rest.pos)
    else Ok(c, at)
  }

  function ParsePipe(s: string, p: nat): (r: Parse<Cmd>)
    requires p <= |s|
    ensures r.Ok? ==> p <= r.pos <= |s| && WordsOk(s, r.val)
    decreases |s| - p, 3
  {
    var first := ParseExec(s, p);
    if first.Panic? then Panic else
      var at := Skip(s, first.pos);
      if Peek(s, first.pos, "|") then
        var rest := ParsePipe(s, GetToken(s, at).pos);
        if rest.Panic? then Panic else Ok(Pipe(first.val, rest.val), rest.pos)
      else Ok(first.val, at)
  }

  function ParseBlock(s: string, p: nat): (r: Parse<Cmd>)
    requires p <= |s|
    ensures r.Ok? ==> p <= r.pos <= |s| && WordsOk(s, r.val)
    decreases |s| - p, 1
  {
    if !Peek(s, p, "(") then Panic else
      var body := ParseLine(s, GetToken(s, Skip(s, p)).pos);
      if body.Panic? || !Peek(s, body.pos, ")") then Panic else
        var rs := ParseRedirs(s, GetToken(s, Skip(s, body.pos)).pos);
        if rs.Panic? then Panic else
          WrapOk(s, body.val, rs.val);
          Ok(Wrap(body.val, rs.val), rs.pos)
  }

  function ParseExec(s: string, p: nat): (r: Parse<Cmd>)
    requires p <= |s|
    ensures r.Ok? ==> p <= r.pos <= |s| && WordsOk(s, r.val)
    decreases |s| - p, 2
  {
    if Peek(s, p, "(") then ParseBlock(s, p) else
      var rs := ParseRedirs(s, Skip(s, p));
      if rs.Panic? then Panic else ParseArgs(s, rs.pos, [], rs.val)
  }

  /** Arguments and redirections, in any order, up to a character that ends the command. */
  function ParseArgs(s: string, p: nat, argv: seq<Word>, rs: seq<Redirection>): (r: Parse<Cmd>)
    requires p <= |s| && RedirsOk(s, rs) && |argv| < MAXARGS && forall i :: 0 <= i < |argv| ==> IsWord(s, argv[i])
    ensures r.Ok? ==> p <= r.pos <= |s| && WordsOk(s, r.val)
    decreases |s| - p, 0
  {
    WrapOk(s, Exec(argv), rs);
    var at := Skip(s, p);
    if Peek(s, p, "|)&;") then Ok(Wrap(Exec(argv), rs), at) else
      var t := GetToken(s, at);
      if t.tok == NUL then Ok(Wrap(Exec(argv), rs), t.pos)
      else if t.tok != 'a' then Panic
      else if |argv| + 1 >= MAXARGS then Panic
      else
        var more := ParseRedirs(s, t.pos);
        if more.Panic? then Panic else ParseArgs(s, more.pos, argv + [Word(t.start, t.end)], rs + more.val)
  }

  /** The whole line must be consumed. */
  function ParseCmd(s: string): (r: Parse<Cmd>)
    ensures r.Ok? ==> WordsOk(s, r.val) && r.pos == |s|
  {
    var line := ParseLine(s, 0);
    if line.Panic? || Skip(s, line.pos) != |s| then Panic else Ok(line.val, |s|)
  }
}
