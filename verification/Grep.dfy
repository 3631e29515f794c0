/** The regular expression matcher of grep, against what patterns mean.

    Patterns and texts are C strings without their NUL; a pointer into one is the
    suffix that starts there. */
module Grep {

  datatype Item = One(c: char) | Star(c: char)

  /** A pattern behind an optional `^`: its items, and whether it ends in an anchoring `$`. */
  datatype Pattern = Pattern(items: seq<Item>, atEnd: bool)

  predicate Accepts(c: char, x: char) { c == '.' || c == x }

  /** What text an item may stand for. */
  predicate Fits(item: Item, piece: string) {
    match item
    case One(c) => |piece| == 1 && Accepts(c, piece[0])
    case Star(c) => forall k :: 0 <= k < |piece| ==> Accepts(c, piece[k])
  }

  function Concat(pieces: seq<string>): string {
    if pieces == [] then "" else pieces[0] + Concat(pieces[1..])
  }

  /** The pieces, one for each item, spell a prefix of the text, or all of it. */
  predicate Spells(p: Pattern, pieces: seq<string>, text: string) {
    && |pieces| == |p.items|
    && (forall i :: 0 <= i < |pieces| ==> Fits(p.items[i], pieces[i]))
    && Concat(pieces) <= text
    && (p.atEnd ==> Concat(pieces) == text)
  }

  /** The pattern holds of the text, beginning at its first character. */
  ghost predicate Holds(p: Pattern, text: string) { exists pieces :: Spells(p, pieces, text) }

  /** How the characters of a pattern are read: a `*` belongs to the character in front of it,
      and `$` is an anchor only as the last character. */
  function Compile(re: string): Pattern {
    if re == "" then Pattern([], false)
    else if |re| > 1 && re[1] == '*' then
      var rest := Compile(re[2..]);
      Pattern([Star(re[0])] + rest.items, rest.atEnd)
    else if re == "$" then Pattern([], true)
    else
      var rest := Compile(re[1..]);
      Pattern([One(re[0])] + rest.items, rest.atEnd)
  }

  /** The meaning of a whole pattern: anchored at the start behind `^`, anywhere otherwise. */
  ghost predicate Means(re: string, text: string) {
    if re != "" && re[0] == '^' then Holds(Compile(re[1..]), text)
    else exists k :: 0 <= k <= |text| && Holds(Compile(re), text[k..])
  }

  lemma NoItems(atEnd: bool, text: string)
    ensures Holds(Pattern([], atEnd), text) <==> (atEnd ==> text == "")
  {
    if atEnd ==> text == "" {
      assert Spells(Pattern([], atEnd), [], text);
    }
  }

  /** A text matches when its first piece fits the first item and what is behind it
      matches the others. */
  lemma FirstPiece(item: Item, p: Pattern, text: string, k: nat)
    requires k <= |text| && Fits(item, text[..k]) && Holds(p, text[k..])
    ensures Holds(Pattern([item] + p.items, p.atEnd), text)
  {
    var rest :| Spells(p, rest, text[k..]);
    var pieces := [text[..k]] + rest;
    assert pieces[1..] == rest;
    assert text == text[..k] + text[k..];
    assert Spells(Pattern([item] + p.items, p.atEnd), pieces, text);
  }

  lemma SplitPiece(item: Item, p: Pattern, text: string) returns (k: nat)
    requires Holds(Pattern([item] + p.items, p.atEnd), text)
    ensures k <= |text| && Fits(item, text[..k]) && Holds(p, text[k..])
  {
    var pieces :| Spells(Pattern([item] + p.items, p.atEnd), pieces, text);
    k := |pieces[0]|;
    var rest := Concat(pieces[1..]);
    assert pieces[0] + rest <= text;
    assert text[..k] == pieces[0];
    assert rest <= text[k..];
    assert p.atEnd ==> rest == text[k..];
    forall i | 0 <= i < |pieces[1..]| ensures Fits(p.items[i], pieces[1..][i]) {
      assert pieces[1..][i] == pieces[i + 1] && ([item] + p.items)[i + 1] == p.items[i];
    }
    assert Spells(p, pieces[1..], text[k..]);
  }

  /** What a literal or `.` means. */
  lemma OneMeans(c: char, p: Pattern, text: string)
    ensures Holds(Pattern([One(c)] + p.items, p.atEnd), text) <==> text != "" && (c == '.' || c == text[0]) && Holds(p, text[1..])
  {
    hide Holds;
    if Holds(Pattern([One(c)] + p.items, p.atEnd), text) {
      var k := SplitPiece(One(c), p, text);
      assert text[..k][0] == text[0];
    }
    if text != "" && Accepts(c, text[0]) && Holds(p, text[1..]) {
      FirstPiece(One(c), p, text, 1);
    }
  }

  /** A run of one more accepted character. */
  lemma StarFits(c: char, text: string, k: nat)
    requires k < |text|
    ensures Fits(Star(c), text[..k + 1]) <==> Accepts(c, text[0]) && Fits(Star(c), text[1..][..k])
    ensures text[1..][k..] == text[k + 1..]
  {
    assert text[..k + 1] == [text[0]] + text[1..][..k];
    if Fits(Star(c), text[..k + 1]) {
      assert Accepts(c, text[..k + 1][0]);
      forall j | 0 <= j < k ensures Accepts(c, text[1..][..k][j]) {
        assert text[1..][..k][j] == text[..k + 1][j + 1];
      }
    }
  }

  lemma StarSplits(c: char, p: Pattern, text: string)
    requires Holds(Pattern([Star(c)] + p.items, p.atEnd), text)
    ensures Holds(p, text) || (text != "" && Accepts(c, text[0]) && Holds(Pattern([Star(c)] + p.items, p.atEnd), text[1..]))
  {
    hide Holds, Fits;
    var k := SplitPiece(Star(c), p, text);
    if k == 0 {
      assert text[0..] == text;
    } else {
      StarFits(c, text, k - 1);
      FirstPiece(Star(c), p, text[1..], k - 1);
    }
  }

  lemma StarJoins(c: char, p: Pattern, text: string)
    requires text != "" && Accepts(c, text[0]) && Holds(Pattern([Star(c)] + p.items, p.atEnd), text[1..])
    ensures Holds(Pattern([Star(c)] + p.items, p.atEnd), text)
  {
    hide Holds, Fits;
    var k := SplitPiece(Star(c), p, text[1..]);
    StarFits(c, text, k);
    FirstPiece(Star(c), p, text, k + 1);
  }

  /** What `c*` means: no repetition and the rest, or one `c` and again. */
  lemma StarMeans(c: char, p: Pattern, text: string)
    ensures Holds(Pattern([Star(c)] + p.items, p.atEnd), text)
       <==> Holds(p, text) || (text != "" && (c == '.' || c == text[0]) && Holds(Pattern([Star(c)] + p.items, p.atEnd), text[1..]))
  {
    hide Holds;
    if Holds(Pattern([Star(c)] + p.items, p.atEnd), text) {
      StarSplits(c, p, text);
    } else if Holds(p, text) {
      assert text[0..] == text;
      FirstPiece(Star(c), p, text, 0);
    } else if text != "" && Accepts(c, text[0]) && Holds(Pattern([Star(c)] + p.items, p.atEnd), text[1..]) {
      StarJoins(c, p, text);
    }
  }

  /** The matcher's one step on a literal, with the anchor and the empty pattern. */
  lemma HereMeans(re: string, text: string)
    requires !(|re| > 1 && re[1] == '*')
    ensures Holds(Compile(re), text) <==>
              if re == "" then true else if re == "$" then text == ""
              else text != "" && Accepts(re[0], text[0]) && Holds(Compile(re[1..]), text[1..])
  {
    if re == "" || re == "$" {
      NoItems(re == "$", text);
    } else {
      OneMeans(re[0], Compile(re[1..]), text);
    }
  }

  method MatchHere(re: string, text: string) returns (yes: bool)
    ensures yes <==> Holds(Compile(re), text)
    decreases |re|, 0
  {
    if re == "" {
      HereMeans(re, text);
      return true;
    }
    if |re| > 1 && re[1] == '*' {
      yes := MatchStar(re[0], re[2..], text);
      return;
    }
    HereMeans(re, text);
    if re == "$" {
      return text == "";
    }
    if text != "" && (re[0] == '.' || re[0] == text[0]) {
      yes := MatchHere(re[1..], text[1..]);
      return;
    }
    return false;
  }

  method MatchStar(c: char, re: string, text: string) returns (yes: bool)
    ensures yes <==> Holds(Pattern([Star(c)] + Compile(re).items, Compile(re).atEnd), text)
    decreases |re|, 1
  {
    ghost var star := Pattern([Star(c)] + Compile(re).items, Compile(re).atEnd);
    var t := text;
    yes := MatchHere(re, t);
    StarMeans(c, Compile(re), t);
    while !yes && t != "" && (t[0] == c || c == '.')
      invariant yes <==> Holds(Compile(re), t)
      invariant Holds(star, text) <==> Holds(star, t)
      invariant Holds(star, t) <==> Holds(Compile(re), t) || (t != "" && Accepts(c, t[0]) && Holds(star, t[1..]))
      decreases |t|
    {
      t := t[1..];
      yes := MatchHere(re, t);
      StarMeans(c, Compile(re), t);
    }
  }

  /** match returns 1 exactly when the text contains what the pattern means. */
  method Match(re: string, text: string) returns (yes: bool)
    ensures yes <==> Means(re, text)
  {
    if re != "" && re[0] == '^' {
      yes := MatchHere(re[1..], text);
      return;
    }
    var k := 0;
    assert text[0..] == text;
    yes := MatchHere(re, text);
    while !yes && k < |text|
      invariant 0 <= k <= |text| && (yes <==> Holds(Compile(re), text[k..]))
      invariant forall j :: 0 <= j < k ==> !Holds(Compile(re), text[j..])
    {
      k := k + 1;
      yes := MatchHere(re, text[k..]);
    }
  }

  /** Items without a star need exactly one character each. */
  lemma {:induction false} LiteralMeans(re: string, text: string)
    requires forall k :: 0 <= k < |re| ==> re[k] != '*' && re[k] != '.' && re[k] != '$'
    ensures Holds(Compile(re), text) <==> re <= text
    decreases re
  {
    HereMeans(re, text);
    if re != "" && text != "" {
      LiteralMeans(re[1..], text[1..]);
      assert re <= text <==> re[0] == text[0] && re[1..] <= text[1..] by {
        if re[0] == text[0] && re[1..] <= text[1..] {
          assert re == [re[0]] + re[1..] && text == [text[0]] + text[1..];
        }
      }
    }
  }

  /** Characters that stand for themselves. */
  predicate Plain(re: string) {
    forall k :: 0 <= k < |re| ==> re[k] != '*' && re[k] != '.' && re[k] != '$' && re[k] != '^'
  }

  /** The same with a `$` behind them: the whole text. */
  lemma {:induction false} LiteralEndMeans(re: string, text: string)
    requires Plain(re)
    ensures Holds(Compile(re + "$"), text) <==> text == re
    decreases re
  {
    HereMeans(re + "$", text);
    if re != "" {
      assert (re + "$")[0] == re[0] && (re + "$")[1..] == re[1..] + "$";
      if text != "" {
        LiteralEndMeans(re[1..], text[1..]);
        assert text == [text[0]] + text[1..] && re == [re[0]] + re[1..];
      }
    }
  }

  /** What the anchors do: behind `^` the characters begin the text, before `$` they end it,
      between both they are all of it, and without either they lie anywhere in it. */
  lemma AnchorsMean(re: string, text: string)
    requires Plain(re)
    ensures Means(re, text) <==> exists k :: 0 <= k <= |text| && re <= text[k..]
    ensures Means("^" + re, text) <==> re <= text
    ensures Means(re + "$", text) <==> exists k :: 0 <= k <= |text| && text[k..] == re
    ensures Means("^" + re + "$", text) <==> text == re
  {
    hide Holds;
    assert ("^" + re)[1..] == re && ("^" + re + "$")[1..] == re + "$";
    assert (re + "$")[0] != '^' && (re != "" ==> (re + "$")[0] == re[0]);
    LiteralMeans(re, text);
    LiteralEndMeans(re, text);
    forall k | 0 <= k <= |text|
      ensures (Holds(Compile(re), text[k..]) <==> re <= text[k..]) && (Holds(Compile(re + "$"), text[k..]) <==> text[k..] == re)
    {
      LiteralMeans(re, text[k..]);
      LiteralEndMeans(re, text[k..]);
    }
  }

  /** A starred character between the anchors: any number of it, and nothing else. */
  lemma {:induction false} RunMeans(c: char, text: string)
    ensures Holds(Compile([c, '*']), text)
    ensures Holds(Compile([c, '*', '$']), text) <==> forall k :: 0 <= k < |text| ==> c == '.' || text[k] == c
    decreases text
  {
    var star := [c, '*', '$'];
    assert star[2..] == "$";
    StarMeans(c, Compile("$"), text);
    StarMeans(c, Compile(""), text);
    HereMeans("", text);
    HereMeans("$", text);
    if text != "" {
      RunMeans(c, text[1..]);
      assert forall k :: 1 <= k < |text| ==> text[k] == text[1..][k - 1];
    }
  }

  /** A pattern of characters and dots holds exactly of the texts that have, at the start, those
      characters in their places, and anything where a dot is. */
  lemma {:induction false} DotsMean(re: string, text: string)
    requires forall k :: 0 <= k < |re| ==> re[k] != '*' && re[k] != '$'
    ensures Holds(Compile(re), text) <==> |re| <= |text| && forall k :: 0 <= k < |re| ==> re[k] == '.' || re[k] == text[k]
    decreases re
  {
    HereMeans(re, text);
    if re != "" && text != "" {
      DotsMean(re[1..], text[1..]);
      assert forall k :: 1 <= k < |re| ==> re[k] == re[1..][k - 1];
      assert forall k :: 1 <= k < |text| ==> text[k] == text[1..][k - 1];
    }
  }
}
