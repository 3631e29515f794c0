/** The image the defragmenter is meant to write for given file contents, and
    the proof that the reader of DefragImage gets those contents back from it.

    Data blocks take numbers from one cursor, index blocks from a second one
    that starts at the total number of data blocks. */
module DefragBuild {
  import opened Arith
  import opened Basics
  import opened DefragImage

  /** Output so far, next data block, next index block, blocks still to place. */
  datatype Cursor = Cursor(out: Image, dp: int, ip: int, rest: seq<Block>)

  function Range(a: int, n: nat): (r: seq<int>)
    ensures |r| == n
  {
    seq(n, i => a + i)
  }

  ghost predicate AllBlocks(g: Geo, blocks: seq<Block>) {
    forall b :: b in blocks ==> |b| == g.w
  }

  /** Places as many of the remaining blocks as fit under one pointer at `level`.
      The pointer's target is `dp` at level 0 and `ip` above. */
  function BuildTree(g: Geo, level: nat, s: Cursor): Cursor
    requires s.rest != []
    decreases level, g.w + 1
  {
    if level == 0 then
      Cursor(PutBlock(g, s.out, s.dp, s.rest[0]), s.dp + 1, s.ip, s.rest[1..])
    else
      BuildKids(g, level, s.ip, 0, s.(ip := s.ip + 1))
  }

  function Target(level: nat, s: Cursor): int {
    if level == 0 then s.dp else s.ip
  }

  /** Fills the pointers i, i+1, ... of index block `root`. */
  function BuildKids(g: Geo, level: nat, root: int, i: nat, s: Cursor): Cursor
    requires level > 0 && i <= g.w
    decreases level, g.w - i
  {
    if i == g.w || s.rest == [] then s else
      var linked := s.(out := PutWord(g, s.out, root, i, Target(level - 1, s)));
      BuildKids(g, level, root, i + 1, BuildTree(g, level - 1, linked))
  }

  /** Places a file under a list of root pointers; gives the pointers used. */
  function BuildForest(g: Geo, levels: seq<nat>, s: Cursor): (r: (seq<int>, Cursor))
    ensures |r.0| <= |levels|
  {
    if levels == [] || s.rest == [] then ([], s) else
      var (ps, t) := BuildForest(g, levels[1..], BuildTree(g, levels[0], s));
      ([Target(levels[0], s)] + ps, t)
  }

  // ----- building is local: later blocks wait untouched

  lemma {:induction false} BuildTreeSplit(g: Geo, level: nat, s: Cursor, more: seq<Block>)
    requires s.rest != [] && BuildTree(g, level, s).rest == []
    requires more == [] || |s.rest| == Capacity(g, level)
    ensures BuildTree(g, level, s.(rest := s.rest + more)) == BuildTree(g, level, s).(rest := more)
    decreases level, g.w + 1
  {
    if more == [] {
      assert s.rest + more == s.rest;
    } else if level == 0 {
      assert (s.rest + more)[1..] == more;
    } else {
      BuildKidsSplit(g, level, s.ip, 0, s.(ip := s.ip + 1), more);
    }
  }

  lemma {:induction false} BuildKidsSplit(g: Geo, level: nat, root: int, i: nat, s: Cursor, more: seq<Block>)
    requires level > 0 && i <= g.w && BuildKids(g, level, root, i, s).rest == []
    requires |s.rest| == (g.w - i) * Capacity(g, level - 1)
    ensures BuildKids(g, level, root, i, s.(rest := s.rest + more)) == BuildKids(g, level, root, i, s).(rest := more)
    decreases level, g.w - i
  {
    var c := Capacity(g, level - 1);
    if i == g.w {
      assert s.rest + more == more;
    } else {
      MulPeel(g.w - i, c);
      MulMono(0, g.w - i - 1, c);
      var first, later := s.rest[..c], s.rest[c..];
      assert first + later == s.rest && first + (later + more) == s.rest + more;
      var linked := s.(out := PutWord(g, s.out, root, i, Target(level - 1, s)), rest := first);
      BuildTreeTakes(g, level - 1, linked);
      BuildTreeSplit(g, level - 1, linked, later);
      BuildTreeSplit(g, level - 1, linked, later + more);
      BuildKidsSplit(g, level, root, i + 1, BuildTree(g, level - 1, linked).(rest := later), more);
    }
  }

  /** A tree takes blocks from the front, up to its capacity, and moves the cursors past what it uses. */
  lemma {:induction false} BuildTreeTakes(g: Geo, level: nat, s: Cursor)
    requires s.rest != []
    ensures var k, t := Min(|s.rest|, Capacity(g, level)), BuildTree(g, level, s);
            t.rest == s.rest[k..] && t.dp == s.dp + k && t.ip >= s.ip + (if level == 0 then 0 else 1)
    decreases level, g.w + 1
  {
    if level > 0 {
      BuildKidsTakes(g, level, s.ip, 0, s.(ip := s.ip + 1));
    }
  }

  /** From s to t, at most m blocks are taken from the front. */
  predicate Takes(s: Cursor, t: Cursor, m: nat) {
    var k := Min(|s.rest|, m);
    t.rest == s.rest[k..] && t.dp == s.dp + k && t.ip >= s.ip
  }

  lemma TakeTwice(s: Cursor, t: Cursor, u: Cursor, c: nat, m: nat)
    requires Takes(s, t, c) && Takes(t, u, m)
    ensures Takes(s, u, c + m)
  {}

  /** What is left for index block entries i, i + 1, ... of w. */
  lemma Shares(w: nat, i: nat, c: nat)
    requires i <= w
    ensures (w - i) * c >= 0
    ensures i < w ==> (w - i - 1) * c >= 0 && (w - i) * c == c + (w - i - 1) * c
  {
    MulMono(0, w - i, c);
    if i < w {
      MulPeel(w - i, c);
      MulMono(0, w - i - 1, c);
    }
  }

  lemma {:induction false} BuildKidsTakes(g: Geo, level: nat, root: int, i: nat, s: Cursor)
    requires level > 0 && i <= g.w
    ensures (g.w - i) * Capacity(g, level - 1) >= 0
    ensures Takes(s, BuildKids(g, level, root, i, s), (g.w - i) * Capacity(g, level - 1))
    decreases level, g.w - i
  {
    hide Capacity, PutWord, BuildTree, Target, Takes;
    var c := Capacity(g, level - 1);
    Shares(g.w, i, c);
    if i == g.w || s.rest == [] {
      NoneTaken(s, (g.w - i) * c);
    } else {
      var linked := s.(out := PutWord(g, s.out, root, i, Target(level - 1, s)));
      var t := BuildTree(g, level - 1, linked);
      TreeTakes(g, level - 1, s, linked);
      BuildKidsTakes(g, level, root, i + 1, t);
      TakeTwice(s, t, BuildKids(g, level, root, i + 1, t), c, (g.w - i - 1) * c);
    }
  }

  lemma NoneTaken(s: Cursor, m: nat)
    requires m == 0 || s.rest == []
    ensures Takes(s, s, m)
  {}

  lemma TreeTakes(g: Geo, level: nat, s: Cursor, linked: Cursor)
    requires s.rest != [] && linked == s.(out := linked.out)
    ensures Takes(s, BuildTree(g, level, linked), Capacity(g, level))
    decreases level, g.w + 2
  {
    hide Capacity, BuildTree;
    BuildTreeTakes(g, level, linked);
  }

  // ----- reading back what was built

  /** `list` names blocks dp, dp+1, ... and they hold the blocks taken from the front of `s.rest`. */
  ghost predicate Placed(g: Geo, s: Cursor, t: Cursor, list: seq<int>) {
    && |list| <= |s.rest| && t.rest == s.rest[|list|..]
    && t.dp == s.dp + |list|
    && list == Range(s.dp, |list|)
    && Contents(g, t.out, list) == s.rest[..|list|]
  }

  ghost predicate Ready(g: Geo, s: Cursor) {
    0 <= s.dp && s.dp + |s.rest| <= s.ip && AllBlocks(g, s.rest)
  }

  lemma ContentsAgree(g: Geo, a: Image, b: Image, list: seq<int>)
    requires AgreeOn(g, a, b, list)
    ensures Contents(g, a, list) == Contents(g, b, list)
  {
    forall i | 0 <= i < |list| ensures Contents(g, a, list)[i] == Contents(g, b, list)[i] {
      assert list[i] in list;
    }
  }

  /** From s to t the data cursor placed `list`, the index cursor took `index`,
      and apart from those blocks and `root` nothing changed. */
  ghost predicate Built(g: Geo, s: Cursor, t: Cursor, list: seq<int>, index: seq<int>, root: int) {
    && Placed(g, s, t, list)
    && t.ip >= s.ip && index == Range(s.ip, t.ip - s.ip)
    && SameLow(g, s.out, t.out)
    && forall n :: 0 <= n && n != root && !(s.dp <= n < t.dp) && !(s.ip <= n < t.ip)
                   ==> g.BlockAt(s.out, n) == g.BlockAt(t.out, n)
  }

  /** The second stretch leaves what the first one built alone. */
  lemma BuiltApart(g: Geo, s: Cursor, t: Cursor, u: Cursor, d: seq<int>, x: seq<int>, e: seq<int>, y: seq<int>, root: int)
    requires Ready(g, s) && Built(g, s, t, d, x, root) && Built(g, t, u, e, y, root)
    requires root < 0 || s.dp + |s.rest| <= root < s.ip
    ensures AgreeOn(g, t.out, u.out, d) && AgreeOn(g, t.out, u.out, x)
  {
    forall n | n in d ensures g.BlockAt(t.out, n) == g.BlockAt(u.out, n) {
      assert s.dp <= n < t.dp;
    }
    forall n | n in x ensures g.BlockAt(t.out, n) == g.BlockAt(u.out, n) {
      assert s.ip <= n < t.ip;
    }
  }

  /** Two stretches in a row make one. */
  lemma BuiltTwice(g: Geo, s: Cursor, t: Cursor, u: Cursor, d: seq<int>, x: seq<int>, e: seq<int>, y: seq<int>, root: int)
    requires Ready(g, s) && Built(g, s, t, d, x, root) && Built(g, t, u, e, y, root)
    requires root < 0 || s.dp + |s.rest| <= root < s.ip
    ensures Built(g, s, u, d + e, x + y, root)
  {
    hide Contents, Geometry.BlockAt, AgreeOn;
    BuiltApart(g, s, t, u, d, x, e, y, root);
    PlacedTwice(g, s, t, u, d, e);
    assert Range(s.ip, u.ip - s.ip) == x + y;
  }

  lemma PlacedTwice(g: Geo, s: Cursor, t: Cursor, u: Cursor, d: seq<int>, e: seq<int>)
    requires Placed(g, s, t, d) && Placed(g, t, u, e) && AgreeOn(g, t.out, u.out, d)
    ensures Placed(g, s, u, d + e)
  {
    hide Geometry.BlockAt, Contents, AgreeOn;
    ContentsAgree(g, t.out, u.out, d);
    ContentsConcat(g, u.out, d, e);
    assert s.rest[..|d| + |e|] == s.rest[..|d|] + s.rest[|d|..][..|e|];
    assert s.rest[|d| + |e|..] == s.rest[|d|..][|e|..];
    assert Range(s.dp, |d|) + Range(t.dp, |e|) == Range(s.dp, |d| + |e|);
  }

  lemma BuiltNothing(g: Geo, s: Cursor, root: int)
    ensures Built(g, s, s, [], [], root)
  {
    assert Contents(g, s.out, []) == s.rest[..0];
  }

  lemma BuiltUnderRoot(g: Geo, s: Cursor, t: Cursor, d: seq<int>, x: seq<int>)
    requires Built(g, s.(ip := s.ip + 1), t, d, x, s.ip)
    ensures Built(g, s, t, d, [s.ip] + x, -1)
  {
    assert Range(s.ip, t.ip - s.ip) == [s.ip] + x;
  }

  lemma TreePeel(g: Geo, img: Image, level: nat, val: int, count: nat)
    requires level > 0 && count > 0
    ensures TreeData(g, img, level, val, count) == KidsData(g, img, level, val, 0, count)
    ensures TreeIndex(g, img, level, val, count) == [val] + KidsIndex(g, img, level, val, 0, count)
  {}

  lemma {:induction false} BuildTreeReads(g: Geo, level: nat, s: Cursor)
    requires s.rest != [] && Ready(g, s)
    ensures var t, root := BuildTree(g, level, s), Target(level, s);
            Built(g, s, t, TreeData(g, t.out, level, root, |s.rest|), TreeIndex(g, t.out, level, root, |s.rest|), -1)
    decreases level, g.w + 1
  {
    var t := BuildTree(g, level, s);
    if level == 0 {
      assert s.rest[0] in s.rest;
      PutBlockEffect(g, s.out, s.dp, s.rest[0]);
      assert TreeData(g, t.out, 0, s.dp, |s.rest|) == [s.dp] == Range(s.dp, 1);
      assert Contents(g, t.out, [s.dp]) == [s.rest[0]] == s.rest[..1];
    } else {
      var s1 := s.(ip := s.ip + 1);
      BuildKidsReads(g, level, s.ip, 0, s1);
      BuiltUnderRoot(g, s, t, KidsData(g, t.out, level, s.ip, 0, |s.rest|), KidsIndex(g, t.out, level, s.ip, 0, |s.rest|));
      TreePeel(g, t.out, level, s.ip, |s.rest|);
    }
  }

  lemma BuiltBelowLink(g: Geo, s: Cursor, t: Cursor, d: seq<int>, x: seq<int>, root: int, i: nat, kid: int)
    requires Ready(g, s) && s.dp + |s.rest| <= root < s.ip && i < g.w
    requires Built(g, s.(out := PutWord(g, s.out, root, i, kid)), t, d, x, -1)
    ensures Built(g, s, t, d, x, root)
    ensures g.BlockAt(t.out, root) == g.BlockAt(s.out, root)[i := kid]
  {
    PutWordEffect(g, s.out, root, i, kid);
  }

  lemma ReadyAfter(g: Geo, s: Cursor, t: Cursor, k: nat)
    requires Ready(g, s) && k <= |s.rest| && t.rest == s.rest[k..] && t.dp == s.dp + k && t.ip >= s.ip
    ensures Ready(g, t)
  {}

  lemma SlotsKept(g: Geo, a: Image, b: Image, c: Image, root: int, i: nat, kid: int)
    requires i < g.w && g.BlockAt(b, root) == g.BlockAt(a, root)[i := kid]
    requires g.BlockAt(c, root)[..i + 1] == g.BlockAt(b, root)[..i + 1]
    ensures g.BlockAt(c, root)[i] == kid && g.BlockAt(c, root)[..i] == g.BlockAt(a, root)[..i]
  {
    var p, q, r := g.BlockAt(a, root), g.BlockAt(b, root), g.BlockAt(c, root);
    assert r[i] == r[..i + 1][i];
    assert r[..i] == r[..i + 1][..i] == q[..i] == p[..i];
  }

  lemma {:induction false} BuildKidsReads(g: Geo, level: nat, root: int, i: nat, s: Cursor)
    requires level > 0 && i <= g.w && Ready(g, s) && s.dp + |s.rest| <= root < s.ip
    ensures var t := BuildKids(g, level, root, i, s);
            && Built(g, s, t, KidsData(g, t.out, level, root, i, |s.rest|),
                     KidsIndex(g, t.out, level, root, i, |s.rest|), root)
            && g.BlockAt(t.out, root)[..i] == g.BlockAt(s.out, root)[..i]
    decreases level, g.w - i
  {
    hide Built, Capacity, PutWord, AllBlocks, Geometry.BlockAt;
    if i < g.w && s.rest != [] {
      var kid := Target(level - 1, s);
      var s1 := s.(out := PutWord(g, s.out, root, i, kid));
      var s2 := BuildTree(g, level - 1, s1);
      BuildTreeReads(g, level - 1, s1);
      BuildTreeTakes(g, level - 1, s1);
      var d, x := TreeData(g, s2.out, level - 1, kid, |s.rest|), TreeIndex(g, s2.out, level - 1, kid, |s.rest|);
      BuiltBelowLink(g, s, s2, d, x, root, i, kid);
      TreeDataLength(g, s2.out, level - 1, kid, |s.rest|);
      ReadyAfter(g, s, s2, |d|);
      BuildKidsReads(g, level, root, i + 1, s2);
      var t := BuildKids(g, level, root, i + 1, s2);
      SlotsKept(g, s.out, s2.out, t.out, root, i, kid);
      KidsReadStep(g, level, root, i, kid, s, s2, t, d, x);
    } else {
      BuiltNothing(g, s, root);
    }
  }

  lemma KidsPeel(g: Geo, img: Image, level: nat, root: int, i: nat, count: nat,
                 d: seq<int>, x: seq<int>, e: seq<int>, y: seq<int>)
    requires level > 0 && i < g.w && count > 0
    requires d == TreeData(g, img, level - 1, g.BlockAt(img, root)[i], count)
    requires x == TreeIndex(g, img, level - 1, g.BlockAt(img, root)[i], count)
    requires e == KidsData(g, img, level, root, i + 1, count - |d|)
    requires y == KidsIndex(g, img, level, root, i + 1, count - |d|)
    ensures KidsData(g, img, level, root, i, count) == d + e && KidsIndex(g, img, level, root, i, count) == x + y
  {}

  /** Pointer i leads to the subtree from s to s2; pointers i+1.. to what follows up to t. */
  lemma KidsReadStep(g: Geo, level: nat, root: int, i: nat, kid: int, s: Cursor, s2: Cursor, t: Cursor,
                     d: seq<int>, x: seq<int>)
    requires level > 0 && i < g.w && s.rest != [] && Ready(g, s) && s.dp + |s.rest| <= root < s.ip
    requires d == TreeData(g, s2.out, level - 1, kid, |s.rest|)
    requires x == TreeIndex(g, s2.out, level - 1, kid, |s.rest|)
    requires Built(g, s, s2, d, x, root)
    requires |s2.rest| == |s.rest| - |d| && g.BlockAt(t.out, root)[i] == kid
    requires Built(g, s2, t, KidsData(g, t.out, level, root, i + 1, |s2.rest|),
                   KidsIndex(g, t.out, level, root, i + 1, |s2.rest|), root)
    ensures Built(g, s, t, KidsData(g, t.out, level, root, i, |s.rest|),
                  KidsIndex(g, t.out, level, root, i, |s.rest|), root)
  {
    hide *;
    var e, y := KidsData(g, t.out, level, root, i + 1, |s2.rest|), KidsIndex(g, t.out, level, root, i + 1, |s2.rest|);
    BuiltApart(g, s, s2, t, d, x, e, y, root);
    TreeFrame(g, s2.out, t.out, level - 1, kid, |s.rest|);
    BuiltTwice(g, s, s2, t, d, x, e, y, root);
    KidsPeel(g, t.out, level, root, i, |s.rest|, d, x, e, y);
  }

  function Pair(levels: seq<nat>, vals: seq<int>): (r: seq<Root>)
    requires |vals| <= |levels|
    ensures |r| == |vals|
  {
    seq(|vals|, v requires 0 <= v < |vals| => Root(levels[v], vals[v]))
  }

  /** Reading a freshly built file through its new root pointers, whatever pointers follow them. */
  lemma {:induction false} BuildForestReads(g: Geo, levels: seq<nat>, s: Cursor, roots: seq<Root>)
    requires Ready(g, s) && Levels(roots) == levels
    requires Pair(levels, BuildForest(g, levels, s).0) <= roots
    ensures var t := BuildForest(g, levels, s).1;
            Built(g, s, t, ForestData(g, t.out, roots, |s.rest|), ForestIndex(g, t.out, roots, |s.rest|), -1)
  {
    var (ps, t) := BuildForest(g, levels, s);
    if levels != [] && s.rest != [] {
      var kid := Target(levels[0], s);
      assert roots[0] == Pair(levels, ps)[0] == Root(levels[0], kid);
      BuildTreeReads(g, levels[0], s);
      BuildTreeTakes(g, levels[0], s);
      var s1 := BuildTree(g, levels[0], s);
      ReadyAfter(g, s, s1, Min(|s.rest|, Capacity(g, levels[0])));
      assert Pair(levels, ps)[1..] == Pair(levels[1..], ps[1..]);
      assert Levels(roots)[1..] == Levels(roots[1..]);
      BuildForestReads(g, levels[1..], s1, roots[1..]);
      ForestReadStep(g, roots, s, s1, t);
    } else {
      BuiltNothing(g, s, -1);
    }
  }

  lemma ForestPeel(g: Geo, img: Image, roots: seq<Root>, count: nat, d: seq<int>, x: seq<int>, e: seq<int>, y: seq<int>)
    requires roots != [] && count > 0
    requires d == TreeData(g, img, roots[0].level, roots[0].val, count)
    requires x == TreeIndex(g, img, roots[0].level, roots[0].val, count)
    requires e == ForestData(g, img, roots[1..], count - |d|) && y == ForestIndex(g, img, roots[1..], count - |d|)
    ensures ForestData(g, img, roots, count) == d + e && ForestIndex(g, img, roots, count) == x + y
  {}

  lemma ForestReadStep(g: Geo, roots: seq<Root>, s: Cursor, s1: Cursor, t: Cursor)
    requires roots != [] && s.rest != [] && Ready(g, s)
    requires Built(g, s, s1, TreeData(g, s1.out, roots[0].level, roots[0].val, |s.rest|),
                   TreeIndex(g, s1.out, roots[0].level, roots[0].val, |s.rest|), -1)
    requires |s1.rest| == |s.rest| - |TreeData(g, s1.out, roots[0].level, roots[0].val, |s.rest|)|
    requires Built(g, s1, t, ForestData(g, t.out, roots[1..], |s1.rest|), ForestIndex(g, t.out, roots[1..], |s1.rest|), -1)
    ensures Built(g, s, t, ForestData(g, t.out, roots, |s.rest|), ForestIndex(g, t.out, roots, |s.rest|), -1)
  {
    hide *;
    var d := TreeData(g, s1.out, roots[0].level, roots[0].val, |s.rest|);
    var x := TreeIndex(g, s1.out, roots[0].level, roots[0].val, |s.rest|);
    var e, y := ForestData(g, t.out, roots[1..], |s1.rest|), ForestIndex(g, t.out, roots[1..], |s1.rest|);
    BuiltApart(g, s, s1, t, d, x, e, y, -1);
    TreeFrame(g, s1.out, t.out, roots[0].level, roots[0].val, |s.rest|);
    BuiltTwice(g, s, s1, t, d, x, e, y, -1);
    ForestPeel(g, t.out, roots, |s.rest|, d, x, e, y);
  }
}
