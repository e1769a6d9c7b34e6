/** An independent reference for the scorer: well-formed lines as trees of
    bracket groups, scored structurally, and the theorem that the recursive
    descent of BracketCalculation computes that score on their rendering. */
module BracketReference {
  import opened BracketCalculation

  datatype Kind = Round | Curly | Square

  function OpenerOf(k: Kind): char {
    match k
    case Round => '('
    case Curly => '{'
    case Square => '['
  }

  /** The family of an opener. */
  function KindOf(c: char): (k: Kind)
    requires IsOpener(c)
    ensures OpenerOf(k) == c
  {
    if c == '(' then Round else if c == '{' then Curly else Square
  }

  /** The closer one code point above the opener, or two above when far. */
  function CloserOf(k: Kind, far: bool): char {
    match k
    case Round => if far then '*' else ')'
    case Curly => if far then '}' else '|'
    case Square => if far then ']' else '\\'
  }

  function BaseOf(k: Kind): int {
    match k
    case Round => 1
    case Curly => 2
    case Square => 3
  }

  /** The bracket table agrees with the scorer's character predicates. */
  lemma KindTable(k: Kind, far: bool)
    ensures IsOpener(OpenerOf(k)) && ValueFrom(OpenerOf(k)) == BaseOf(k)
    ensures IsMatching(OpenerOf(k), CloserOf(k, far))
    ensures !IsOpener(CloserOf(k, far)) && CloserOf(k, far) != CARRIAGE_RETURN
  {
  }

  /** Every character that closes an opener is one of the table's closers. */
  lemma ClosersInTable(opener: char, c: char)
    requires IsOpener(opener) && IsMatching(opener, c)
    ensures c == CloserOf(KindOf(opener), c as int == opener as int + 2)
  {
  }

  /** A bracket group, which of its family's two closers ends it, and the
      groups nested directly inside it, in order. */
  datatype Tree = Tree(kind: Kind, far: bool, children: seq<Tree>)

  function Render(t: Tree): string
    decreases t, 1
  {
    [OpenerOf(t.kind)] + RenderAll(t.children) + [CloserOf(t.kind, t.far)]
  }

  function RenderAll(ts: seq<Tree>): string
    decreases ts, 0
  {
    if ts == [] then [] else Render(ts[0]) + RenderAll(ts[1..])
  }

  /** The structural score: base value of an atomic group, base value times
      the sum of the children otherwise, all modulo MODULUS. */
  function Score(t: Tree): (v: int)
    ensures 0 <= v < MODULUS
    decreases t, 1
  {
    var inner := SumFrom(0, t.children);
    if inner == 0 then BaseOf(t.kind) else (BaseOf(t.kind) * inner) % MODULUS
  }

  /** acc plus the scores of ts, added left to right modulo MODULUS. */
  function SumFrom(acc: int, ts: seq<Tree>): (v: int)
    requires 0 <= acc < MODULUS
    ensures 0 <= v < MODULUS
    decreases ts, 0
  {
    if ts == [] then acc else SumFrom((acc + Score(ts[0])) % MODULUS, ts[1..])
  }

  function Sum(ts: seq<Tree>): (v: int) {
    SumFrom(0, ts)
  }

  /** Every group of ts and every group nested in them scores non-zero, so
      that none of them is mistaken for a failure. */
  predicate NonZero(ts: seq<Tree>)
    decreases ts
  {
    forall k :: 0 <= k < |ts| ==> Score(ts[k]) != 0 && NonZero(ts[k].children)
  }

  /** The word w appears in s starting at index j. */
  predicate Occurs(s: string, j: int, w: string) {
    0 <= j && j + |w| <= |s| && s[j..j + |w|] == w
  }

  lemma OccursSplit(s: string, j: int, a: string, b: string)
    requires Occurs(s, j, a + b)
    ensures Occurs(s, j, a) && Occurs(s, j + |a|, b)
  {
    assert s[j..j + |a|] == (s[j..j + |a| + |b|])[..|a|];
    assert s[j + |a|..j + |a| + |b|] == (s[j..j + |a| + |b|])[|a|..];
  }

  /** A rendered tree t at index i is one group: its score is Score(t) and
      the cursor stops on its closer. */
  lemma {:induction false} GroupComputesScore(s: string, i: int, t: Tree, last: int)
    requires Occurs(s, i, Render(t)) && NonZero(t.children) && last == i + |Render(t)| - 1
    ensures 0 <= i < last < |s| && IsOpener(s[i])
    ensures Group(s, i) == Outcome(Score(t), last)
    decreases t, 1
  {
    var body := RenderAll(t.children);
    OccursSplit(s, i, [OpenerOf(t.kind)] + body, [CloserOf(t.kind, t.far)]);
    OccursSplit(s, i, [OpenerOf(t.kind)], body);
    assert s[i] == OpenerOf(t.kind);
    KindTable(t.kind, t.far);
    assert s[last] == CloserOf(t.kind, t.far);
    InnerSkipsChildren(s, i, i + 1, t.children, 0, last, SumFrom(0, t.children));
    assert Inner(s, i, last, SumFrom(0, t.children)) == Outcome(Score(t), last);
  }

  /** Unfolding of a non-empty forest's rendering. */
  lemma RenderAllCons(ts: seq<Tree>)
    requires ts != []
    ensures RenderAll(ts) == Render(ts[0]) + RenderAll(ts[1..])
  {
  }

  lemma SumFromCons(acc: int, ts: seq<Tree>)
    requires 0 <= acc < MODULUS && ts != []
    ensures SumFrom(acc, ts) == SumFrom((acc + Score(ts[0])) % MODULUS, ts[1..])
  {
  }

  lemma NonZeroParts(ts: seq<Tree>)
    requires ts != [] && NonZero(ts)
    ensures Score(ts[0]) != 0 && NonZero(ts[0].children) && NonZero(ts[1..])
  {
    forall k | 0 <= k < |ts[1..]|
      ensures Score(ts[1..][k]) != 0 && NonZero(ts[1..][k].children)
    {
      assert ts[1..][k] == ts[k + 1];
    }
  }

  /** One step of a group's loop over a nested group that succeeded. */
  lemma InnerStep(s: string, i: int, j: int, acc: int, v: int, last: int, next: int, acc': int)
    requires 0 <= i < j < |s| && IsOpener(s[i]) && IsOpener(s[j]) && 0 <= acc < MODULUS
    requires Group(s, j) == Outcome(v, last) && v != 0
    requires next == last + 1 && acc' == (acc + v) % MODULUS
    ensures next <= |s| && 0 <= acc' < MODULUS && Inner(s, i, j, acc) == Inner(s, i, next, acc')
  {
  }

  /** One step of the top-level scan over a group that succeeded. */
  lemma ScanStep(s: string, k: int, acc: int, v: int, last: int, next: int, acc': int)
    requires 0 <= k < |s| && IsOpener(s[k]) && 0 <= acc < MODULUS
    requires Group(s, k) == Outcome(v, last) && v != 0
    requires next == last + 1 && acc' == (acc + v) % MODULUS
    ensures next <= |s| && 0 <= acc' < MODULUS && Scan(s, k, acc) == Scan(s, next, acc')
  {
  }

  /** Inside a group, a run of rendered well-formed children adds their sum to
      the inner accumulator and leaves the cursor just past them. */
  lemma {:induction false} InnerSkipsChildren(s: string, i: int, j: int, ts: seq<Tree>, acc: int, end: int, sum: int)
    requires Occurs(s, j, RenderAll(ts)) && NonZero(ts) && end == j + |RenderAll(ts)|
    requires 0 <= i < j && IsOpener(s[i]) && 0 <= acc < MODULUS && sum == SumFrom(acc, ts)
    ensures Inner(s, i, j, acc) == Inner(s, i, end, sum)
    decreases ts, 0
  {
    if ts == [] {
      assert RenderAll(ts) == [] && SumFrom(acc, ts) == acc;
    } else {
      RenderAllCons(ts);
      OccursSplit(s, j, Render(ts[0]), RenderAll(ts[1..]));
      NonZeroParts(ts);
      var last := j + |Render(ts[0])| - 1;
      GroupComputesScore(s, j, ts[0], last);
      var next, acc' := last + 1, (acc + Score(ts[0])) % MODULUS;
      InnerStep(s, i, j, acc, Score(ts[0]), last, next, acc');
      SumFromCons(acc, ts);
      InnerSkipsChildren(s, i, next, ts[1..], acc', end, sum);
    }
  }

  /** At the top level, a run of rendered well-formed groups adds their sum
      to the line total and leaves the cursor just past them. */
  lemma {:induction false} ScanSkipsForest(s: string, k: int, ts: seq<Tree>, acc: int, end: int, sum: int)
    requires 0 <= acc < MODULUS && sum == SumFrom(acc, ts)
    requires Occurs(s, k, RenderAll(ts)) && NonZero(ts) && end == k + |RenderAll(ts)|
    ensures Scan(s, k, acc) == Scan(s, end, sum)
    decreases ts
  {
    if ts == [] {
      assert RenderAll(ts) == [] && SumFrom(acc, ts) == acc;
    } else {
      RenderAllCons(ts);
      OccursSplit(s, k, Render(ts[0]), RenderAll(ts[1..]));
      NonZeroParts(ts);
      var last := k + |Render(ts[0])| - 1;
      GroupComputesScore(s, k, ts[0], last);
      var next, acc' := last + 1, (acc + Score(ts[0])) % MODULUS;
      ScanStep(s, k, acc, Score(ts[0]), last, next, acc');
      SumFromCons(acc, ts);
      ScanSkipsForest(s, next, ts[1..], acc', end, sum);
    }
  }

  /** The scorer agrees with the reference on every well-formed line, and a
      line of well-formed groups followed by trailing text keeps the sum only
      when that text starts with a carriage return. */
  lemma LineScoreOfForest(ts: seq<Tree>, tail: string)
    requires NonZero(ts)
    ensures tail == [] ==> LineScore(RenderAll(ts) + tail) == Sum(ts)
    ensures tail != [] && tail[0] == CARRIAGE_RETURN ==> LineScore(RenderAll(ts) + tail) == Sum(ts)
    ensures tail != [] && !IsOpener(tail[0]) && tail[0] != CARRIAGE_RETURN ==>
              LineScore(RenderAll(ts) + tail) == 0
  {
    var s := RenderAll(ts) + tail;
    assert s[0..|RenderAll(ts)|] == RenderAll(ts);
    ScanSkipsForest(s, 0, ts, 0, |RenderAll(ts)|, Sum(ts));
    if tail != [] {
      assert s[|RenderAll(ts)|] == tail[0];
    }
  }

  /** Once a top-level group fails, the line scores 0 whatever follows it. */
  lemma FailedGroupZeroesLine(ts: seq<Tree>, tail: string)
    requires NonZero(ts)
    requires tail != [] && IsOpener(tail[0])
    requires Group(RenderAll(ts) + tail, |RenderAll(ts)|).value == 0
    ensures LineScore(RenderAll(ts) + tail) == 0
  {
    var s := RenderAll(ts) + tail;
    assert s[0..|RenderAll(ts)|] == RenderAll(ts);
    ScanSkipsForest(s, 0, ts, 0, |RenderAll(ts)|, Sum(ts));
  }

  lemma {:induction false} RenderAllAppend(a: seq<Tree>, b: seq<Tree>)
    ensures RenderAll(a + b) == RenderAll(a) + RenderAll(b)
    decreases a
  {
    if a == [] {
      assert a + b == b;
    } else {
      assert (a + b)[0] == a[0] && (a + b)[1..] == a[1..] + b;
      RenderAllCons(a + b);
      RenderAllCons(a);
      RenderAllAppend(a[1..], b);
    }
  }

  /** Zero doubles as the failure mark: a well-formed nested group whose
      score wraps to 0 modulo MODULUS zeroes the group around it, and with
      it the line, although every bracket in the line is matched. */
  lemma ZeroScoreFailsEnclosing(t: Tree, k: int)
    requires 0 <= k < |t.children|
    requires NonZero(t.children[..k]) && NonZero(t.children[k].children) && Score(t.children[k]) == 0
    ensures Group(Render(t), 0).value == 0
    ensures LineScore(Render(t)) == 0
  {
    var s := Render(t);
    var a, c, rest := t.children[..k], t.children[k], t.children[k + 1..];
    assert t.children == a + ([c] + rest);
    RenderAllAppend(a, [c] + rest);
    RenderAllCons([c] + rest);
    assert ([c] + rest)[0] == c && ([c] + rest)[1..] == rest;
    var body := RenderAll(a) + (Render(c) + RenderAll(rest));
    assert s == [OpenerOf(t.kind)] + body + [CloserOf(t.kind, t.far)];
    assert s[0..|s|] == s;
    OccursSplit(s, 0, [OpenerOf(t.kind)] + body, [CloserOf(t.kind, t.far)]);
    OccursSplit(s, 0, [OpenerOf(t.kind)], body);
    OccursSplit(s, 1, RenderAll(a), Render(c) + RenderAll(rest));
    var j := 1 + |RenderAll(a)|;
    OccursSplit(s, j, Render(c), RenderAll(rest));
    KindTable(t.kind, t.far);
    assert s[0] == OpenerOf(t.kind);
    var sum := SumFrom(0, a);
    InnerSkipsChildren(s, 0, 1, a, 0, j, sum);
    var last := j + |Render(c)| - 1;
    GroupComputesScore(s, j, c, last);
    InnerNested(s, 0, j, sum);
    assert Group(s, 0) == Outcome(0, last);
  }

  lemma OccursJoin(s: string, j: int, a: string, b: string)
    requires Occurs(s, j, a) && Occurs(s, j + |a|, b)
    ensures Occurs(s, j, a + b)
  {
    assert s[j..j + |a| + |b|] == s[j..j + |a|] + s[j + |a|..j + |a| + |b|];
  }

  lemma NonZeroCons(t: Tree, ts: seq<Tree>)
    requires Score(t) != 0 && NonZero(t.children) && NonZero(ts)
    ensures NonZero([t] + ts)
  {
    forall k | 0 <= k < |[t] + ts|
      ensures Score(([t] + ts)[k]) != 0 && NonZero(([t] + ts)[k].children)
    {
      if k > 0 {
        assert ([t] + ts)[k] == ts[k - 1];
      }
    }
  }

  /** Adding a tree in front of a rendered forest. */
  lemma ForestCons(s: string, j: int, t: Tree, rest: seq<Tree>, ts: seq<Tree>)
    requires ts == [t] + rest && Occurs(s, j, Render(t)) && Occurs(s, j + |Render(t)|, RenderAll(rest))
    requires Score(t) != 0 && NonZero(t.children) && NonZero(rest)
    ensures Occurs(s, j, RenderAll(ts)) && NonZero(ts)
    ensures |RenderAll(ts)| == |Render(t)| + |RenderAll(rest)|
  {
    assert ts[0] == t && ts[1..] == rest;
    RenderAllCons(ts);
    OccursJoin(s, j, Render(t), RenderAll(rest));
    NonZeroCons(t, rest);
  }

  /** Reads back the tree that a successful group consumed. */
  lemma {:induction false} ParseGroup(s: string, i: int) returns (t: Tree)
    requires 0 <= i < |s| && IsOpener(s[i]) && Group(s, i).value != 0
    ensures Occurs(s, i, Render(t)) && NonZero(t.children)
    ensures Group(s, i) == Outcome(Score(t), i + |Render(t)| - 1)
    decreases |s| - i, 1
  {
    var ts, far, end := ParseInner(s, i, i + 1, 0);
    var k := KindOf(s[i]);
    t := Tree(k, far, ts);
    assert s[i..i + 1] == [OpenerOf(k)];
    OccursJoin(s, i, [OpenerOf(k)], RenderAll(ts));
    assert s[end..end + 1] == [CloserOf(k, far)];
    OccursJoin(s, i, [OpenerOf(k)] + RenderAll(ts), [CloserOf(k, far)]);
    KindTable(k, far);
    assert Score(t) == Close(s[i], SumFrom(0, ts));
  }

  /** Reads back the children that a successful group body consumed, and
      which closer ended it. */
  lemma {:induction false} ParseInner(s: string, i: int, j: int, acc: int) returns (ts: seq<Tree>, far: bool, end: int)
    requires 0 <= i < j <= |s| && IsOpener(s[i]) && 0 <= acc < MODULUS
    requires Inner(s, i, j, acc).value != 0
    ensures Occurs(s, j, RenderAll(ts)) && NonZero(ts) && end == j + |RenderAll(ts)|
    ensures end < |s| && s[end] == CloserOf(KindOf(s[i]), far)
    ensures Inner(s, i, j, acc) == Outcome(Close(s[i], SumFrom(acc, ts)), end)
    decreases |s| - j, 3
  {
    var c := At(s, j);
    if IsMatching(s[i], c) {
      InnerCloses(s, i, j, acc);
      ClosersInTable(s[i], c);
      ts, far, end := [], c as int == s[i] as int + 2, j;
      assert RenderAll(ts) == [] && SumFrom(acc, ts) == acc;
    } else {
      assert IsOpener(c);
      ts, far, end := ParseNested(s, i, j, acc);
    }
  }

  /** A group body that succeeds past a nested opener needs the nested
      group to succeed. */
  lemma NestedSucceeded(s: string, i: int, j: int, acc: int)
    requires 0 <= i < j < |s| && IsOpener(s[i]) && IsOpener(s[j]) && 0 <= acc < MODULUS
    requires Inner(s, i, j, acc).value != 0
    ensures Group(s, j).value != 0
  {
    InnerNested(s, i, j, acc);
  }

  /** ParseInner on a nested opener: read back the nested group, then the
      rest of the body after it. */
  lemma {:induction false} ParseNested(s: string, i: int, j: int, acc: int) returns (ts: seq<Tree>, far: bool, end: int)
    requires 0 <= i < j < |s| && IsOpener(s[i]) && IsOpener(s[j]) && 0 <= acc < MODULUS
    requires Inner(s, i, j, acc).value != 0
    ensures Occurs(s, j, RenderAll(ts)) && NonZero(ts) && end == j + |RenderAll(ts)|
    ensures end < |s| && s[end] == CloserOf(KindOf(s[i]), far)
    ensures Inner(s, i, j, acc) == Outcome(Close(s[i], SumFrom(acc, ts)), end)
    decreases |s| - j, 2
  {
    NestedSucceeded(s, i, j, acc);
    var t0 := ParseGroup(s, j);
    var last := j + |Render(t0)| - 1;
    var next, acc' := last + 1, (acc + Score(t0)) % MODULUS;
    InnerStep(s, i, j, acc, Score(t0), last, next, acc');
    var rest;
    rest, far, end := ParseInner(s, i, next, acc');
    ts := [t0] + rest;
    ForestCons(s, j, t0, rest, ts);
    SumFromCons(acc, ts);
    assert SumFrom(acc, ts) == SumFrom(acc', rest);
  }

  /** Reads back the top-level groups that a successful scan consumed; the
      scan ended at the line's end or on a carriage return. */
  lemma {:induction false} ParseScan(s: string, k: int, acc: int) returns (ts: seq<Tree>, end: int)
    requires 0 <= k <= |s| && 0 <= acc < MODULUS && Scan(s, k, acc).value != 0
    ensures Occurs(s, k, RenderAll(ts)) && NonZero(ts) && end == k + |RenderAll(ts)|
    ensures end == |s| || s[end] == CARRIAGE_RETURN
    ensures Scan(s, k, acc).value == SumFrom(acc, ts)
    decreases |s| - k, 1
  {
    if k == |s| || !IsOpener(s[k]) {
      ts, end := [], k;
      assert RenderAll(ts) == [] && SumFrom(acc, ts) == acc;
    } else {
      ts, end := ParseTopGroup(s, k, acc);
    }
  }

  /** A scan that succeeds past a top-level opener needs that group to
      succeed. */
  lemma TopGroupSucceeded(s: string, k: int, acc: int)
    requires 0 <= k < |s| && IsOpener(s[k]) && 0 <= acc < MODULUS
    requires Scan(s, k, acc).value != 0
    ensures Group(s, k).value != 0
  {
  }

  /** ParseScan on a top-level opener: read back that group, then the rest of
      the line after it. */
  lemma {:induction false} ParseTopGroup(s: string, k: int, acc: int) returns (ts: seq<Tree>, end: int)
    requires 0 <= k < |s| && IsOpener(s[k]) && 0 <= acc < MODULUS && Scan(s, k, acc).value != 0
    ensures Occurs(s, k, RenderAll(ts)) && NonZero(ts) && end == k + |RenderAll(ts)|
    ensures end == |s| || s[end] == CARRIAGE_RETURN
    ensures Scan(s, k, acc).value == SumFrom(acc, ts)
    decreases |s| - k, 0
  {
    TopGroupSucceeded(s, k, acc);
    var t0 := ParseGroup(s, k);
    var last := k + |Render(t0)| - 1;
    var next, acc' := last + 1, (acc + Score(t0)) % MODULUS;
    ScanStep(s, k, acc, Score(t0), last, next, acc');
    var rest;
    rest, end := ParseScan(s, next, acc');
    ts := [t0] + rest;
    ForestCons(s, k, t0, rest, ts);
    SumFromCons(acc, ts);
    assert SumFrom(acc, ts) == SumFrom(acc', rest);
  }

  /** Conversely, a group that scores non-zero is the rendering of a tree
      with no zero-scoring group inside, and its score is that tree's score. */
  lemma GroupIsRenderedTree(s: string, i: int)
    requires 0 <= i < |s| && IsOpener(s[i]) && Group(s, i).value != 0
    ensures exists t :: Occurs(s, i, Render(t)) && NonZero(t.children) &&
                        Group(s, i) == Outcome(Score(t), i + |Render(t)| - 1)
  {
    var t := ParseGroup(s, i);
  }

  /** The line s is the rendered forest followed by tail, which is empty or
      starts with a carriage return, no group of the forest scores 0, and
      the line scores the forest's sum. */
  predicate IsForestLine(s: string, forest: seq<Tree>, tail: string) {
    && s == RenderAll(forest) + tail
    && NonZero(forest)
    && (tail == [] || tail[0] == CARRIAGE_RETURN)
    && LineScore(s) == Sum(forest)
  }

  /** Conversely, a line that scores non-zero is a rendered forest with no
      zero-scoring group, followed by nothing or by a carriage return, and
      its score is the forest's sum; every other line scores 0. */
  lemma LineIsRenderedForest(s: string)
    requires LineScore(s) != 0
    ensures exists forest, tail :: IsForestLine(s, forest, tail)
  {
    var ts, end := ParseScan(s, 0, 0);
    var tail := s[end..];
    assert s[0..end] == RenderAll(ts);
    assert s == RenderAll(ts) + tail;
    assert LineScore(s) == Sum(ts);
    assert IsForestLine(s, ts, tail);
  }
}
