/** Model of the bracket-expression scorer: a line made of the three bracket
    families is scored by recursive descent over a shared cursor.

    The pure functions Group, Inner and Scan are the specification; the class
    BracketCalculator keeps the C++ class's mutable cursor and result vector
    and its methods are proved to compute exactly those functions. */
module BracketCalculation {

  /** Every combination of scores is reduced modulo this constant. */
  const MODULUS: int := 100000000

  /** Largest value of a 32-bit `int`, the type of every score in the C++ code. */
  const INT32_MAX: int := 0x7fff_ffff

  /** What `std::string` yields when indexed at its own length. */
  const END_OF_INPUT: char := '\0'

  /** The one character that may end a line without zeroing it. */
  const CARRIAGE_RETURN: char := '\r'

  /** The three openers; none of them is the end-of-input mark or a carriage
      return. */
  function IsOpener(c: char): (r: bool)
    ensures r ==> c != END_OF_INPUT && c != CARRIAGE_RETURN
  {
    c == '(' || c == '{' || c == '['
  }

  /** The C++ code compares character codes: `c` closes `opener` when it is
      one or two code points above it, so `(` is closed by `)` or `*`, `[` by
      `\` or `]`, and `{` by `|` or `}`. What closes an opener is never an
      opener, the end-of-input mark or a carriage return. */
  function IsMatching(opener: char, c: char): (r: bool)
    ensures IsOpener(opener) && r ==> !IsOpener(c) && c != END_OF_INPUT && c != CARRIAGE_RETURN
  {
    c as int == opener as int + 1 || c as int == opener as int + 2
  }

  /** Base value of an opener; the C++ code asserts it is only asked about
      openers. */
  function ValueFrom(opener: char): (v: int)
    requires IsOpener(opener)
    ensures 1 <= v <= 3
    ensures v == 1 <==> opener == '('
    ensures v == 2 <==> opener == '{'
    ensures v == 3 <==> opener == '['
  {
    if opener == '(' then 1 else if opener == '{' then 2 else 3
  }

  /** Character lookup at the cursor; at index |s| it is the end-of-input mark. */
  function At(s: string, k: int): (c: char)
    requires 0 <= k <= |s|
    ensures k < |s| ==> c == s[k]
    ensures k == |s| ==> c == END_OF_INPUT
  {
    if k < |s| then s[k] else END_OF_INPUT
  }

  /** Result of consuming part of a line: a score (0 meaning failure) and the
      cursor position where the consumer stopped. */
  datatype Outcome = Outcome(value: int, cursor: int)

  /** The closing step of a group: an atomic group scores its base value,
      otherwise the base value times the inner sum, modulo MODULUS. */
  function Close(opener: char, inner: int): (v: int)
    requires IsOpener(opener) && 0 <= inner < MODULUS
    ensures 0 <= v < MODULUS
  {
    if inner == 0 then ValueFrom(opener) else (ValueFrom(opener) * inner) % MODULUS
  }

  /** One bracket group starting at the opener s[i]. On a non-zero score the
      cursor stops on the group's closer. A score of 0 leaves the cursor on the
      offending character (possibly the end-of-input mark at |s|), or on the
      group's own closer when the closing product wraps to 0 modulo MODULUS. */
  function Group(s: string, i: int): (r: Outcome)
    requires 0 <= i < |s| && IsOpener(s[i])
    ensures 0 <= r.value < MODULUS
    ensures i < r.cursor <= |s|
    ensures r.value != 0 ==> r.cursor < |s|
    decreases |s| - i, 1
  {
    Inner(s, i, i + 1, 0)
  }

  /** The body of the group opened at s[i], with the cursor at j and the score
      of the nested groups seen so far in acc. */
  function Inner(s: string, i: int, j: int, acc: int): (r: Outcome)
    requires 0 <= i < j <= |s| && IsOpener(s[i]) && 0 <= acc < MODULUS
    ensures 0 <= r.value < MODULUS
    ensures j <= r.cursor <= |s|
    ensures r.value != 0 ==> r.cursor < |s|
    decreases |s| - j, 2
  {
    var c := At(s, j);
    if IsMatching(s[i], c) then
      Outcome(Close(s[i], acc), j)
    else if IsOpener(c) then
      var g := Group(s, j);
      if g.value == 0 then Outcome(0, g.cursor)
      else Inner(s, i, g.cursor + 1, (acc + g.value) % MODULUS)
    else
      Outcome(0, j)
  }

  /** The top-level scan of a line from index k with running total acc. Its
      cursor is where the scan stopped. */
  function Scan(s: string, k: int, acc: int): (r: Outcome)
    requires 0 <= k <= |s| && 0 <= acc < MODULUS
    ensures 0 <= r.value < MODULUS
    ensures k <= r.cursor <= |s|
    decreases |s| - k
  {
    if k == |s| then
      Outcome(acc, k)
    else if IsOpener(s[k]) then
      var g := Group(s, k);
      if g.value == 0 then Outcome(0, g.cursor)
      else Scan(s, g.cursor + 1, (acc + g.value) % MODULUS)
    else
      Outcome(if s[k] == CARRIAGE_RETURN then acc else 0, k)
  }

  /** The score of one line. */
  function LineScore(s: string): (v: int)
    ensures 0 <= v < MODULUS
  {
    Scan(s, 0, 0).value
  }

  class BracketCalculator {
    var processingIndex: int
    var processingString: string
    var results: seq<int>

    constructor ()
      ensures processingIndex == 0 && processingString == [] && results == []
    {
      processingIndex := 0;
      processingString := [];
      results := [];
    }

    /** Scores one line and appends the score to the result vector. */
    method Calculate(brackets: string)
      modifies this
      ensures processingString == brackets
      ensures results == old(results) + [LineScore(brackets)]
      ensures processingIndex == Scan(brackets, 0, 0).cursor
    {
      processingString := brackets;
      processingIndex := 0;

      var resultForThisCalculation := 0;
      var endIndex := |processingString|;
      while processingIndex < endIndex
        invariant processingString == brackets && endIndex == |brackets|
        invariant 0 <= processingIndex <= endIndex
        invariant 0 <= resultForThisCalculation < MODULUS
        invariant Scan(brackets, processingIndex, resultForThisCalculation) == Scan(brackets, 0, 0)
        invariant results == old(results)
        decreases endIndex - processingIndex
      {
        if IsOpener(processingString[processingIndex]) {
          var valueBeforeCheck := CalculationImpl();
          if valueBeforeCheck == 0 {
            resultForThisCalculation := 0;
            break;
          } else {
            assert resultForThisCalculation + valueBeforeCheck <= INT32_MAX;
            resultForThisCalculation := (resultForThisCalculation + valueBeforeCheck) % MODULUS;
          }
        } else {
          var exceptionChar := processingString[processingIndex];
          if exceptionChar != CARRIAGE_RETURN {
            resultForThisCalculation := 0;
          }
          break;
        }
        processingIndex := processingIndex + 1;
      }

      results := results + [resultForThisCalculation];
    }

    /** Consumes the group whose opener is under the cursor and returns its
        score, 0 on failure. */
    method CalculationImpl() returns (v: int)
      requires 0 <= processingIndex < |processingString|
      requires IsOpener(processingString[processingIndex])
      modifies this`processingIndex
      ensures v == Group(processingString, old(processingIndex)).value
      ensures processingIndex == Group(processingString, old(processingIndex)).cursor
      decreases |processingString| - processingIndex
    {
      ghost var start := processingIndex;
      ghost var line := processingString;
      var opener := processingString[processingIndex];
      var valueForThisLevel := ValueFrom(opener);

      var valueForInside := 0;
      while true
        invariant processingString == line
        invariant start <= processingIndex < |line|
        invariant 0 <= valueForInside < MODULUS
        invariant Inner(line, start, processingIndex + 1, valueForInside) == Group(line, start)
        decreases |line| - processingIndex
      {
        processingIndex := processingIndex + 1;
        var nextBracket := At(processingString, processingIndex);
        if IsMatching(opener, nextBracket) {
          InnerCloses(line, start, processingIndex, valueForInside);
          if valueForInside == 0 {
            return valueForThisLevel;
          }
          ProductFits(valueForThisLevel, valueForInside);
          return (valueForThisLevel * valueForInside) % MODULUS;
        } else if IsOpener(nextBracket) {
          InnerNested(line, start, processingIndex, valueForInside);
          var valueBeforeCheck := CalculationImpl();
          if valueBeforeCheck == 0 {
            return 0;
          }
          assert valueForInside + valueBeforeCheck <= INT32_MAX;
          valueForInside := (valueForInside + valueBeforeCheck) % MODULUS;
        } else {
          InnerStops(line, start, processingIndex, valueForInside);
          return 0;
        }
      }
    }
  }

  /** A base value times an inner sum never overflows a 32-bit int. */
  lemma ProductFits(base: int, inner: int)
    requires 1 <= base <= 3 && 0 <= inner < MODULUS
    ensures base * inner <= INT32_MAX
  {
  }

  /** One-step unfoldings of Inner, for a matching closer, for any other
      non-opener, and for a nested group; CalculationImpl's proof uses them
      to follow its loop one character at a time. */
  lemma InnerCloses(s: string, i: int, j: int, acc: int)
    requires 0 <= i < j <= |s| && IsOpener(s[i]) && 0 <= acc < MODULUS
    requires IsMatching(s[i], At(s, j))
    ensures Inner(s, i, j, acc) == Outcome(Close(s[i], acc), j)
  {
  }

  lemma InnerStops(s: string, i: int, j: int, acc: int)
    requires 0 <= i < j <= |s| && IsOpener(s[i]) && 0 <= acc < MODULUS
    requires !IsMatching(s[i], At(s, j)) && !IsOpener(At(s, j))
    ensures Inner(s, i, j, acc) == Outcome(0, j)
  {
  }

  lemma InnerNested(s: string, i: int, j: int, acc: int)
    requires 0 <= i < j < |s| && IsOpener(s[i]) && IsOpener(s[j]) && 0 <= acc < MODULUS
    ensures Group(s, j).value == 0 ==> Inner(s, i, j, acc) == Outcome(0, Group(s, j).cursor)
    ensures Group(s, j).value != 0 ==>
              Inner(s, i, j, acc) == Inner(s, i, Group(s, j).cursor + 1, (acc + Group(s, j).value) % MODULUS)
  {
  }

  /** A group that scores non-zero ends on a character that closes its opener. */
  lemma {:induction false} InnerEndsOnCloser(s: string, i: int, j: int, acc: int)
    requires 0 <= i < j <= |s| && IsOpener(s[i]) && 0 <= acc < MODULUS
    ensures Inner(s, i, j, acc).value != 0 ==> IsMatching(s[i], s[Inner(s, i, j, acc).cursor])
    decreases |s| - j
  {
    var c := At(s, j);
    if !IsMatching(s[i], c) && IsOpener(c) {
      var g := Group(s, j);
      if g.value != 0 {
        InnerEndsOnCloser(s, i, g.cursor + 1, (acc + g.value) % MODULUS);
      }
    }
  }

  lemma GroupEndsOnCloser(s: string, i: int)
    requires 0 <= i < |s| && IsOpener(s[i])
    ensures Group(s, i).value != 0 ==> IsMatching(s[i], s[Group(s, i).cursor])
  {
    InnerEndsOnCloser(s, i, i + 1, 0);
  }

  /** The closers the character-code test admits, written out per opener. */
  lemma MatchingClosers(opener: char, c: char)
    requires IsOpener(opener)
    ensures opener == '(' ==> (IsMatching(opener, c) <==> c == ')' || c == '*')
    ensures opener == '[' ==> (IsMatching(opener, c) <==> c == '\\' || c == ']')
    ensures opener == '{' ==> (IsMatching(opener, c) <==> c == '|' || c == '}')
  {
  }

  /** Atomic pairs score their base value, whichever admitted closer ends them. */
  lemma AtomicPairs()
    ensures LineScore("()") == 1 && LineScore("{}") == 2 && LineScore("[]") == 3
    ensures LineScore("(*") == 1 && LineScore("{|") == 2 && LineScore("[\\") == 3
  {
  }

  /** Nesting multiplies by the base value: ([]) is 1 * 3. */
  lemma NestedSquare()
    ensures LineScore("([])") == 3
  {
    var s := "([])";
    assert Group(s, 1) == Outcome(3, 2);
    assert Group(s, 0) == Outcome(3, 3);
  }

  /** ({}[]) is 1 * (2 + 3). */
  lemma NestedSiblings()
    ensures LineScore("({}[])") == 5
  {
    var s := "({}[])";
    assert Group(s, 1) == Outcome(2, 2);
    assert Group(s, 3) == Outcome(3, 4);
    assert Group(s, 0) == Outcome(5, 5);
  }

  /** (()()) is 1 * (1 + 1). */
  lemma InnerSiblings()
    ensures LineScore("(()())") == 2
  {
    var s := "(()())";
    assert Group(s, 1) == Outcome(1, 2);
    assert Group(s, 3) == Outcome(1, 4);
    assert Group(s, 0) == Outcome(2, 5);
  }

  /** Top-level groups add: ()() is 1 + 1. */
  lemma TopLevelSiblings()
    ensures LineScore("()()") == 2
  {
    var s := "()()";
    assert Group(s, 0) == Outcome(1, 1);
    assert Group(s, 2) == Outcome(1, 3);
  }

  /** A crossed or unclosed group, or a stray closer, zeroes the line. */
  lemma MalformedLines()
    ensures LineScore("(]") == 0 && LineScore("()(") == 0 && LineScore("())") == 0
  {
  }

  /** A carriage return at the top level keeps the total and ends the scan,
      so nothing after it is read; any other non-opener there zeroes the
      total; the empty line scores 0. */
  lemma TrailingCharacters()
    ensures LineScore("()\r") == 1 && LineScore("() ") == 0 && LineScore("") == 0
    ensures LineScore("()\r(]") == 1
  {
  }
  /** n nested round brackets: n openers followed by n closers. */
  function Deep(n: nat): (s: string)
    ensures |s| == 2 * n
    ensures forall k :: 0 <= k < n ==> s[k] == '('
    ensures forall k :: n <= k < 2 * n ==> s[k] == ')'
  {
    seq(n, _ => '(') + seq(n, _ => ')')
  }

  /** Every level of a deep nesting is a group of score 1 whose closer mirrors
      its opener. */
  lemma {:induction false} DeepGroup(n: nat, k: int)
    requires 0 <= k < n
    ensures Group(Deep(n), k) == Outcome(1, 2 * n - 1 - k)
    decreases n - k
  {
    var s := Deep(n);
    if k < n - 1 {
      DeepGroup(n, k + 1);
      assert Group(s, k) == Inner(s, k, 2 * n - 1 - k, 1);
    }
  }

  /** However deep the nesting, the line scores 1. */
  lemma DeepNestingScoresOne(n: nat)
    requires n >= 1
    ensures LineScore(Deep(n)) == 1
  {
    var s := Deep(n);
    DeepGroup(n, 0);
    assert s[0] == '(';
    assert Scan(s, 0, 0) == Scan(s, 2 * n, 1);
  }
}
