# Bracket scorer and vote tracker, modelled in Dafny

This project models two small C++ programs from the `coding_quiz` repository.

**Bracket calculation.** `BracketCalculator` scores lines made of the three bracket families `(`, `{` and `[`:

- An atomic pair scores its opener's base value: 1 for `(`, 2 for `{`, 3 for `[`.
- A group holding nested groups scores its base value times the sum of those groups.
- The groups at the top level of a line are added.
- Every combination is reduced modulo 100000000.
- Any failure scores 0 and zeroes the whole line. Failures are an unmatched or crossed bracket, a stray character, or the end of the line inside a group.
- A carriage return at the top level ends the scan and keeps the line's total, whatever follows it.

The scorer is a recursive descent that shares one mutable cursor, `processing_index_`. Each line's score is appended to a result vector.

**Vote program.** `VoteTracker` counts ballots per name. It keeps the highest count and the set of names holding it up to date after every ballot, without rescanning the counts.

Modules:

- `BracketCalculation` (`bracket_calculation.dfy`) holds the scorer.
  - Its specification is the pure functions `Group`, `Inner` and `Scan`. Each returns an `Outcome`: a score, where 0 means failure, and the position where the cursor stopped.
  - The class `BracketCalculator` keeps the C++ class's fields `processingIndex`, `processingString` and `results`.
  - Its methods `CalculationImpl` and `Calculate` keep the C++ loops and its recursion over the shared cursor. They are proved to compute exactly those functions.
  - `At` is the character lookup. At index `|s|` it yields the end-of-input mark `'\0'`, which is what indexing a `std::string` at its own length gives.
- `BracketReference` (`bracket_reference.dfy`) is an independent reference for the scorer.
  - It describes well-formed lines as trees of bracket groups and scores them structurally (`Score`, `SumFrom`). Each tree records which of its family's two admitted closers ends it.
  - It proves that the scorer computes that score on the rendering of any forest in which no group scores 0.
  - Conversely, it proves that every group and every line that scores non-zero is such a rendering, so every other line scores 0.
  - It also proves what happens to trailing text, and that a group which fails zeroes the line.
- `VoteProgram` (`vote_program.dfy`) holds the vote tracker.
  - `Board` is the tracker's state as a value.
  - `Vote` is one ballot and `Promote` is `UpdateVoteStatus`.
  - `Tracks` is the invariant the tracker keeps.
  - The class `VoteTracker` keeps the C++ class's three fields, with `map` for the `unordered_map` and `set` for the `std::set`. `AddVote` performs exactly `Vote` and keeps `Tracks`; `UpdateVoteStatus` performs exactly `Promote`.
  - `MaxOver` recomputes the highest count by rescanning. `Replay` casts a whole sequence of ballots. Both serve as independent references for the incremental bookkeeping.

`IsMatching` keeps the code's character-code test, which accepts a closer one or two code points above the opener. So `(` is also closed by `*`, `[` by `\`, and `{` by `|`. `MatchingClosers` lists them.

Two behaviours of the code are kept as they are:

- A score of 0 doubles as the failure mark. A well-formed nested group whose score wraps to exactly 0 modulo 100000000 therefore makes the group around it fail (`ZeroScoreFailsEnclosing`).
- An inner sum that wraps to 0 makes a group score only its base value, as an atomic pair does (`Close`).

## Model

| member | source | states |
|---|---|---|
| BracketCalculation.ValueFrom | BracketCalculation/bracket_calculation.cc:132-146 | defined only on openers; 1 exactly for `(`, 2 exactly for `{`, 3 exactly for `[` |
| BracketCalculation.IsOpener | BracketCalculation/bracket_calculation.cc:124-126 | the three openers; none of them is the end-of-input mark or a carriage return |
| BracketCalculation.IsMatching | BracketCalculation/bracket_calculation.cc:128-130 | a closer of an opener, one or two code points above it, is never an opener, the end-of-input mark or a carriage return |
| BracketCalculation.At | BracketCalculation/bracket_calculation.cc:108 | the character under the cursor, and the end-of-input mark when the cursor is at the line's length |
| BracketCalculation.MatchingClosers | BracketCalculation/bracket_calculation.cc:128-130 | the code-point test admits exactly `)` and `*` after `(`, `\` and `]` after `[`, the vertical bar and `}` after `{` |
| BracketCalculation.Close | BracketCalculation/bracket_calculation.cc:110-112 | a group's closing value always lies in [0, 100000000) |
| BracketCalculation.ProductFits | BracketCalculation/bracket_calculation.cc:112 | a base value times an inner sum fits in a 32-bit int, so the product never overflows |
| BracketCalculation.Group | BracketCalculation/bracket_calculation.cc:103-122 | a group's score lies in [0, 100000000); the cursor ends strictly past the opener and at most at the line's length, and inside the line on success |
| BracketCalculation.Inner | BracketCalculation/bracket_calculation.cc:107-121 | the loop of a group: score in range, cursor never moves back and never passes the end-of-input mark |
| BracketCalculation.InnerCloses | BracketCalculation/bracket_calculation.cc:109-112 | on a matching closer the group ends there, with its base value if the inner sum is 0 and with base times inner sum modulo 100000000 otherwise |
| BracketCalculation.InnerNested | BracketCalculation/bracket_calculation.cc:113-117 | a nested group that fails makes the enclosing group fail where it stopped; one that succeeds adds its score modulo 100000000 and the loop resumes past its closer |
| BracketCalculation.InnerStops | BracketCalculation/bracket_calculation.cc:118-120 | any character that is neither the matching closer nor an opener, the end-of-input mark included, fails the group on that character |
| BracketCalculation.InnerEndsOnCloser | BracketCalculation/bracket_calculation.cc:107-121 | whenever the loop of a group succeeds, it stops on a character that closes the group's opener |
| BracketCalculation.GroupEndsOnCloser | BracketCalculation/bracket_calculation.cc:103-112 | a group that scores non-zero leaves the cursor on its own closer |
| BracketCalculation.Scan | BracketCalculation/bracket_calculation.cc:71-92 | the top-level scan keeps its total in [0, 100000000) and stops within the line |
| BracketCalculation.LineScore | BracketCalculation/bracket_calculation.cc:67-95 | a line's score lies in [0, 100000000) |
| BracketCalculation.BracketCalculator.constructor | BracketCalculation/bracket_calculation.cc:62-64 | a new calculator has cursor 0, an empty string and no results |
| BracketCalculation.BracketCalculator.Calculate | BracketCalculation/bracket_calculation.cc:67-95 | appends exactly the line's score to the results and keeps the earlier ones; leaves the cursor where the top-level scan stopped |
| BracketCalculation.BracketCalculator.CalculationImpl | BracketCalculation/bracket_calculation.cc:103-122 | from a cursor on an opener, returns the group's score and leaves the shared cursor where the group stopped; changes nothing but the cursor |
| BracketCalculation.AtomicPairs | BracketCalculation/bracket_calculation.cc:109-111 | `()`, `{}`, `[]` score 1, 2, 3, and so do `(*`, `{` followed by a vertical bar, and `[\` |
| BracketCalculation.NestedSquare | BracketCalculation/bracket_calculation.cc:112 | `([])` scores 1 times 3 |
| BracketCalculation.NestedSiblings | BracketCalculation/bracket_calculation.cc:112-117 | `({}[])` scores 1 times (2 + 3) |
| BracketCalculation.InnerSiblings | BracketCalculation/bracket_calculation.cc:112-117 | `(()())` scores 1 times (1 + 1) |
| BracketCalculation.TopLevelSiblings | BracketCalculation/bracket_calculation.cc:76-84 | `()()` scores 1 + 1 |
| BracketCalculation.MalformedLines | BracketCalculation/bracket_calculation.cc:78-91 | `(]`, `()(` and `())` score 0 |
| BracketCalculation.TrailingCharacters | BracketCalculation/bracket_calculation.cc:85-91 | a top-level carriage return keeps the total and ends the scan (`()\r` and `()\r(]` score 1); a trailing space zeroes it; the empty line scores 0 |
| BracketCalculation.DeepGroup | BracketCalculation/bracket_calculation.cc:103-121 | at every depth of n nested round brackets, the group scores 1 and ends on the mirror-image closer |
| BracketCalculation.DeepNestingScoresOne | BracketCalculation/bracket_calculation.cc:67-95 | n nested round brackets, n openers followed by n closers, score 1 for every n >= 1 |
| BracketReference.KindTable | BracketCalculation/bracket_calculation.cc:124-146 | each family's opener is an opener with the family's base value, and both of its closers match it and are neither openers nor carriage returns |
| BracketReference.GroupComputesScore | BracketCalculation/bracket_calculation.cc:103-122 | a rendered tree with no zero-scoring group inside scores its structural score and stops on its last character |
| BracketReference.InnerSkipsChildren | BracketCalculation/bracket_calculation.cc:107-117 | inside a group, a run of rendered groups adds their left-to-right sum modulo 100000000 and moves the cursor just past them |
| BracketReference.ScanSkipsForest | BracketCalculation/bracket_calculation.cc:72-84 | at the top level, a run of rendered groups adds their sum and moves the cursor just past them |
| BracketReference.LineScoreOfForest | BracketCalculation/bracket_calculation.cc:67-95 | a rendered forest scores the sum of its trees, including when a carriage return follows; any other non-opener after it zeroes the line |
| BracketReference.FailedGroupZeroesLine | BracketCalculation/bracket_calculation.cc:76-80 | the first top-level group that fails zeroes the line, whatever follows it |
| BracketReference.ZeroScoreFailsEnclosing | BracketCalculation/bracket_calculation.cc:113-116 | a well-formed nested group whose score wraps to 0 makes its enclosing group and the line score 0 |
| BracketReference.ClosersInTable | BracketCalculation/bracket_calculation.cc:128-130 | every character that closes an opener is one of that family's two tabled closers |
| BracketReference.ParseGroup | BracketCalculation/bracket_calculation.cc:103-122 | a group that scores non-zero is the rendering of a tree with no zero-scoring group inside, and scores that tree's score |
| BracketReference.ParseInner | BracketCalculation/bracket_calculation.cc:107-121 | a group body that succeeds is a run of rendered children followed by one of the opener's closers, and closes with their sum |
| BracketReference.ParseScan | BracketCalculation/bracket_calculation.cc:71-92 | a top-level scan that succeeds is a run of rendered groups ending at the end of the line or on a carriage return, and totals their sum |
| BracketReference.GroupIsRenderedTree | BracketCalculation/bracket_calculation.cc:103-122 | whenever a group scores non-zero, some tree renders it and the group scores that tree's structural score |
| BracketReference.LineIsRenderedForest | BracketCalculation/bracket_calculation.cc:67-95 | whenever a line scores non-zero, it is a rendered forest with no zero-scoring group, followed by nothing or by a carriage return, and scores the forest's sum |
| VoteProgram.Promote | VoteProgram/vote_program.cc:95-105 | defined only for a vote at least the current top; afterwards top is the vote; above the old top the leaders become exactly the one name, and at an equal vote the name is added to the old leaders; counts are untouched |
| VoteProgram.Vote | VoteProgram/vote_program.cc:72-87 | a new name gets count 1 and a known name's count goes up by exactly 1; every other count is unchanged; top never decreases |
| VoteProgram.FreshTracks | VoteProgram/vote_program.cc:69-70 | a fresh tracker, with top 0, no leaders and no counts, satisfies the invariant |
| VoteProgram.VoteKeepsTracking | VoteProgram/vote_program.cc:79-85 | after a ballot, top is still the highest count, or 0 when there are none, and the leaders are exactly the names at top |
| VoteProgram.VoteRaisesTop | VoteProgram/vote_program.cc:79-101 | after a ballot, top is the larger of the old top and the voted name's new count; that name leads exactly when its count reached top |
| VoteProgram.MaxOver | VoteProgram/vote_program.cc:13-21 | a rescan's result is at least every count, and is 0 or one of the counts |
| VoteProgram.TopIsMaxOfCounts | VoteProgram/vote_program.cc:13-21 | the incrementally kept top and leaders equal what a full rescan of the counts would give |
| VoteProgram.ReplayTracks | VoteProgram/vote_program.cc:72-105 | after any sequence of ballots on a fresh tracker, the invariant holds |
| VoteProgram.ReplayCounts | VoteProgram/vote_program.cc:72-86 | after any sequence of ballots, each name's count is the number of ballots cast for it, and the names counted are exactly those on some ballot |
| VoteProgram.ReplayElects | VoteProgram/vote_program.cc:13-21 | after any sequence of ballots, top is the largest number of ballots any name received (0 when there were none), and the leaders are exactly the names that received it |
| VoteProgram.VoteTracker.constructor | VoteProgram/vote_program.cc:69-70 | a new tracker is fresh and satisfies the invariant |
| VoteProgram.VoteTracker.AddVote | VoteProgram/vote_program.cc:72-87 | performs exactly one ballot on the tracker's state, keeps the invariant, and never lowers the top count |
| VoteProgram.VoteTracker.UpdateVoteStatus | VoteProgram/vote_program.cc:95-105 | requires a vote at least the top count; above it the name becomes the only leader at that count; at it the name joins the leaders and nothing else changes |

## Left out

- Reading input is not modelled: `InputStreamHelper` in both programs and its file-input build variant are stream and file I/O. They appear at BracketCalculation/bracket_calculation.cc:151-185 and VoteProgram/vote_program.cc:110-136.
- Both `main` functions are not modelled. They only read lines and pass them to the classes. `Replay` stands in for the vote program's loop of `AddVote` calls.
- `PrintResults` and `PrintMostVotedPeople` are not modelled, because they only write to standard output. The order in which `std::set` prints names is therefore not captured either.
- The empty destructors are not modelled.
- Stack exhaustion on very deeply nested lines is not modelled; it is a property of the C++ call stack. In the model, recursion ends on `|processingString| - processingIndex`.
- The hashing and performance of `std::unordered_map` are not modelled. It is a `map<string, int>`.
- BracketCalculation.BracketCalculator.Calculate: the cursor and the line length are unbounded integers. The C++ code keeps them in a 32-bit `int`, which lines longer than 2147483647 characters would overflow. Scores themselves never overflow: the model proves every sum and product stays below 2^31.
- VoteProgram.Vote: counts are unbounded integers. The C++ code's 32-bit `int` count would overflow after 2147483647 ballots for one name.
- Characters are Dafny `char` values. C++ `char` may be signed, but no byte above 127 equals an opener's code plus 1 or 2, so the scoring is the same.
