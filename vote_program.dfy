/** Model of the incremental vote tracker: every ballot bumps one name's
    count, and the tracker keeps the highest count and the set of names
    holding it up to date as it goes, without rescanning the counts.

    Board is the tracker's state as a value and Vote is one ballot on it;
    the class VoteTracker keeps the three fields of the C++ class and its
    methods are proved to perform exactly Vote and Promote. */
module VoteProgram {

  /** The tracker's state: a count per name, the highest count, and the
      names that hold it. */
  datatype Board = Board(votes: map<string, int>, top: int, leaders: set<string>)

  /** A tracker before any ballot. */
  const Fresh: Board := Board(map[], 0, {})

  /** A name's count, 0 for a name never voted for. */
  function CountOf(m: map<string, int>, name: string): int {
    if name in m then m[name] else 0
  }

  /** The names whose count is exactly v. */
  function LeadersAt(m: map<string, int>, v: int): set<string> {
    set n | n in m && m[n] == v
  }

  /** What the tracker promises between ballots: every counted name has a
      positive count no larger than top, top is 0 on an empty board and is
      some name's count otherwise, and leaders are exactly the names at top. */
  ghost predicate Tracks(b: Board) {
    && (forall n :: n in b.votes ==> 1 <= b.votes[n] <= b.top)
    && (b.votes == map[] ==> b.top == 0)
    && (b.votes != map[] ==> exists n :: n in b.votes && b.votes[n] == b.top)
    && b.leaders == LeadersAt(b.votes, b.top)
  }

  /** A name reaching count vote, which is at least the current top: above
      top it becomes the only leader, at top it joins the leaders. */
  function Promote(b: Board, name: string, vote: int): (r: Board)
    requires vote >= b.top
    ensures r.votes == b.votes
    ensures r.top == vote && name in r.leaders
    ensures vote > b.top ==> r.leaders == {name}
    ensures vote == b.top ==> r.leaders == b.leaders + {name}
  {
    if vote > b.top then b.(top := vote, leaders := {name})
    else b.(leaders := b.leaders + {name})
  }

  /** One ballot for name. A new name is counted once and promoted only when
      top is at most 1; a known name is counted once more and promoted when
      its count reaches top. */
  function Vote(b: Board, name: string): (r: Board)
    ensures r.votes.Keys == b.votes.Keys + {name}
    ensures r.votes[name] == CountOf(b.votes, name) + 1
    ensures forall n :: n in b.votes && n != name ==> r.votes[n] == b.votes[n]
    ensures r.top >= b.top
  {
    if name !in b.votes then
      var counted := b.(votes := b.votes[name := 1]);
      if b.top <= 1 then Promote(counted, name, 1) else counted
    else
      var count := b.votes[name] + 1;
      var counted := b.(votes := b.votes[name := count]);
      if count >= b.top then Promote(counted, name, count) else counted
  }

  lemma FreshTracks()
    ensures Tracks(Fresh) && Fresh.leaders == {}
  {
  }

  /** A ballot keeps the tracker's promise. */
  lemma VoteKeepsTracking(b: Board, name: string)
    requires Tracks(b)
    ensures Tracks(Vote(b, name))
  {
    var r := Vote(b, name);
    var c := r.votes[name];
    if c > b.top {
      assert r.top == c;
      forall n | n in r.votes
        ensures r.votes[n] == r.top <==> n == name
      {
        if n != name {
          assert r.votes[n] == b.votes[n] <= b.top;
        }
      }
    } else if c == b.top {
      assert r.top == b.top;
      forall n | n in r.votes
        ensures n in r.leaders <==> r.votes[n] == r.top
      {
        if n != name {
          assert r.votes[n] == b.votes[n];
        }
      }
    } else {
      assert r.top == b.top && r.leaders == b.leaders;
      assert b.votes != map[] by {
        assert b.top > 1;
      }
      var w :| w in b.votes && b.votes[w] == b.top;
      assert w != name && r.votes[w] == b.top;
      forall n | n in r.votes
        ensures n in r.leaders <==> r.votes[n] == r.top
      {
        if n != name {
          assert r.votes[n] == b.votes[n];
        }
      }
    }
  }

  /** After a ballot on a tracking board, top is the larger of the old top
      and the voted name's new count, and that name leads exactly when its
      count reached top. */
  lemma VoteRaisesTop(b: Board, name: string)
    requires Tracks(b)
    ensures Vote(b, name).top ==
              if Vote(b, name).votes[name] > b.top then Vote(b, name).votes[name] else b.top
    ensures name in Vote(b, name).leaders <==> Vote(b, name).votes[name] == Vote(b, name).top
  {
    VoteKeepsTracking(b, name);
    var r := Vote(b, name);
    if r.votes[name] < b.top {
      assert b.votes != map[] by {
        assert b.top > 1;
      }
      assert r.top == b.top;
    }
  }

  /** The highest count among keys, found by rescanning them; 0 for none. */
  ghost function MaxOver(m: map<string, int>, keys: set<string>): (v: int)
    requires keys <= m.Keys
    ensures forall n :: n in keys ==> m[n] <= v
    ensures v == 0 || exists n :: n in keys && m[n] == v
    ensures keys == {} ==> v == 0
    decreases keys
  {
    if keys == {} then 0
    else
      var n :| n in keys;
      var rest := MaxOver(m, keys - {n});
      if m[n] > rest then m[n] else rest
  }

  /** On a tracking board, top is what a full rescan of the counts finds, so
      the incremental bookkeeping agrees with recomputing from scratch. */
  lemma TopIsMaxOfCounts(b: Board)
    requires Tracks(b)
    ensures b.top == MaxOver(b.votes, b.votes.Keys)
    ensures b.leaders == LeadersAt(b.votes, MaxOver(b.votes, b.votes.Keys))
  {
    var v := MaxOver(b.votes, b.votes.Keys);
    if b.votes != map[] {
      var w :| w in b.votes && b.votes[w] == b.top;
      assert b.top <= v;
      assert v != 0;
    } else {
      assert b.votes.Keys == {};
    }
  }

  /** The board after a sequence of ballots, cast in order on a fresh one. */
  function Replay(ballots: seq<string>): (b: Board)
    decreases |ballots|
  {
    if ballots == [] then Fresh
    else Vote(Replay(ballots[..|ballots| - 1]), ballots[|ballots| - 1])
  }

  lemma {:induction false} ReplayTracks(ballots: seq<string>)
    ensures Tracks(Replay(ballots))
    decreases |ballots|
  {
    if ballots != [] {
      ReplayTracks(ballots[..|ballots| - 1]);
      VoteKeepsTracking(Replay(ballots[..|ballots| - 1]), ballots[|ballots| - 1]);
    }
  }

  /** Every name's count is the number of ballots cast for it, and the
      counted names are exactly the names on some ballot. */
  lemma {:induction false} ReplayCounts(ballots: seq<string>)
    ensures Replay(ballots).votes.Keys == set n | n in ballots
    ensures forall n :: CountOf(Replay(ballots).votes, n) == multiset(ballots)[n]
    decreases |ballots|
  {
    if ballots != [] {
      var front, last := ballots[..|ballots| - 1], ballots[|ballots| - 1];
      assert ballots == front + [last];
      ReplayCounts(front);
      assert multiset(ballots) == multiset(front) + multiset{last};
      forall n
        ensures CountOf(Replay(ballots).votes, n) == multiset(ballots)[n]
      {
        if n != last {
          assert CountOf(Replay(ballots).votes, n) == CountOf(Replay(front).votes, n);
        }
      }
    }
  }

  /** From the raw ballots: top is the largest number of ballots any name
      received, and the leaders are exactly the names that received it. */
  lemma ReplayElects(ballots: seq<string>)
    ensures forall n :: n in ballots ==> multiset(ballots)[n] <= Replay(ballots).top
    ensures ballots != [] ==> exists n :: n in ballots && multiset(ballots)[n] == Replay(ballots).top
    ensures ballots == [] ==> Replay(ballots).top == 0
    ensures Replay(ballots).leaders == set n | n in ballots && multiset(ballots)[n] == Replay(ballots).top
  {
    var r := Replay(ballots);
    ReplayTracks(ballots);
    ReplayCounts(ballots);
    forall n | n in ballots
      ensures n in r.votes && multiset(ballots)[n] == r.votes[n]
    {
      assert CountOf(r.votes, n) == multiset(ballots)[n];
    }
    if ballots != [] {
      assert ballots[0] in r.votes;
      var w :| w in r.votes && r.votes[w] == r.top;
      assert w in ballots;
      assert CountOf(r.votes, w) == multiset(ballots)[w];
    }
  }

  class VoteTracker {
    var mostVotedValue: int
    var mostVotedList: set<string>
    var nameToVoteMap: map<string, int>

    ghost function State(): Board
      reads this
    {
      Board(nameToVoteMap, mostVotedValue, mostVotedList)
    }

    ghost predicate Valid()
      reads this
    {
      Tracks(State())
    }

    constructor ()
      ensures Valid() && State() == Fresh
    {
      mostVotedValue := 0;
      mostVotedList := {};
      nameToVoteMap := map[];
    }

    /** Counts one ballot for name and brings the leaders up to date. */
    method AddVote(name: string)
      requires Valid()
      modifies this
      ensures Valid() && State() == Vote(old(State()), name)
      ensures mostVotedValue >= old(mostVotedValue)
    {
      ghost var before := State();
      if name !in nameToVoteMap {
        nameToVoteMap := nameToVoteMap[name := 1];
        if mostVotedValue <= 1 {
          UpdateVoteStatus(name, 1);
        }
      } else {
        var count := nameToVoteMap[name] + 1;
        nameToVoteMap := nameToVoteMap[name := count];
        if count >= mostVotedValue {
          UpdateVoteStatus(name, count);
        }
      }
      VoteKeepsTracking(before, name);
    }

    /** Records that name reached vote, which may not be below the top. */
    method UpdateVoteStatus(name: string, vote: int)
      requires vote >= mostVotedValue
      modifies this`mostVotedValue, this`mostVotedList
      ensures State() == Promote(old(State()), name, vote)
      ensures vote > old(mostVotedValue) ==> mostVotedValue == vote && mostVotedList == {name}
      ensures vote == old(mostVotedValue) ==> mostVotedValue == vote && mostVotedList == old(mostVotedList) + {name}
    {
      if vote > mostVotedValue {
        mostVotedValue := vote;
        mostVotedList := {};
        mostVotedList := mostVotedList + {name};
      } else {
        mostVotedList := mostVotedList + {name};
      }
    }
  }
}
