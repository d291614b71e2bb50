/**
 * `next_move`: the engine's choice of a root move, from the opening book or from the
 * gathered search results of all root moves.
 */
module Selection {
  import opened Wrappers
  import opened Moves

  /** Candidates must score strictly less than this far from the best score. */
  const Window: int := 51

  /** What a worker sends back for one root move: the best reply (if any), its score and the depth reached. */
  datatype SearchResult = SearchResult(reply: Option<Move>, score: int, depth: int)

  /** A root move whose search found a reply, with that reply, its score and the depth reached. */
  datatype Entry = Entry(move: Move, reply: Move, score: int, depth: int)

  /** `min` of an empty list raises: no root move has a usable search result. */
  datatype SelectError = NoSolution

  function ScoreOf(e: Entry): int { e.score }

  function DepthOf(e: Entry): int { e.depth }

  function Abs(x: int): int { if x < 0 then -x else x }

  /** The entry a received result with a reply stands for. */
  function AsEntry(x: (Move, SearchResult)): Entry
    requires x.1.reply.Some?
  {
    Entry(x.0, x.1.reply.value, x.1.score, x.1.depth)
  }

  /** The entries kept from the received results, in arrival order: those whose reply is not `None`. */
  function Kept(received: seq<(Move, SearchResult)>): (r: seq<Entry>)
    ensures |r| <= |received|
    ensures forall e :: e in r ==> (e.move, SearchResult(Some(e.reply), e.score, e.depth)) in received
    ensures forall i :: 0 <= i < |received| && received[i].1.reply.Some? ==>
      AsEntry(received[i]) in r
  {
    if received == [] then []
    else
      var rest := Kept(received[..|received| - 1]);
      var last := received[|received| - 1];
      if last.1.reply.Some? then rest + [AsEntry(last)] else rest
  }

  /** One more result appends its entry to the kept list when it has a reply. */
  lemma KeptSnoc(received: seq<(Move, SearchResult)>)
    requires |received| > 0
    ensures Kept(received) == Kept(received[..|received| - 1]) +
      (if received[|received| - 1].1.reply.Some? then [AsEntry(received[|received| - 1])] else [])
  {
  }

  /** The positions of the received results that have a reply, in increasing order. */
  function KeptPositions(received: seq<(Move, SearchResult)>): seq<int>
  {
    if received == [] then []
    else
      var n := |received| - 1;
      KeptPositions(received[..n]) + if received[n].1.reply.Some? then [n] else []
  }

  /**
   * `Kept` keeps the order of arrival: the kept entries come, in order, from strictly
   * increasing positions of the received results.
   */
  lemma {:induction false} KeptPositionsSound(received: seq<(Move, SearchResult)>)
    ensures |KeptPositions(received)| == |Kept(received)|
    ensures forall k :: 0 <= k < |KeptPositions(received)| ==>
      var i := KeptPositions(received)[k];
      0 <= i < |received| && received[i].1.reply.Some? && AsEntry(received[i]) == Kept(received)[k]
    ensures forall a, b :: 0 <= a < b < |KeptPositions(received)| ==>
      KeptPositions(received)[a] < KeptPositions(received)[b]
  {
    if received != [] {
      var n := |received| - 1;
      var front := received[..n];
      KeptPositionsSound(front);
      KeptSnoc(received);
      var idx', idx := KeptPositions(front), KeptPositions(received);
      var r', r := Kept(front), Kept(received);
      forall k | 0 <= k < |idx|
        ensures 0 <= idx[k] < |received| && received[idx[k]].1.reply.Some?
        ensures AsEntry(received[idx[k]]) == r[k]
      {
        if k < |idx'| {
          assert idx[k] == idx'[k] && r[k] == r'[k];
          assert received[idx'[k]] == front[idx'[k]];
        }
      }
    }
  }

  /** Every received result with a reply has its position among the kept positions. */
  lemma {:induction false} KeptPositionsComplete(received: seq<(Move, SearchResult)>)
    ensures forall i :: 0 <= i < |received| && received[i].1.reply.Some? ==> i in KeptPositions(received)
  {
    if received != [] {
      var n := |received| - 1;
      var front := received[..n];
      KeptPositionsComplete(front);
      forall i | 0 <= i < n && received[i].1.reply.Some? ensures i in KeptPositions(received) {
        assert front[i] == received[i];
      }
    }
  }

  /** Python's `min(s, key=key)`, as an index: the first position whose key is minimal. */
  function ArgMin(s: seq<Entry>, key: Entry -> int): (k: nat)
    requires |s| > 0
    ensures k < |s|
    ensures forall j :: 0 <= j < |s| ==> key(s[k]) <= key(s[j])
    ensures forall j :: 0 <= j < k ==> key(s[k]) < key(s[j])
  {
    if |s| == 1 then 0
    else
      var k := ArgMin(s[..|s| - 1], key);
      if key(s[|s| - 1]) < key(s[k]) then |s| - 1 else k
  }

  /** A list comprehension with a condition: the entries of `s` satisfying `p`, in order. */
  function Filter(s: seq<Entry>, p: Entry -> bool): (r: seq<Entry>)
    ensures |r| <= |s|
    ensures forall e :: e in r <==> e in s && p(e)
  {
    if s == [] then []
    else
      var rest := Filter(s[..|s| - 1], p);
      var last := s[|s| - 1];
      assert s == s[..|s| - 1] + [last];
      if p(last) then rest + [last] else rest
  }

  /** The positions of `s` whose element satisfies `p`, in increasing order. */
  function FilterPositions(s: seq<Entry>, p: Entry -> bool): seq<int>
  {
    if s == [] then []
    else
      var n := |s| - 1;
      FilterPositions(s[..n], p) + if p(s[n]) then [n] else []
  }

  /**
   * The comprehension keeps order and duplicates: the elements of `Filter(s, p)` stand, in
   * order, at strictly increasing positions of `s`.
   */
  lemma {:induction false} FilterPositionsSound(s: seq<Entry>, p: Entry -> bool)
    ensures |FilterPositions(s, p)| == |Filter(s, p)|
    ensures forall k :: 0 <= k < |FilterPositions(s, p)| ==>
      0 <= FilterPositions(s, p)[k] < |s| && s[FilterPositions(s, p)[k]] == Filter(s, p)[k]
    ensures forall a, b :: 0 <= a < b < |FilterPositions(s, p)| ==>
      FilterPositions(s, p)[a] < FilterPositions(s, p)[b]
  {
    if s != [] {
      var n := |s| - 1;
      var front := s[..n];
      FilterPositionsSound(front, p);
      var idx', idx := FilterPositions(front, p), FilterPositions(s, p);
      var r', r := Filter(front, p), Filter(s, p);
      assert r == r' + if p(s[n]) then [s[n]] else [];
      forall k | 0 <= k < |idx| ensures 0 <= idx[k] < |s| && s[idx[k]] == r[k] {
        if k < |idx'| {
          assert idx[k] == idx'[k] && r[k] == r'[k];
          assert s[idx'[k]] == front[idx'[k]];
        }
      }
    }
  }

  /** Every position whose element satisfies `p` is among the filter's positions. */
  lemma {:induction false} FilterPositionsComplete(s: seq<Entry>, p: Entry -> bool)
    ensures forall i :: 0 <= i < |s| && p(s[i]) ==> i in FilterPositions(s, p)
  {
    if s != [] {
      var n := |s| - 1;
      var front := s[..n];
      FilterPositionsComplete(front, p);
      forall i | 0 <= i < n && p(s[i]) ensures i in FilterPositions(s, p) {
        assert front[i] == s[i];
      }
    }
  }

  /**
   * Python's `min` over a comprehension picks, in the order of the comprehension's input,
   * the first element satisfying the condition whose key is minimal.
   */
  lemma FirstMinPosition(s: seq<Entry>, p: Entry -> bool, key: Entry -> int) returns (i: int)
    requires |Filter(s, p)| > 0
    ensures 0 <= i < |s| && s[i] == Filter(s, p)[ArgMin(Filter(s, p), key)]
    ensures forall j :: 0 <= j < i && p(s[j]) ==> key(s[j]) > key(s[i])
  {
    var r := Filter(s, p);
    var k := ArgMin(r, key);
    FilterPositionsSound(s, p);
    FilterPositionsComplete(s, p);
    var idx := FilterPositions(s, p);
    i := idx[k];
    forall j | 0 <= j < i && p(s[j]) ensures key(s[j]) > key(s[i]) {
      var m :| 0 <= m < |idx| && idx[m] == j;
      assert key(r[k]) < key(r[m]);
    }
  }

  predicate Sorted(s: seq<Entry>)
  {
    forall i, j :: 0 <= i < j < |s| ==> s[i].score <= s[j].score
  }

  /** Inserts `e` into a score-sorted list after every entry that does not score more. */
  function Insert(e: Entry, t: seq<Entry>): (r: seq<Entry>)
    requires Sorted(t)
    ensures Sorted(r)
    ensures multiset(r) == multiset(t) + multiset{e}
  {
    if t == [] then [e]
    else
      var front, last := t[..|t| - 1], t[|t| - 1];
      assert t == front + [last];
      if last.score <= e.score then t + [e]
      else
        var r' := Insert(e, front);
        assert forall y :: y in r' ==> y.score <= last.score by {
          forall y | y in r' ensures y.score <= last.score {
            assert y in multiset(r');
            assert y in multiset(front) || y == e;
          }
        }
        r' + [last]
  }

  /** Python's `sorted(s, key=score)`, by insertion. */
  function SortByScore(s: seq<Entry>): (r: seq<Entry>)
    ensures Sorted(r)
    ensures multiset(r) == multiset(s)
  {
    if s == [] then []
    else
      assert s == s[..|s| - 1] + [s[|s| - 1]];
      Insert(s[|s| - 1], SortByScore(s[..|s| - 1]))
  }

  /** `best_move`: the first kept entry of minimal score. */
  function Best(kept: seq<Entry>): (b: Entry)
    requires |kept| > 0
    ensures b in kept && forall e :: e in kept ==> b.score <= e.score
  {
    kept[ArgMin(kept, ScoreOf)]
  }

  /** The kept entries whose score is below `-mateValue`: the replying side is mated. */
  function Decisive(kept: seq<Entry>, mateValue: int): (d: seq<Entry>)
    ensures forall e :: e in d <==> e in kept && e.score < -mateValue
  {
    Filter(kept, DecisiveTest(mateValue))
  }

  /** The condition of the mate-branch comprehension. */
  function DecisiveTest(mateValue: int): Entry -> bool
  {
    (e: Entry) => e.score < -mateValue
  }

  /** The decisive entry `next_move` plays: the first one of minimal depth among them. */
  function DecisiveChoice(kept: seq<Entry>, mateValue: int): (c: Entry)
    requires |kept| > 0 && Best(kept).score < -mateValue
    ensures c in kept && c.score < -mateValue
  {
    var d := Decisive(kept, mateValue);
    assert Best(kept) in d;
    d[ArgMin(d, DepthOf)]
  }

  /** The kept entries scoring strictly within the window of the best score, in order. */
  function Near(kept: seq<Entry>): (n: seq<Entry>)
    requires |kept| > 0
    ensures forall e :: e in n <==> e in kept && Abs(e.score - Best(kept).score) < Window
  {
    var best := Best(kept).score;
    Filter(kept, (e: Entry) => Abs(e.score - best) < Window)
  }

  /** `candidate_moves`: the kept entries scoring strictly within the window of the best score, sorted by score. */
  function CandidateList(kept: seq<Entry>): (c: seq<Entry>)
    requires |kept| > 0
    ensures Sorted(c)
  {
    SortByScore(Near(kept))
  }

  /** Sorting keeps exactly the entries of its input. */
  lemma SortByScoreMembers(s: seq<Entry>)
    ensures forall e :: e in SortByScore(s) <==> e in s
  {
    var r := SortByScore(s);
    forall e ensures e in r <==> e in s {
      assert e in r <==> e in multiset(r);
      assert e in s <==> e in multiset(s);
    }
  }

  /** The best entry scores no more than any kept entry and comes first among those of its score. */
  lemma BestIsFirstMinimum(kept: seq<Entry>)
    requires |kept| > 0
    ensures Best(kept) in kept
    ensures forall e :: e in kept ==> Best(kept).score <= e.score
    ensures exists k :: (0 <= k < |kept| && kept[k] == Best(kept) &&
      forall j :: 0 <= j < k ==> kept[j].score > Best(kept).score)
  {
  }

  /**
   * The candidate list holds the best entry, holds exactly the kept entries scoring in
   * [best, best + 50], and is sorted by score.
   */
  lemma CandidateListProperties(kept: seq<Entry>)
    requires |kept| > 0
    ensures Best(kept) in CandidateList(kept)
    ensures forall c :: c in CandidateList(kept) ==>
      c in kept && Best(kept).score <= c.score && c.score <= Best(kept).score + Window - 1
    ensures forall e :: e in kept && e.score < Best(kept).score + Window ==> e in CandidateList(kept)
    ensures Sorted(CandidateList(kept))
  {
    BestIsFirstMinimum(kept);
    SortByScoreMembers(Near(kept));
  }

  /**
   * The decisive choice is a kept entry below `-mateValue`, of depth no greater than any
   * other such entry, and, in the order of the kept entries, the first such entry of its depth.
   */
  lemma DecisiveChoiceProperties(kept: seq<Entry>, mateValue: int)
    requires |kept| > 0 && Best(kept).score < -mateValue
    ensures DecisiveChoice(kept, mateValue) in kept
    ensures DecisiveChoice(kept, mateValue).score < -mateValue
    ensures forall e :: e in kept && e.score < -mateValue ==> DecisiveChoice(kept, mateValue).depth <= e.depth
    ensures exists i :: (0 <= i < |kept| && kept[i] == DecisiveChoice(kept, mateValue) &&
      forall j :: 0 <= j < i && kept[j].score < -mateValue ==>
        kept[j].depth > DecisiveChoice(kept, mateValue).depth)
  {
    var i := DecisiveChoiceFirst(kept, mateValue);
  }

  /** The position in `kept` of the decisive choice, with no decisive entry of its depth or less before it. */
  lemma DecisiveChoiceFirst(kept: seq<Entry>, mateValue: int) returns (i: int)
    requires |kept| > 0 && Best(kept).score < -mateValue
    ensures 0 <= i < |kept| && kept[i] == DecisiveChoice(kept, mateValue)
    ensures forall j :: 0 <= j < i && kept[j].score < -mateValue ==>
      kept[j].depth > DecisiveChoice(kept, mateValue).depth
  {
    var p := DecisiveTest(mateValue);
    assert Best(kept) in Filter(kept, p);
    i := FirstMinPosition(kept, p, DepthOf);
    forall j | 0 <= j < i && kept[j].score < -mateValue
      ensures kept[j].depth > DecisiveChoice(kept, mateValue).depth
    {
      assert p(kept[j]);
    }
  }

  /**
   * `best_move` is, in the order the results arrived, the first result with a reply whose
   * score is minimal.
   */
  lemma BestInArrivalOrder(received: seq<(Move, SearchResult)>)
    requires Kept(received) != []
    ensures exists i :: (0 <= i < |received| && received[i].1.reply.Some? &&
      AsEntry(received[i]) == Best(Kept(received)) &&
      forall j :: 0 <= j < i && received[j].1.reply.Some? ==>
        received[j].1.score > Best(Kept(received)).score)
  {
    var i := KeptFirstMinPosition(received, ScoreOf);
    assert forall j :: 0 <= j < i && received[j].1.reply.Some? ==>
      ScoreOf(AsEntry(received[j])) > ScoreOf(AsEntry(received[i]));
  }

  /** `min` over `next_moves` picks, in arrival order, the first result with a reply whose key is minimal. */
  lemma KeptFirstMinPosition(received: seq<(Move, SearchResult)>, key: Entry -> int) returns (i: int)
    requires |Kept(received)| > 0
    ensures 0 <= i < |received| && received[i].1.reply.Some?
    ensures AsEntry(received[i]) == Kept(received)[ArgMin(Kept(received), key)]
    ensures forall j :: 0 <= j < i && received[j].1.reply.Some? ==>
      key(AsEntry(received[j])) > key(AsEntry(received[i]))
  {
    var r := Kept(received);
    var k := ArgMin(r, key);
    KeptPositionsSound(received);
    KeptPositionsComplete(received);
    var idx := KeptPositions(received);
    i := idx[k];
    forall j | 0 <= j < i && received[j].1.reply.Some?
      ensures key(AsEntry(received[j])) > key(AsEntry(received[i]))
    {
      var m :| 0 <= m < |idx| && idx[m] == j;
      assert key(r[k]) < key(r[m]);
    }
  }

  /** The opening book has a nonempty move list for the position: Python's `if opening_moves:`. */
  predicate BookHit<P(==)>(book: map<P, seq<Move>>, pos: P)
  {
    pos in book && |book[pos]| > 0
  }

  /**
   * The fan-in of `next_move`: takes `n` results off the result queue and keeps those
   * with a reply.
   */
  method Gather(n: nat, arrivals: seq<(Move, SearchResult)>) returns (kept: seq<Entry>)
    requires |arrivals| >= n
    ensures kept == Kept(arrivals[..n])
  {
    kept := [];
    var i := 0;
    while i < n
      invariant 0 <= i <= n
      invariant kept == Kept(arrivals[..i])
    {
      assert arrivals[..i + 1][..i] == arrivals[..i];
      var result := arrivals[i];
      if result.1.reply.Some? {
        kept := kept + [AsEntry(result)];
      }
      i := i + 1;
    }
  }

  /**
   * `next_move`. `validMoves` stands for `pos.valid_moves()`, `arrivals` for what the
   * workers put on the result queue, in arrival order, and `mateValue` for `MATE_VALUE`.
   * The random picks are nondeterministic choices. `consumed` is the number of results
   * taken off the result queue.
   */
  method NextMove<P(==)>(pos: P, book: map<P, seq<Move>>, validMoves: seq<Move>,
                         arrivals: seq<(Move, SearchResult)>, mateValue: int)
    returns (r: Result<Move, SelectError>, consumed: nat)
    requires !BookHit(book, pos) ==> |arrivals| >= |validMoves|
    ensures BookHit(book, pos) ==> consumed == 0 && r.Success? && r.value in book[pos]
    ensures !BookHit(book, pos) ==> consumed == |validMoves|
    ensures !BookHit(book, pos) && Kept(arrivals[..|validMoves|]) == [] ==> r == Failure(NoSolution)
    ensures !BookHit(book, pos) && Kept(arrivals[..|validMoves|]) != [] ==>
      var kept := Kept(arrivals[..|validMoves|]);
      if Best(kept).score < -mateValue then r == Success(DecisiveChoice(kept, mateValue).move)
      else r.Success? && exists c :: c in CandidateList(kept) && c.move == r.value
    ensures !BookHit(book, pos) && r.Success? &&
            (forall i :: 0 <= i < |validMoves| ==> arrivals[i].0 in validMoves) ==>
              r.value in validMoves
  {
    if BookHit(book, pos) {
      assert book[pos][0] in book[pos];
      var m :| m in book[pos];
      return Success(m), 0;
    }
    var kept := Gather(|validMoves|, arrivals);
    consumed := |validMoves|;
    if kept == [] {
      return Failure(NoSolution), consumed;
    }
    ghost var allValid := forall i :: 0 <= i < |validMoves| ==> arrivals[i].0 in validMoves;
    if allValid {
      KeptMovesReceived(arrivals[..|validMoves|], validMoves);
    }
    if Best(kept).score < -mateValue {
      r := Success(DecisiveChoice(kept, mateValue).move);
      DecisiveChoiceProperties(kept, mateValue);
      return;
    }
    CandidateListProperties(kept);
    var candidates := CandidateList(kept);
    var c :| c in candidates;
    r := Success(c.move);
  }

  /** Every kept entry is for a root move that some received result carries. */
  lemma KeptMovesReceived(received: seq<(Move, SearchResult)>, moves: seq<Move>)
    requires forall i :: 0 <= i < |received| ==> received[i].0 in moves
    ensures forall e :: e in Kept(received) ==> e.move in moves
  {
  }

}
