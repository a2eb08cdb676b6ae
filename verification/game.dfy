/**
 The shared game state of CountNet (node.ts:8-13): the current count, who made the last
 accepted move, the log of accepted moves and the score table, plus the one mutation the
 server performs on it, an accepted move (node.ts:74-80).

 The score table is a JavaScript object, whose entries enumerate in insertion order; it is
 kept here as a sequence of `(ip, count)` pairs in that order.
 */
module Game {
  import opened Wrappers

  /** One history record `[value, mover, timestamp]`. */
  datatype Entry = Entry(value: int, mover: string, time: int)

  /** One score table entry `[ip, count]`. */
  datatype Score = Score(ip: string, count: int)

  datatype GameState = GameState(num: int, lastBy: string, history: seq<Entry>, scores: seq<Score>)

  /** The state a server starts from when no save file can be read. */
  const Initial := GameState(0, "", [], [])

  /** `state.scores[ip]`, or `None` when `ip` has no entry. */
  function Lookup(scores: seq<Score>, ip: string): Option<int> {
    if scores == [] then None
    else if scores[0].ip == ip then Some(scores[0].count)
    else Lookup(scores[1..], ip)
  }

  /** `state.scores[ip] ?? 0`. */
  function ScoreOf(scores: seq<Score>, ip: string): int {
    Lookup(scores, ip).GetOr(0)
  }

  /** No identity has two entries, as keys of an object never do. */
  predicate DistinctIps(scores: seq<Score>) {
    forall i, j :: 0 <= i < j < |scores| ==> scores[i].ip != scores[j].ip
  }

  /** Total of all counts in the table. */
  function Sum(scores: seq<Score>): int {
    if scores == [] then 0 else scores[0].count + Sum(scores[1..])
  }

  /** `if (!scores[ip]) scores[ip] = 0; scores[ip] += 1;`: the entry of `ip` rises by one,
      a new entry `(ip, 1)` is appended when there was none, and nothing else moves. */
  function Bump(scores: seq<Score>, ip: string): (r: seq<Score>)
    ensures Lookup(scores, ip).Some? ==> |r| == |scores|
    ensures Lookup(scores, ip).None? ==> r == scores + [Score(ip, 1)]
    ensures forall i :: 0 <= i < |scores| ==> r[i].ip == scores[i].ip
    ensures forall i :: 0 <= i < |scores| && scores[i].ip != ip ==> r[i] == scores[i]
  {
    if scores == [] then [Score(ip, 1)]
    else if scores[0].ip == ip then [Score(ip, scores[0].count + 1)] + scores[1..]
    else [scores[0]] + Bump(scores[1..], ip)
  }

  /** After the bump `ip` scores one more than before and every other identity the same. */
  lemma {:induction false} BumpLookup(scores: seq<Score>, ip: string, x: string)
    ensures Lookup(Bump(scores, ip), x) == if x == ip then Some(ScoreOf(scores, ip) + 1) else Lookup(scores, x)
  {
    if scores != [] {
      var r := Bump(scores, ip);
      if scores[0].ip == ip {
        assert r[0] == Score(ip, scores[0].count + 1) && r[1..] == scores[1..];
      } else {
        assert r[0] == scores[0] && r[1..] == Bump(scores[1..], ip);
        BumpLookup(scores[1..], ip, x);
      }
    }
  }

  /** The bump adds exactly one point to the table's total. */
  lemma {:induction false} BumpSum(scores: seq<Score>, ip: string)
    ensures Sum(Bump(scores, ip)) == Sum(scores) + 1
  {
    if scores != [] {
      if scores[0].ip == ip {
        assert Bump(scores, ip)[1..] == scores[1..];
      } else {
        BumpSum(scores[1..], ip);
        assert Bump(scores, ip)[1..] == Bump(scores[1..], ip);
      }
    }
  }

  /** Number of history entries made by `ip`. */
  function Occurrences(history: seq<Entry>, ip: string): nat {
    if history == [] then 0
    else Occurrences(history[..|history| - 1], ip) + (if history[|history| - 1].mover == ip then 1 else 0)
  }

  /** The relations between the parts of the state that every accepted move keeps:
      one history entry per count, numbered 1, 2, ...; the last mover is the author of the
      last entry (nobody before the first move); one score entry per identity, each equal
      to that identity's number of entries, and all scores together equal to the count. */
  ghost predicate Valid(g: GameState) {
    && |g.history| == g.num
    && (forall i :: 0 <= i < |g.history| ==> g.history[i].value == i + 1)
    && (if g.history == [] then g.lastBy == "" else g.history[|g.history| - 1].mover == g.lastBy)
    && DistinctIps(g.scores)
    && Sum(g.scores) == g.num
    && (forall x :: ScoreOf(g.scores, x) == Occurrences(g.history, x))
  }

  /** An accepted move by `ip` at time `now`. */
  function Accept(g: GameState, ip: string, now: int): (r: GameState)
    ensures r.num == g.num + 1
    ensures r.lastBy == ip
    ensures r.history == g.history + [Entry(g.num + 1, ip, now)]
    ensures ScoreOf(r.scores, ip) == ScoreOf(g.scores, ip) + 1
    ensures forall x :: x != ip ==> Lookup(r.scores, x) == Lookup(g.scores, x)
  {
    assert forall x :: Lookup(Bump(g.scores, ip), x) == if x == ip then Some(ScoreOf(g.scores, ip) + 1) else Lookup(g.scores, x) by {
      forall x { BumpLookup(g.scores, ip, x); }
    }
    GameState(g.num + 1, ip, g.history + [Entry(g.num + 1, ip, now)], Bump(g.scores, ip))
  }

  lemma InitialValid()
    ensures Valid(Initial)
  {
  }

  /** An accepted move keeps the identity of the table's keys distinct. */
  lemma BumpKeepsDistinct(scores: seq<Score>, ip: string)
    requires DistinctIps(scores)
    ensures DistinctIps(Bump(scores, ip))
  {
    var r := Bump(scores, ip);
    if Lookup(scores, ip).None? {
      forall i, j | 0 <= i < j < |r|
        ensures r[i].ip != r[j].ip
      {
        if j == |scores| {
          assert r[i] == scores[i];
        }
      }
    }
  }

  /** Appending an entry adds one occurrence for its mover and none for anyone else. */
  lemma OccurrencesAppend(history: seq<Entry>, e: Entry, x: string)
    ensures Occurrences(history + [e], x) == Occurrences(history, x) + (if e.mover == x then 1 else 0)
  {
    assert (history + [e])[..|history|] == history;
  }

  /** Every accepted move preserves the state invariant. */
  lemma AcceptPreservesValid(g: GameState, ip: string, now: int)
    requires Valid(g)
    ensures Valid(Accept(g, ip, now))
  {
    var r := Accept(g, ip, now);
    BumpKeepsDistinct(g.scores, ip);
    BumpSum(g.scores, ip);
    forall x
      ensures ScoreOf(r.scores, x) == Occurrences(r.history, x)
    {
      BumpLookup(g.scores, ip, x);
      OccurrencesAppend(g.history, Entry(g.num + 1, ip, now), x);
    }
  }
}
