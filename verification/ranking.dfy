/**
 The `score` and `top` commands (node.ts:113-128, 134-144). Both rank the score table with
 `Object.entries(scores).sort((a, b) => b[1] - a[1])`: a stable sort (as every
 `Array.prototype.sort` is) by descending count, so identities with equal counts keep the
 table's insertion order.
 */
module Ranking {
  import opened Wrappers
  import opened JsNumber
  import opened JsText
  import opened JsArray
  import opened Game

  /** Counts never increase along `s`. */
  predicate SortedDesc(s: seq<Score>) {
    forall i, j :: 0 <= i < j < |s| ==> s[i].count >= s[j].count
  }

  /** The entries of `s` with count `c`, in their order in `s`. */
  function WithCount(s: seq<Score>, c: int): seq<Score> {
    if s == [] then [] else (if s[0].count == c then [s[0]] else []) + WithCount(s[1..], c)
  }

  /** Place `x` in front of the first entry whose count does not exceed its own. */
  function Insert(x: Score, t: seq<Score>): seq<Score> {
    if t == [] || x.count >= t[0].count then [x] + t else [t[0]] + Insert(x, t[1..])
  }

  lemma WithCountCons(x: Score, t: seq<Score>, c: int)
    ensures WithCount([x] + t, c) == (if x.count == c then [x] else []) + WithCount(t, c)
  {
    assert ([x] + t)[1..] == t;
  }

  /** Inserting keeps the entries. */
  lemma {:induction false} InsertPermutes(x: Score, t: seq<Score>)
    ensures multiset(Insert(x, t)) == multiset([x] + t)
  {
    if t != [] && x.count < t[0].count {
      InsertPermutes(x, t[1..]);
      assert t == [t[0]] + t[1..];
    }
  }

  /** Inserting an entry no higher than `b` into entries no higher than `b` gives entries
      no higher than `b`. */
  lemma {:induction false} InsertBelow(x: Score, t: seq<Score>, b: int)
    requires x.count <= b
    requires forall i :: 0 <= i < |t| ==> t[i].count <= b
    ensures forall i :: 0 <= i < |Insert(x, t)| ==> Insert(x, t)[i].count <= b
  {
    if t != [] && x.count < t[0].count {
      InsertBelow(x, t[1..], b);
      assert Insert(x, t) == [t[0]] + Insert(x, t[1..]);
    }
  }

  /** Inserting into a sorted sequence keeps it sorted. */
  lemma {:induction false} InsertSorted(x: Score, t: seq<Score>)
    requires SortedDesc(t)
    ensures SortedDesc(Insert(x, t))
  {
    if t != [] && x.count < t[0].count {
      var rest := Insert(x, t[1..]);
      InsertSorted(x, t[1..]);
      InsertBelow(x, t[1..], t[0].count);
      var r := Insert(x, t);
      assert r == [t[0]] + rest;
      forall i, j | 0 <= i < j < |r|
        ensures r[i].count >= r[j].count
      {
        assert r[j] == rest[j - 1];
        if i > 0 {
          assert r[i] == rest[i - 1];
        }
      }
    }
  }

  /** `x` lands in front of every entry of its own count, so each count's entries keep
      their order. */
  lemma {:induction false} InsertStable(x: Score, t: seq<Score>, c: int)
    ensures WithCount(Insert(x, t), c) == WithCount([x] + t, c)
  {
    if t != [] && x.count < t[0].count {
      var rest := Insert(x, t[1..]);
      InsertStable(x, t[1..], c);
      assert t == [t[0]] + t[1..];
      WithCountCons(t[0], rest, c);
      WithCountCons(x, t[1..], c);
      WithCountCons(x, t, c);
      WithCountCons(t[0], t[1..], c);
    }
  }

  /** The ranking: the score table sorted stably by descending count. It is a permutation
      of the table, sorted, and the entries of each count appear in table order. */
  function Rank(scores: seq<Score>): (r: seq<Score>)
    ensures multiset(r) == multiset(scores)
    ensures SortedDesc(r)
    ensures forall c :: WithCount(r, c) == WithCount(scores, c)
  {
    if scores == [] then []
    else
      var t := Rank(scores[1..]);
      InsertPermutes(scores[0], t);
      InsertSorted(scores[0], t);
      assert scores == [scores[0]] + scores[1..];
      assert forall c :: WithCount(Insert(scores[0], t), c) == WithCount(scores, c) by {
        forall c
          ensures WithCount(Insert(scores[0], t), c) == WithCount(scores, c)
        {
          InsertStable(scores[0], t, c);
          WithCountCons(scores[0], t, c);
          WithCountCons(scores[0], scores[1..], c);
        }
      }
      Insert(scores[0], t)
  }

  /** An entry of a filter is an entry of the sequence, with the filtered count. */
  lemma {:induction false} MemberOfWithCount(s: seq<Score>, c: int, z: Score)
    requires z in WithCount(s, c)
    ensures z in s && z.count == c
  {
    if s[0] != z || s[0].count != c {
      MemberOfWithCount(s[1..], c, z);
    }
  }

  /** In a sorted sequence, the first count is at least every count that occurs. */
  lemma HeadDominates(s: seq<Score>, c: int, z: Score)
    requires SortedDesc(s)
    requires z in WithCount(s, c)
    ensures s != [] && s[0].count >= c
  {
    MemberOfWithCount(s, c, z);
    var i :| 0 <= i < |s| && s[i] == z;
  }

  lemma NonEmptyFilter(s: seq<Score>)
    requires s != []
    ensures WithCount(s, s[0].count) != []
  {
  }

  /** Being sorted and keeping each count's entries in table order pins the ranking down:
      any sequence with both properties is the ranking itself. */
  lemma {:induction false} RankUnique(scores: seq<Score>, r: seq<Score>)
    requires SortedDesc(r)
    requires forall c :: WithCount(r, c) == WithCount(scores, c)
    ensures r == Rank(scores)
  {
    SortedStableEqual(r, Rank(scores));
  }

  lemma {:induction false} SortedStableEqual(a: seq<Score>, b: seq<Score>)
    requires SortedDesc(a) && SortedDesc(b)
    requires forall c :: WithCount(a, c) == WithCount(b, c)
    ensures a == b
    decreases |a|
  {
    if a == [] || b == [] {
      BothEmpty(a, b);
    } else {
      SameHead(a, b);
      forall c
        ensures WithCount(a[1..], c) == WithCount(b[1..], c)
      {
        var p := if a[0].count == c then [a[0]] else [];
        assert WithCount(a, c) == p + WithCount(a[1..], c);
        assert WithCount(b, c) == p + WithCount(b[1..], c);
        CancelPrefix(p, WithCount(a[1..], c), WithCount(b[1..], c));
      }
      SortedStableEqual(a[1..], b[1..]);
    }
  }

  /** Equal filters leave no entry on one side only. */
  lemma BothEmpty(a: seq<Score>, b: seq<Score>)
    requires a == [] || b == []
    requires forall c :: WithCount(a, c) == WithCount(b, c)
    ensures a == b
  {
    if a != [] {
      NonEmptyFilter(a);
      assert false;
    } else if b != [] {
      NonEmptyFilter(b);
      assert false;
    }
  }

  /** Both sorted sequences start with the first entry of the highest count. */
  lemma SameHead(a: seq<Score>, b: seq<Score>)
    requires a != [] && b != []
    requires SortedDesc(a) && SortedDesc(b)
    requires forall c :: WithCount(a, c) == WithCount(b, c)
    ensures a[0] == b[0]
  {
    var m, n := a[0].count, b[0].count;
    assert WithCount(a, m)[0] == a[0];
    assert WithCount(b, n)[0] == b[0];
    HeadDominates(b, m, a[0]);
    HeadDominates(a, n, b[0]);
    assert WithCount(b, m)[0] == b[0];
  }

  lemma CancelPrefix<T>(p: seq<T>, x: seq<T>, y: seq<T>)
    requires p + x == p + y
    ensures x == y
  {
    assert x == (p + x)[|p|..];
  }

  /** `findIndex(([ip']) => ip' === ip)`: the first position of `ip`, or -1. */
  function FindIndex(rank: seq<Score>, ip: string): (i: int)
    ensures -1 <= i < |rank|
    ensures i >= 0 ==> rank[i].ip == ip
    ensures forall j :: 0 <= j < |rank| && (i < 0 || j < i) ==> rank[j].ip != ip
  {
    if rank == [] then -1
    else if rank[0].ip == ip then 0
    else
      var k := FindIndex(rank[1..], ip);
      if k < 0 then -1 else k + 1
  }

  /** A ranking entry together with its 0-based position in the full ranking. */
  datatype Placed = Placed(ip: string, count: int, place: nat)

  /** `scores.map((v, i) => [...v, i])` */
  function Placements(rank: seq<Score>): (r: seq<Placed>)
    ensures |r| == |rank|
    ensures forall i :: 0 <= i < |r| ==> r[i] == Placed(rank[i].ip, rank[i].count, i)
  {
    seq(|rank|, i requires 0 <= i < |rank| => Placed(rank[i].ip, rank[i].count, i))
  }

  /** `.slice(Math.max(index - 5, 0), index + 5)` of the placed ranking. */
  function Window(rank: seq<Score>, index: int): seq<Placed> {
    Slice(Placements(rank), if index - 5 > 0 then index - 5 else 0, Some(index + 5))
  }

  /** The window runs from five places above the requester to four below, clamped to the
      ranking; with no entry (`index` -1) it is the first four places. It never holds more
      than ten lines and each line keeps its place in the full ranking. */
  lemma WindowShape(rank: seq<Score>, index: int)
    requires -1 <= index < |rank|
    ensures var lo := if index - 5 > 0 then index - 5 else 0;
            var hi := if index + 5 < |rank| then index + 5 else |rank|;
            Window(rank, index) == Placements(rank)[lo..hi]
    ensures index == -1 ==> Window(rank, -1) == Placements(rank)[..if |rank| < 4 then |rank| else 4]
    ensures |Window(rank, index)| <= 10
  {
  }

  /** The window shows the requester's own line exactly when the requester is ranked. */
  lemma WindowHasRequester(rank: seq<Score>, ip: string)
    ensures var w := Window(rank, FindIndex(rank, ip));
            (exists k :: 0 <= k < |w| && w[k].ip == ip) <==> FindIndex(rank, ip) >= 0
  {
    var index := FindIndex(rank, ip);
    var w := Window(rank, index);
    if index >= 0 {
      assert exists k :: 0 <= k < |w| && w[k].ip == ip by {
        RankedInWindow(rank, ip);
      }
    }
    if k :| 0 <= k < |w| && w[k].ip == ip {
      assert index >= 0 by {
        WindowEntryRanked(rank, index, k);
      }
    }
  }

  /** A ranked requester's own entry lies inside their window. */
  lemma RankedInWindow(rank: seq<Score>, ip: string)
    requires FindIndex(rank, ip) >= 0
    ensures var index := FindIndex(rank, ip);
            var w := Window(rank, index);
            var lo := if index - 5 > 0 then index - 5 else 0;
            index - lo < |w| && w[index - lo].ip == ip
  {
    WindowShape(rank, FindIndex(rank, ip));
  }

  /** Every window line is the ranking entry at the same place. */
  lemma WindowEntryRanked(rank: seq<Score>, index: int, k: int)
    requires -1 <= index < |rank|
    requires 0 <= k < |Window(rank, index)|
    ensures var w := Window(rank, index);
            w[k].place < |rank| && w[k].ip == rank[w[k].place].ip
  {
    WindowShape(rank, index);
  }

  /** A window line is written in two parts, a marker and `${place + 1}. ${ip}: ${count}`;
      here the two parts are joined. */
  function Marker(own: bool): string {
    if own then "-> " else "   "
  }

  function WindowLine(p: Placed, ip: string): string {
    Marker(p.ip == ip) + IntToString(p.place + 1) + ". " + p.ip + ": " + IntToString(p.count) + "\r\n"
  }

  function WindowLines(w: seq<Placed>, ip: string): seq<string> {
    seq(|w|, k requires 0 <= k < |w| => WindowLine(w[k], ip))
  }

  /** `(index + 1) || "?"`: a 1-based rank, or "?" for an identity with no entry. */
  function RankText(index: int): string {
    if index + 1 == 0 then "?" else IntToString(index + 1)
  }

  /** Everything `score` writes for the requester `ip`: the heading with their score and
      rank, then one line per window entry. */
  function ScoreReplies(scores: seq<Score>, ip: string): (r: seq<string>)
    ensures var rank := Rank(scores);
            var index := FindIndex(rank, ip);
            && |r| == 1 + |Window(rank, index)|
            && r[0] == "Your score is " + IntToString(ScoreOf(scores, ip)) + ". Rank #" + RankText(index) + "\r\n"
            && r[1..] == WindowLines(Window(rank, index), ip)
  {
    var rank := Rank(scores);
    var index := FindIndex(rank, ip);
    ["Your score is " + IntToString(ScoreOf(scores, ip)) + ". Rank #" + RankText(index) + "\r\n"]
      + WindowLines(Window(rank, index), ip)
  }

  /** Line `k + 1` of the reply is the `k`-th window entry, marked when it is the requester's. */
  lemma ScoreLine(scores: seq<Score>, ip: string, k: nat)
    requires k < |Window(Rank(scores), FindIndex(Rank(scores), ip))|
    ensures var w := Window(Rank(scores), FindIndex(Rank(scores), ip));
            ScoreReplies(scores, ip)[k + 1] == WindowLine(w[k], ip)
  {
    var r := ScoreReplies(scores, ip);
    assert r[k + 1] == r[1..][k];
  }

  lemma {:induction false} LookupFound(scores: seq<Score>, ip: string)
    ensures Lookup(scores, ip).Some? <==> exists i :: 0 <= i < |scores| && scores[i].ip == ip
    ensures DistinctIps(scores) ==> forall i :: 0 <= i < |scores| && scores[i].ip == ip ==> Lookup(scores, ip) == Some(scores[i].count)
  {
    if scores != [] {
      LookupFound(scores[1..], ip);
      assert forall i :: 1 <= i < |scores| ==> scores[i] == scores[1..][i - 1];
    }
  }

  /** The requester is ranked exactly when the table has an entry for them, and their
      ranking entry carries the score the heading reports; so the rank reads "?" exactly
      for an identity that has never moved. */
  lemma RankedIffScored(scores: seq<Score>, ip: string)
    requires DistinctIps(scores)
    ensures var rank := Rank(scores);
            var index := FindIndex(rank, ip);
            && (index < 0 <==> Lookup(scores, ip).None?)
            && (RankText(index) == "?" <==> Lookup(scores, ip).None?)
            && (index >= 0 ==> rank[index] == Score(ip, ScoreOf(scores, ip)))
  {
    var rank := Rank(scores);
    var index := FindIndex(rank, ip);
    LookupFound(scores, ip);
    if index >= 0 {
      assert rank[index] in multiset(scores);
      var i :| 0 <= i < |scores| && scores[i] == rank[index];
      assert RankText(index) != "?" by {
        assert IntToString(index + 1)[0] != '?';
      }
    } else {
      forall i | 0 <= i < |scores|
        ensures scores[i].ip != ip
      {
        assert scores[i] in multiset(rank);
      }
    }
  }

  /** The line opens with the "-> " marker. */
  predicate Marked(line: string) {
    |line| >= 3 && line[..3] == "-> "
  }

  /** A window line carries the marker exactly when it is the requester's own. */
  lemma MarkerOnOwnLine(p: Placed, ip: string)
    ensures Marked(WindowLine(p, ip)) <==> p.ip == ip
  {
    var line := WindowLine(p, ip);
    assert line[..3] == Marker(p.ip == ip);
  }

  /** Some line below the heading of `score` carries the marker exactly when the requester
      has an entry in the score table. */
  lemma RequesterMarked(scores: seq<Score>, ip: string)
    requires DistinctIps(scores)
    ensures var r := ScoreReplies(scores, ip);
            (exists k :: 1 <= k < |r| && Marked(r[k])) <==> Lookup(scores, ip).Some?
  {
    var rank := Rank(scores);
    var index := FindIndex(rank, ip);
    var w := Window(rank, index);
    var r := ScoreReplies(scores, ip);
    RankedIffScored(scores, ip);
    WindowHasRequester(rank, ip);
    assert |r| == |w| + 1;
    if k :| 1 <= k < |r| && Marked(r[k]) {
      ScoreLine(scores, ip, k - 1);
      MarkerOnOwnLine(w[k - 1], ip);
    }
    if Lookup(scores, ip).Some? {
      var k :| 0 <= k < |w| && w[k].ip == ip;
      ScoreLine(scores, ip, k);
      MarkerOnOwnLine(w[k], ip);
    }
  }

  /** `${String(n).padStart(2, " ")}. ${ip}: ${count}` */
  function TopLine(n: int, e: Score): string {
    PadStart(IntToString(n), 2, ' ') + ". " + e.ip + ": " + IntToString(e.count) + "\r\n"
  }

  /** Everything `top` writes: a heading, then the first ten places of the ranking,
      numbered from 1. */
  function TopReplies(scores: seq<Score>): seq<string> {
    TopList(Rank(scores))
  }

  function TopList(rank: seq<Score>): seq<string> {
    var n := if |rank| < 10 then |rank| else 10;
    ["The top ten scores are\r\n"] + seq(n, k requires 0 <= k < n => TopLine(k + 1, rank[k]))
  }

  /** The list shows the first `min(10, n)` entries in order, numbered 1, 2, ... */
  lemma TopListShape(rank: seq<Score>)
    ensures var n := if |rank| < 10 then |rank| else 10;
            var r := TopList(rank);
            && |r| == n + 1
            && r[0] == "The top ten scores are\r\n"
            && (forall k :: 0 <= k < n ==> r[k + 1] == TopLine(k + 1, rank[k]))
  {
  }

  /** `top` lists the first `min(10, n)` ranking entries in order, numbered 1, 2, ...; each
      listed count is at least every unlisted one. */
  lemma TopReport(scores: seq<Score>)
    ensures var rank := Rank(scores);
            var n := if |rank| < 10 then |rank| else 10;
            var r := TopReplies(scores);
            && |r| == n + 1
            && (forall k :: 0 <= k < n ==> r[k + 1] == TopLine(k + 1, rank[k]))
            && (forall i, j :: 0 <= i < n <= j < |rank| ==> rank[i].count >= rank[j].count)
  {
    TopListShape(Rank(scores));
  }
}
