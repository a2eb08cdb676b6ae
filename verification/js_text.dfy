/**
 The string operations the server uses: `String.prototype.split` with a one-character
 separator, `Array.prototype.join`, and `String.prototype.padStart` with a one-character
 filler.
 */
module JsText {

  /** Index of the first occurrence of `c` in `s`. */
  function IndexOf(s: string, c: char): (i: nat)
    requires c in s
    ensures i < |s| && s[i] == c && c !in s[..i]
  {
    if s[0] == c then 0 else 1 + IndexOf(s[1..], c)
  }

  /** `s.split(sep)`: the maximal separator-free pieces between occurrences of `sep`. */
  function Split(s: string, sep: char): (parts: seq<string>)
    ensures |parts| >= 1
    ensures forall i :: 0 <= i < |parts| ==> sep !in parts[i]
    ensures Join(parts, [sep]) == s
    decreases |s|
  {
    if sep !in s then [s]
    else
      var i := IndexOf(s, sep);
      var tail := Split(s[i + 1..], sep);
      assert s == s[..i] + [sep] + s[i + 1..];
      [s[..i]] + tail
  }

  /** `parts.join(sep)`; the empty list joins to the empty string. */
  function Join(parts: seq<string>, sep: string): string {
    if |parts| == 0 then ""
    else if |parts| == 1 then parts[0]
    else parts[0] + sep + Join(parts[1..], sep)
  }

  /** Splitting a joined list of separator-free pieces gives the pieces back. */
  lemma {:induction false} SplitJoin(parts: seq<string>, sep: char)
    requires |parts| >= 1
    requires forall i :: 0 <= i < |parts| ==> sep !in parts[i]
    ensures Split(Join(parts, [sep]), sep) == parts
  {
    if |parts| > 1 {
      var s := Join(parts, [sep]);
      var rest := Join(parts[1..], [sep]);
      assert s == parts[0] + [sep] + rest;
      assert s[|parts[0]|] == sep;
      assert s[..|parts[0]|] == parts[0];
      assert IndexOf(s, sep) == |parts[0]|;
      assert s[|parts[0]| + 1..] == rest;
      SplitJoin(parts[1..], sep);
    } else {
      assert sep !in Join(parts, [sep]);
    }
  }

  /** The first piece of a split is the text up to the first separator. */
  lemma SplitFirst(w: string, sep: char, rest: string)
    requires sep !in w
    ensures Split(w + [sep] + rest, sep)[0] == w
  {
    var s := w + [sep] + rest;
    assert s[|w|] == sep;
    assert s[..|w|] == w;
    assert IndexOf(s, sep) == |w|;
  }

  /** `s.padStart(width, [fill])`: `fill` repeated on the left up to `width` characters. */
  function PadStart(s: string, width: nat, fill: char): (r: string)
    ensures |r| == if |s| >= width then |s| else width
    ensures r[|r| - |s|..] == s
    ensures forall i :: 0 <= i < |r| - |s| ==> r[i] == fill
  {
    if |s| >= width then s else seq(width - |s|, _ => fill) + s
  }
}

/** `Array.prototype.slice` with its relative (negative) indices. */
module JsArray {
  import opened Wrappers

  /** A relative index as `slice` resolves it: negative counts back from the end,
      and the result is clamped to `0 .. len`. */
  function Resolve(k: int, len: nat): (r: nat)
    ensures r <= len
  {
    if k < 0 then (if len + k < 0 then 0 else len + k)
    else if k < len then k else len
  }

  /** Where `slice` stops: the end of `s` for an `undefined` end, else the resolved index. */
  function SliceEnd(end: Option<int>, len: nat): (r: nat)
    ensures r <= len
  {
    match end
    case None => len
    case Some(e) => Resolve(e, len)
  }

  /** `s.slice(start, end)`, where an `undefined` end is `None` and means the end of `s`:
      the block of `s` from the resolved start up to the resolved end, empty when the end
      does not lie after the start. */
  function Slice<T>(s: seq<T>, start: int, end: Option<int>): (r: seq<T>)
    ensures var from, to := Resolve(start, |s|), SliceEnd(end, |s|);
            && |r| == (if from < to then to - from else 0)
            && r == s[from..from + |r|]
  {
    var from := Resolve(start, |s|);
    var to := SliceEnd(end, |s|);
    if from < to then s[from..to] else []
  }

  /** On indices already inside `0 .. |s|`, `slice` is the plain subsequence. */
  lemma SliceInRange<T>(s: seq<T>, start: int, end: int)
    requires 0 <= start <= end <= |s|
    ensures Slice(s, start, Some(end)) == s[start..end]
  {
  }
}
