/** Cutting the ticker list into batches of 100, and the comma-joined query strings. */
module Batching {

  /** Number of symbols per batch quote request. */
  const BatchSize: nat := 100

  /** The separator of symbols in a batch query string. */
  const Comma: char := ','

  function Min(a: nat, b: nat): nat
  {
    if a <= b then a else b
  }

  /** The slices lst[i:i+n] for i = 0, n, 2n, ... below |lst|; the last one is cut short. */
  function Chunks<T>(s: seq<T>, n: nat): seq<seq<T>>
    requires n > 0
    decreases |s|
  {
    if |s| == 0 then []
    else
      var k := Min(n, |s|);
      [s[..k]] + Chunks(s[k..], n)
  }

  /** Concatenation of a sequence of sequences. */
  function Flatten<T>(ss: seq<seq<T>>): seq<T>
  {
    if |ss| == 0 then [] else ss[0] + Flatten(ss[1..])
  }

  /** The chunks concatenate back to the input, in order. */
  lemma {:induction false} ChunksFlatten<T>(s: seq<T>, n: nat)
    requires n > 0
    ensures Flatten(Chunks(s, n)) == s
    decreases |s|
  {
    if |s| > 0 {
      var k := Min(n, |s|);
      ChunksFlatten(s[k..], n);
      assert s == s[..k] + s[k..];
    }
  }

  /** Every chunk is non-empty and holds at most n elements; all but the last hold exactly n. */
  lemma {:induction false} ChunksSizes<T>(s: seq<T>, n: nat)
    requires n > 0
    ensures forall k :: 0 <= k < |Chunks(s, n)| ==> 0 < |Chunks(s, n)[k]| <= n
    ensures forall k :: 0 <= k < |Chunks(s, n)| - 1 ==> |Chunks(s, n)[k]| == n
    decreases |s|
  {
    if |s| > 0 {
      var k := Min(n, |s|);
      ChunksSizes(s[k..], n);
      var r := Chunks(s, n);
      assert r[1..] == Chunks(s[k..], n);
      forall j | 0 <= j < |r|
        ensures 0 < |r[j]| <= n
        ensures j < |r| - 1 ==> |r[j]| == n
      {
        if j > 0 {
          assert r[j] == r[1..][j - 1];
        } else if j < |r| - 1 {
          assert |Chunks(s[k..], n)| > 0;
          assert k == n;
        }
      }
    }
  }

  lemma MulMonoInt(x: int, y: int, n: int)
    requires x <= y && n >= 0
    ensures x * n <= y * n
  {
  }

  /** Integer division is determined by the bounds of the quotient. */
  lemma DivBetween(a: int, n: int, q: int)
    requires n > 0 && q * n <= a < (q + 1) * n
    ensures a / n == q
  {
    var d, r := a / n, a % n;
    assert a == d * n + r && 0 <= r < n;
    if d > q {
      MulMonoInt(q + 1, d, n);
    } else if d < q {
      MulMonoInt(d + 1, q, n);
    }
  }

  /** Adding the divisor to a non-negative dividend adds one to the quotient. */
  lemma DivAddDivisor(a: int, n: int)
    requires n > 0 && a >= 0
    ensures (a + n) / n == a / n + 1
  {
    var q := a / n;
    assert a == q * n + a % n;
    assert (q + 1) * n == q * n + n;
    assert (q + 2) * n == (q + 1) * n + n;
    DivBetween(a + n, n, q + 1);
  }

  /** The number of chunks is the ceiling of |s| / n; in particular none for an empty list. */
  lemma {:induction false} ChunksCount<T>(s: seq<T>, n: nat)
    requires n > 0
    ensures |Chunks(s, n)| == (|s| + n - 1) / n
    ensures |Chunks(s, n)| == 0 <==> |s| == 0
    decreases |s|
  {
    if |s| > 0 {
      var k := Min(n, |s|);
      var rest := s[k..];
      ChunksCount(rest, n);
      assert |Chunks(s, n)| == |Chunks(rest, n)| + 1;
      if |s| <= n {
        assert |rest| == 0;
        DivBetween(|s| + n - 1, n, 1);
      } else {
        assert |rest| == |s| - n;
        DivAddDivisor(|rest| + n - 1, n);
        assert |s| + n - 1 == (|rest| + n - 1) + n;
      }
    }
  }

  /** Where chunk j starts: j * n, built up one chunk at a time. */
  function Offset(j: nat, n: nat): nat
  {
    if j == 0 then 0 else Offset(j - 1, n) + n
  }

  lemma {:induction false} OffsetIsProduct(j: nat, n: nat)
    ensures Offset(j, n) == j * n
  {
    if j > 0 {
      OffsetIsProduct(j - 1, n);
      assert j * n == (j - 1) * n + n;
    }
  }

  /** A chunk after the first one is a chunk of the list with its first n elements removed. */
  lemma ChunkTail<T>(s: seq<T>, n: nat, j: nat)
    requires n > 0 && 0 < j < |Chunks(s, n)|
    ensures n < |s|
    ensures |Chunks(s[n..], n)| == |Chunks(s, n)| - 1
    ensures Chunks(s, n)[j] == Chunks(s[n..], n)[j - 1]
  {
    var k := Min(n, |s|);
    var t := s[k..];
    assert Chunks(s, n) == [s[..k]] + Chunks(t, n);
    assert |Chunks(t, n)| > 0;
    assert |t| > 0;
    assert k == n;
  }

  /** The first chunk is the first n elements, or the whole list when it is shorter. */
  lemma ChunkHead<T>(s: seq<T>, n: nat)
    requires n > 0 && |s| > 0
    ensures Chunks(s, n)[0] == s[..Min(n, |s|)]
  {
  }

  lemma SliceOfSuffix<T>(s: seq<T>, k: nat, lo: nat, hi: nat)
    requires lo <= hi && k + hi <= |s|
    ensures s[k..][lo..hi] == s[k + lo .. k + hi]
  {
  }

  lemma {:induction false} ChunkAtOffset<T>(s: seq<T>, n: nat, j: nat)
    requires n > 0 && j < |Chunks(s, n)|
    ensures Offset(j, n) < |s|
    ensures Chunks(s, n)[j] == s[Offset(j, n) .. Min(Offset(j, n) + n, |s|)]
    decreases |s|
  {
    if j == 0 {
      ChunkHead(s, n);
    } else {
      ChunkTail(s, n, j);
      var t := s[n..];
      ChunkAtOffset(t, n, j - 1);
      var lo := Offset(j - 1, n);
      var hi := Min(lo + n, |t|);
      SliceOfSuffix(s, n, lo, hi);
    }
  }

  /** Chunk number j is exactly the slice lst[j*n : j*n+n], clamped to the end of the list. */
  lemma ChunkAt<T>(s: seq<T>, n: nat, j: nat)
    requires n > 0 && j < |Chunks(s, n)|
    ensures j * n < |s|
    ensures Chunks(s, n)[j] == s[j * n .. Min(j * n + n, |s|)]
  {
    ChunkAtOffset(s, n, j);
    OffsetIsProduct(j, n);
  }

  /** ','.join(parts): the parts with one separator between neighbours. */
  function Join(parts: seq<string>, sep: char): string
  {
    if |parts| == 0 then ""
    else if |parts| == 1 then parts[0]
    else parts[0] + [sep] + Join(parts[1..], sep)
  }

  /** str.split(sep): the pieces between separators; always at least one piece, none holding sep. */
  function Split(s: string, sep: char): (r: seq<string>)
    ensures |r| >= 1
    ensures forall i :: 0 <= i < |r| ==> sep !in r[i]
    decreases |s|
  {
    if |s| == 0 then [""]
    else
      var rest := Split(s[1..], sep);
      if s[0] == sep then [""] + rest
      else [[s[0]] + rest[0]] + rest[1..]
  }

  /** Splitting a separator-free prefix glued to t extends the first piece of t's split. */
  lemma {:induction false} SplitPrefix(x: string, t: string, sep: char)
    requires sep !in x
    ensures Split(x + t, sep) == [x + Split(t, sep)[0]] + Split(t, sep)[1..]
    decreases |x|
  {
    if |x| > 0 {
      SplitPrefix(x[1..], t, sep);
      assert x[0] in x;
      assert (x + t)[0] == x[0] != sep;
      assert (x + t)[1..] == x[1..] + t;
      var rest := Split(x[1..] + t, sep);
      assert rest[1..] == Split(t, sep)[1..];
      assert Split(x + t, sep) == [[x[0]] + rest[0]] + rest[1..];
      assert [x[0]] + (x[1..] + Split(t, sep)[0]) == x + Split(t, sep)[0];
    } else {
      assert x + t == t;
      assert x + Split(t, sep)[0] == Split(t, sep)[0];
    }
  }

  /** Join then split gives the parts back, when there is at least one part and none holds sep. */
  lemma {:induction false} SplitJoin(parts: seq<string>, sep: char)
    requires |parts| > 0
    requires forall i :: 0 <= i < |parts| ==> sep !in parts[i]
    ensures Split(Join(parts, sep), sep) == parts
    decreases |parts|
  {
    if |parts| == 1 {
      SplitPrefix(parts[0], "", sep);
      assert parts[0] + "" == parts[0];
    } else {
      var rest := Join(parts[1..], sep);
      SplitJoin(parts[1..], sep);
      assert Join(parts, sep) == parts[0] + ([sep] + rest);
      SplitPrefix(parts[0], [sep] + rest, sep);
      assert ([sep] + rest)[0] == sep;
      assert ([sep] + rest)[1..] == rest;
      assert Split([sep] + rest, sep) == [""] + Split(rest, sep);
      assert parts[0] + "" == parts[0];
      assert parts == [parts[0]] + parts[1..];
    }
  }

  /** Splitting loses nothing at the first character: a separator becomes one between the
      pieces, any other character the start of the first piece. */
  lemma JoinSplitStep(s: string, sep: char)
    requires |s| > 0
    ensures Join(Split(s, sep), sep) == [s[0]] + Join(Split(s[1..], sep), sep)
  {
    var rest := Split(s[1..], sep);
    var r := Split(s, sep);
    if s[0] == sep {
      assert r == [""] + rest;
      assert r[1..] == rest;
    } else {
      assert r[1..] == rest[1..];
      if |rest| > 1 {
        assert Join(rest, sep) == rest[0] + [sep] + Join(rest[1..], sep);
      }
    }
  }

  /** Split then join gives the string back: splitting loses nothing. */
  lemma {:induction false} JoinSplit(s: string, sep: char)
    ensures Join(Split(s, sep), sep) == s
    decreases |s|
  {
    if |s| > 0 {
      JoinSplit(s[1..], sep);
      JoinSplitStep(s, sep);
      assert s == [s[0]] + s[1..];
    }
  }

  /** Each group joined with the separator, in order. */
  function JoinEach(groups: seq<seq<string>>, sep: char): (r: seq<string>)
    ensures |r| == |groups|
    ensures forall i :: 0 <= i < |groups| ==> r[i] == Join(groups[i], sep)
  {
    if |groups| == 0 then [] else [Join(groups[0], sep)] + JoinEach(groups[1..], sep)
  }

  /** The query strings of the batches: ','.join of each chunk of 100 tickers, in order. */
  function BatchStrings(tickers: seq<string>): seq<string>
  {
    JoinEach(Chunks(tickers, BatchSize), Comma)
  }

  /** The symbols recovered from query strings: each split on ',', the pieces in order. */
  function SplitAll(strs: seq<string>, sep: char): seq<string>
  {
    if |strs| == 0 then [] else SplitAll(strs[..|strs| - 1], sep) + Split(strs[|strs| - 1], sep)
  }

  lemma {:induction false} SplitAllAppend(a: seq<string>, b: seq<string>, sep: char)
    ensures SplitAll(a + b, sep) == SplitAll(a, sep) + SplitAll(b, sep)
    decreases |b|
  {
    if |b| > 0 {
      var b' := b[..|b| - 1];
      SplitAllAppend(a, b', sep);
      assert (a + b)[..|a + b| - 1] == a + b';
      assert (a + b)[|a + b| - 1] == b[|b| - 1];
    } else {
      assert a + b == a;
    }
  }

  /** Splitting the joined first group gives that group back, ahead of the rest. */
  lemma SplitAllJoinedStep(groups: seq<seq<string>>, sep: char)
    requires |groups| > 0 && |groups[0]| > 0
    requires forall j :: 0 <= j < |groups[0]| ==> sep !in groups[0][j]
    ensures SplitAll(JoinEach(groups, sep), sep) == groups[0] + SplitAll(JoinEach(groups[1..], sep), sep)
  {
    var first := Join(groups[0], sep);
    var rest := JoinEach(groups[1..], sep);
    calc {
      SplitAll(JoinEach(groups, sep), sep);
    == { assert JoinEach(groups, sep) == [first] + rest; }
      SplitAll([first] + rest, sep);
    == { SplitAllAppend([first], rest, sep); }
      SplitAll([first], sep) + SplitAll(rest, sep);
    == { assert [first][..0] == []; }
      Split(first, sep) + SplitAll(rest, sep);
    == { SplitJoin(groups[0], sep); }
      groups[0] + SplitAll(rest, sep);
    }
  }

  /** Joining non-empty, separator-free groups and splitting each string again gives their concatenation. */
  lemma {:induction false} SplitAllJoined(groups: seq<seq<string>>, sep: char)
    requires forall i :: 0 <= i < |groups| ==> |groups[i]| > 0
    requires forall i, j :: 0 <= i < |groups| && 0 <= j < |groups[i]| ==> sep !in groups[i][j]
    ensures SplitAll(JoinEach(groups, sep), sep) == Flatten(groups)
    decreases |groups|
  {
    if |groups| > 0 {
      var tail := groups[1..];
      SplitAllJoinedStep(groups, sep);
      assert forall i :: 0 <= i < |tail| ==> tail[i] == groups[i + 1];
      SplitAllJoined(tail, sep);
    }
  }

  /** Symbol recovery: splitting the batch strings again gives the ticker list back, in order,
      whenever no ticker contains a comma. */
  lemma RecoveredSymbols(tickers: seq<string>)
    requires forall i :: 0 <= i < |tickers| ==> Comma !in tickers[i]
    ensures SplitAll(BatchStrings(tickers), Comma) == tickers
  {
    var groups := Chunks(tickers, BatchSize);
    ChunksSizes(tickers, BatchSize);
    ChunksFlatten(tickers, BatchSize);
    forall i, j | 0 <= i < |groups| && 0 <= j < |groups[i]|
      ensures Comma !in groups[i][j]
    {
      ChunkAt(tickers, BatchSize, i);
      assert groups[i][j] == tickers[i * BatchSize + j];
    }
    SplitAllJoined(groups, Comma);
  }

  /** One query string per batch: ceil(|tickers| / 100) of them, none for an empty list. */
  lemma BatchCount(tickers: seq<string>)
    ensures |BatchStrings(tickers)| == (|tickers| + BatchSize - 1) / BatchSize
    ensures |BatchStrings(tickers)| == 0 <==> |tickers| == 0
  {
    ChunksCount(tickers, BatchSize);
  }
}
