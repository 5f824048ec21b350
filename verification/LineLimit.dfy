/** pkg/utils/line_limit_reader.go: a reader that stops after n lines. */
module LineLimit {
  import opened Bytes
  import opened Lines

  /** The stream up to and including its n-th separator; all of it if it has fewer. */
  function FirstLines(s: seq<Byte>, n: nat): seq<Byte>
  {
    var i := SepIndex(s);
    if n == 0 then [] else if i == |s| then s else s[..i + 1] + FirstLines(s[i + 1..], n - 1)
  }

  lemma {:induction false} TakeLine(s: seq<Byte>, n: nat, i: nat)
    requires n > 0 && i <= |s|
    requires i < |s| ==> s[i] == LINE_SEP
    requires forall j | 0 <= j < i :: s[j] != LINE_SEP
    ensures SepIndex(s) == i
    ensures FirstLines(s, n) == if i == |s| then s else s[..i + 1] + FirstLines(s[i + 1..], n - 1)
  {
    SepIndexUnique(s, i);
  }

  datatype State = State(reader: Source, maxLinesLimit: int, totalLinesRead: int)

  /** One Read on whole chunks: the new state, the bytes given to the caller, and the error. */
  function ReadStep(s: State): (State, seq<Byte>, Error)
  {
    if s.maxLinesLimit <= 0 then (s, [], EOF)
    else
      var a := Head(s.reader);
      var seps := CountSeps(a.data);
      var left := if seps > s.maxLinesLimit then 0 else s.maxLinesLimit - seps;
      var s' := State(Tail(s.reader), left, s.totalLinesRead + seps);
      if seps > s.maxLinesLimit then (s', FirstLines(a.data, s.maxLinesLimit), EOF) else (s', a.data, a.err)
  }

  class LineLimitedReader {
    var reader: Source
    var maxLinesLimit: int
    var totalLinesRead: int

    ghost function Abstract(): State
      reads this
    {
      State(reader, maxLinesLimit, totalLinesRead)
    }

    constructor (r: Source, n: int)
      ensures Abstract() == State(r, n, 0)
    {
      reader, maxLinesLimit, totalLinesRead := r, n, 0;
    }

    method Read() returns (data: seq<Byte>, err: Error)
      modifies this
      ensures (Abstract(), data, err) == ReadStep(old(Abstract()))
    {
      hide CountSeps, FirstLines, SepIndex;
      if maxLinesLimit <= 0 {
        return [], EOF;
      }
      var a := Head(reader);
      reader := Tail(reader);
      var p, rc := a.data, |a.data|;
      totalLinesRead := totalLinesRead + CountSeps(p);

      var lc := 0;
      ghost var limit: nat := maxLinesLimit;
      NoLinesYet(p);
      while true
        invariant 0 <= lc <= rc
        invariant maxLinesLimit == limit - CountSeps(p[..lc]) >= 0
        invariant p[..lc] == FirstLines(p, CountSeps(p[..lc]))
        invariant reader == Tail(old(reader)) && totalLinesRead == old(totalLinesRead) + CountSeps(p)
        decreases rc - lc
      {
        assert p[lc..rc] == p[lc..];
        var lineSepIdx := SepIndex(p[lc..rc]);
        if lineSepIdx == rc - lc {
          LastLineOpen(p, lc);
          return p, a.err;
        }
        NextLine(p, lc);
        if maxLinesLimit <= 0 {
          return p[..lc], EOF;
        }
        maxLinesLimit := maxLinesLimit - 1;
        lc := lc + lineSepIdx + 1;
      }
    }

    function GetTotalLinesRead(): int
      reads this
    {
      totalLinesRead
    }
  }

  lemma {:induction false} NoLinesYet(p: seq<Byte>)
    ensures p[..0] == [] && CountSeps([]) == 0 && FirstLines(p, 0) == []
  {}

  /** When no separator is left, the whole chunk fits under the limit. */
  lemma {:induction false} LastLineOpen(p: seq<Byte>, lc: nat)
    requires lc <= |p| && SepIndex(p[lc..]) == |p| - lc
    ensures CountSeps(p) == CountSeps(p[..lc])
  {
    hide CountSeps;
    NoSeps(p[lc..]);
    CountSepsConcat(p[..lc], p[lc..]);
    assert p == p[..lc] + p[lc..];
  }

  /** One more separator after the lines counted so far. */
  lemma {:induction false} NextLine(p: seq<Byte>, lc: nat)
    requires lc <= |p| && SepIndex(p[lc..]) < |p| - lc
    requires p[..lc] == FirstLines(p, CountSeps(p[..lc]))
    ensures var next := lc + SepIndex(p[lc..]) + 1;
            && CountSeps(p[..next]) == CountSeps(p[..lc]) + 1
            && p[..next] == FirstLines(p, CountSeps(p[..next]))
            && CountSeps(p) > CountSeps(p[..lc])
  {
    hide CountSeps, FirstLines, SepIndex;
    var i := SepIndex(p[lc..]);
    var next := lc + i + 1;
    var line := p[lc..next];
    OneLine(p[lc..]);
    assert line == p[lc..][..i + 1];
    assert p[..next] == p[..lc] + line;
    CountSepsConcat(p[..lc], line);
    assert p == p[..next] + p[next..];
    CountSepsConcat(p[..next], p[next..]);
    assert p == p[..lc] + p[lc..];
    FirstLinesAppend(p[..lc], p[lc..]);
  }

  lemma {:induction false} OneLine(s: seq<Byte>)
    requires SepIndex(s) < |s|
    ensures CountSeps(s[..SepIndex(s) + 1]) == 1
    ensures FirstLines(s, 1) == s[..SepIndex(s) + 1]
  {
    var i := SepIndex(s);
    var line := s[..i + 1];
    assert line[..|line| - 1] == s[..i];
    SepIndexUnique(s[..i], i);
    NoSeps(s[..i]);
    assert FirstLines(s[i + 1..], 0) == [];
  }

  /** Lines are taken from a stream that ends in a separator first, then from what follows. */
  lemma {:induction false} FirstLinesAppend(a: seq<Byte>, b: seq<Byte>)
    requires a == FirstLines(a + b, CountSeps(a))
    requires SepIndex(b) < |b|
    ensures FirstLines(a + b, CountSeps(a) + 1) == a + FirstLines(b, 1)
    decreases |a|
  {
    hide CountSeps, FirstLines, SepIndex;
    var s := a + b;
    if CountSeps(a) == 0 {
      NoLinesYet(s);
      assert a == [];
      assert s == b;
    } else {
      var i := SepIndex(s);
      HasSep(a, b);
      var line, rest := a[..i + 1], a[i + 1..];
      assert s[..i + 1] == line && s[i + 1..] == rest + b;
      assert a == line + rest;
      OneLine(a);
      CountSepsConcat(line, rest);
      TakeLine(s, CountSeps(a), i);
      TakeLine(s, CountSeps(a) + 1, i);
      SameTail(line, FirstLines(rest + b, CountSeps(rest)), rest);
      FirstLinesAppend(rest, b);
    }
  }

  lemma {:induction false} SameTail(line: seq<Byte>, a: seq<Byte>, b: seq<Byte>)
    requires line + a == line + b
    ensures a == b
  {
    assert a == (line + a)[|line|..];
    assert b == (line + b)[|line|..];
  }

  lemma {:induction false} HasSep(a: seq<Byte>, b: seq<Byte>)
    requires CountSeps(a) > 0
    ensures SepIndex(a + b) < |a| && SepIndex(a + b) == SepIndex(a)
  {
    NoSeps(a);
    SepIndexUnique(a + b, SepIndex(a));
  }

  // ---------- many reads ----------

  /** What k calls of Read have pulled from the source, given to the caller, and left behind, and the last error. */
  datatype Session = Session(state: State, pulled: seq<Byte>, out: seq<Byte>, err: Error)

  function Pull(s: State): seq<Byte>
  {
    if s.maxLinesLimit <= 0 then [] else Head(s.reader).data
  }

  function Reads(source: Source, n: int, k: nat): Session
  {
    if k == 0 then Session(State(source, n, 0), [], [], NoError)
    else
      var p := Reads(source, n, k - 1);
      var (state, data, err) := ReadStep(p.state);
      Session(state, p.pulled + Pull(p.state), p.out + data, err)
  }

  /**
    After any number of reads, however the source cuts its data: the caller has received everything pulled
    as long as that has at most n separators, and exactly the first n lines of it otherwise; the counter is
    the number of separators pulled.
   */
  lemma {:induction false} LimitIsExact(source: Source, n: nat, k: nat)
    ensures var r := Reads(source, n, k);
            && r.state.totalLinesRead == CountSeps(r.pulled)
            && (CountSeps(r.pulled) <= n ==> r.out == r.pulled && r.state.maxLinesLimit == n - CountSeps(r.pulled))
            && (CountSeps(r.pulled) > n ==> r.out == FirstLines(r.pulled, n) && r.state.maxLinesLimit == 0)
  {
    hide CountSeps, FirstLines;
    if k == 0 {
      NoLinesYet([]);
    } else {
      LimitIsExact(source, n, k - 1);
      var p := Reads(source, n, k - 1);
      var data := Pull(p.state);
      CountSepsConcat(p.pulled, data);
      if p.state.maxLinesLimit <= 0 {
        assert p.pulled + [] == p.pulled && p.out + [] == p.out;
      } else if CountSeps(data) > p.state.maxLinesLimit {
        TakeMore(p.pulled, data, n);
      }
    }
  }

  /** The counter of a reader counts every separator it has pulled, those it has not handed on included. */
  lemma {:induction false} CounterCountsPulled(r: LineLimitedReader, source: Source, n: nat, k: nat)
    requires r.Abstract() == Reads(source, n, k).state
    ensures r.GetTotalLinesRead() == CountSeps(Reads(source, n, k).pulled) >= CountSeps(Reads(source, n, k).out)
  {
    hide CountSeps, FirstLines, Reads;
    LimitIsExact(source, n, k);
    NeverTooManyLines(source, n, k);
  }

  /** Taking n lines across a cut. */
  lemma {:induction false} TakeMore(a: seq<Byte>, b: seq<Byte>, n: nat)
    requires CountSeps(a) < n && CountSeps(b) > n - CountSeps(a)
    ensures FirstLines(a + b, n) == a + FirstLines(b, n - CountSeps(a))
    decreases |a|
  {
    hide CountSeps, FirstLines, SepIndex;
    NoSeps(a);
    NoSeps(b);
    if SepIndex(a) == |a| {
      var i := SepIndex(b);
      TakeLine(b, n, i);
      TakeLine(a + b, n, |a| + i);
      assert (a + b)[..|a| + i + 1] == a + b[..i + 1];
      assert (a + b)[|a| + i + 1..] == b[i + 1..];
    } else {
      var i := SepIndex(a);
      HasSep(a, b);
      var line, rest := a[..i + 1], a[i + 1..];
      assert (a + b)[..i + 1] == line && (a + b)[i + 1..] == rest + b;
      assert a == line + rest;
      OneLine(a);
      CountSepsConcat(line, rest);
      TakeLine(a + b, n, i);
      TakeMore(rest, b, n - 1);
    }
  }

  /** The caller's bytes are a prefix of the source's, with at most n separators. */
  lemma {:induction false} NeverTooManyLines(source: Source, n: nat, k: nat)
    ensures var r := Reads(source, n, k);
            && r.out <= r.pulled
            && CountSeps(r.out) == if CountSeps(r.pulled) > n then n else CountSeps(r.pulled)
  {
    hide CountSeps, FirstLines;
    LimitIsExact(source, n, k);
    FirstLinesShape(Reads(source, n, k).pulled, n);
  }

  /**
    Each read gives the whole chunk and the source's error until the n-th line is complete and another separator or
    another read follows; then it answers EOF, and the caller has exactly n separators.
   */
  lemma {:induction false} LimitAnswersEof(source: Source, n: nat, k: nat)
    requires k > 0
    ensures var p, r := Reads(source, n, k - 1), Reads(source, n, k);
            if CountSeps(p.pulled) >= n || CountSeps(r.pulled) > n
            then r.err == EOF && CountSeps(r.out) == n
            else r.err == Head(p.state.reader).err && r.out == p.out + Head(p.state.reader).data
  {
    hide CountSeps, FirstLines;
    var p := Reads(source, n, k - 1);
    LimitIsExact(source, n, k - 1);
    NeverTooManyLines(source, n, k);
    CountSepsConcat(p.pulled, Pull(p.state));
    assert p.pulled + [] == p.pulled;
  }

  lemma {:induction false} FirstLinesShape(s: seq<Byte>, n: nat)
    ensures FirstLines(s, n) <= s
    ensures CountSeps(s) > n ==> CountSeps(FirstLines(s, n)) == n
  {
    hide CountSeps, FirstLines, SepIndex;
    NoSeps(s);
    if n == 0 {
      NoLinesYet(s);
    } else if SepIndex(s) == |s| {
      TakeLine(s, n, |s|);
    } else {
      var i := SepIndex(s);
      TakeLine(s, n, i);
      FirstLinesShape(s[i + 1..], n - 1);
      OneLine(s);
      assert s == s[..i + 1] + s[i + 1..];
      CountSepsConcat(s[..i + 1], s[i + 1..]);
      CountSepsConcat(s[..i + 1], FirstLines(s[i + 1..], n - 1));
    }
  }

  /**
    At the limit the caller has the first n lines and at most a separator-free piece of the next one, no longer than
    the chunk of one read: the read that pulled the n-th separator, before which fewer had been pulled.
   */
  lemma {:induction false} OverrunIsOnePiece(source: Source, n: nat, k: nat)
    requires n > 0 && Reads(source, n, k).state.maxLinesLimit == 0
    ensures var r := Reads(source, n, k);
            exists piece, j: nat :: j < k && LastChunk(source, n, k, j)
              && r.out == FirstLines(r.pulled, n) + piece && CountSeps(piece) == 0
              && |piece| <= |Pull(Reads(source, n, j).state)|
  {
    hide CountSeps, FirstLines, Reads;
    var j := LastPull(source, n, k);
    LimitIsExact(source, n, k);
    var r, before := Reads(source, n, k), Reads(source, n, j);
    var piece := OverrunOf(before.pulled, Pull(before.state), r.out, n);
  }

  /** The j-th read has pulled the n-th separator, and no later one has pulled anything. */
  ghost predicate LastChunk(source: Source, n: nat, k: nat, j: nat)
  {
    var before, r := Reads(source, n, j), Reads(source, n, k);
    r.pulled == before.pulled + Pull(before.state) && CountSeps(before.pulled) < n <= CountSeps(r.pulled)
  }

  lemma {:induction false} OverrunOf(earlier: seq<Byte>, chunk: seq<Byte>, out: seq<Byte>, n: nat)
    returns (piece: seq<Byte>)
    requires CountSeps(earlier) < n <= CountSeps(earlier + chunk)
    requires CountSeps(earlier + chunk) == n ==> out == earlier + chunk
    requires CountSeps(earlier + chunk) > n ==> out == FirstLines(earlier + chunk, n)
    ensures out == FirstLines(earlier + chunk, n) + piece && CountSeps(piece) == 0 && |piece| <= |chunk|
  {
    hide CountSeps, FirstLines;
    var pulled := earlier + chunk;
    FirstLinesShape(pulled, n);
    if CountSeps(pulled) > n {
      NoLinesYet(pulled);
      piece := [];
      assert out + [] == out;
    } else {
      piece := pulled[|FirstLines(pulled, n)|..];
      AllLines(pulled);
      TakesPast(earlier, chunk, n);
    }
  }

  lemma {:induction false} LastPull(source: Source, n: nat, k: nat) returns (j: nat)
    requires n > 0 && Reads(source, n, k).state.maxLinesLimit == 0
    ensures j < k && LastChunk(source, n, k, j)
  {
    hide CountSeps, FirstLines;
    LimitIsExact(source, n, k);
    if k > 0 {
      var p := Reads(source, n, k - 1);
      LimitIsExact(source, n, k - 1);
      if p.state.maxLinesLimit == 0 {
        j := LastPull(source, n, k - 1);
        assert p.pulled + [] == p.pulled;
      } else {
        j := k - 1;
      }
    }
  }

  /** With exactly n separators, what follows the n-th line has none. */
  lemma {:induction false} AllLines(s: seq<Byte>)
    ensures var n := CountSeps(s);
            FirstLines(s, n) <= s && CountSeps(s[|FirstLines(s, n)|..]) == 0
  {
    hide CountSeps, FirstLines, SepIndex;
    NoSeps(s);
    FirstLinesShape(s, CountSeps(s));
    if SepIndex(s) < |s| {
      var i := SepIndex(s);
      TakeLine(s, CountSeps(s), i);
      var rest := s[i + 1..];
      OneLine(s);
      assert s == s[..i + 1] + rest;
      CountSepsConcat(s[..i + 1], rest);
      AllLines(rest);
      assert s[|FirstLines(s, CountSeps(s))|..] == rest[|FirstLines(rest, CountSeps(rest))|..];
    } else {
      NoLinesYet(s);
      assert s[0..] == s;
    }
  }

  /** If the n-th separator lies in the chunk, the first n lines reach past everything earlier. */
  lemma {:induction false} TakesPast(earlier: seq<Byte>, chunk: seq<Byte>, n: nat)
    requires CountSeps(earlier) < n && CountSeps(earlier + chunk) == n
    ensures |FirstLines(earlier + chunk, n)| >= |earlier|
  {
    hide CountSeps, FirstLines;
    var s := earlier + chunk;
    FirstLinesShape(s, n);
    AllLines(s);
    var whole := |FirstLines(s, n)|;
    assert s == s[..whole] + s[whole..];
    if whole < |earlier| {
      assert s[whole..] == earlier[whole..] + chunk;
      assert earlier == earlier[..whole] + earlier[whole..];
      CountSepsConcat(earlier[whole..], chunk);
      CountSepsConcat(earlier, chunk);
    }
  }
}
