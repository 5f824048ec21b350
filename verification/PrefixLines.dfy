/**
  pkg/utils/read_lines_with_prefix.go: ReadAllLinesWithPrefix with a nil lineFunc.

  Whatever way a reader cuts the stream into reads, the result is the concatenation of the stream's lines
  that begin with the prefix, an unterminated last line included.
 */
module PrefixLines {
  import opened Bytes
  import opened Lines

  // ---------- what the result should be ----------

  function Keep(lines: seq<seq<Byte>>, prefix: seq<Byte>): seq<Byte>
  {
    if lines == [] then []
    else (if HasPrefix(lines[0], prefix) then lines[0] else []) + Keep(lines[1..], prefix)
  }

  /** The lines of the whole stream that begin with the prefix, in order. */
  function LinesWithPrefix(stream: seq<Byte>, prefix: seq<Byte>): seq<Byte>
  {
    Keep(SplitAfter(stream), prefix)
  }

  /** The bytes that reach the filter: those of a read that fails other than by EOF are dropped. */
  function Accepted(source: Source): seq<Byte>
    decreases |source|
  {
    var a := Head(source);
    if a.data == [] || a.err.Failure? then []
    else if a.err.EOF? then a.data
    else a.data + Accepted(Tail(source))
  }

  /** The error of the read that ends the loop. */
  function Ending(source: Source): Error
    decreases |source|
  {
    var a := Head(source);
    if a.data == [] || a.err != NoError then a.err else Ending(Tail(source))
  }

  // ---------- the read loop ----------

  datatype ReadError = FromReader(err: Error) | UnexpectedLine

  function AppendBufferIfLinePrefixed(buff: seq<Byte>, prefix: seq<Byte>, line: seq<Byte>): (r: seq<Byte>)
    ensures r == buff + KeepOne(line, prefix)
  {
    if HasPrefix(line, prefix) then buff + line else buff
  }

  method ReadAllLinesWithPrefix(source: Source, prefix: seq<Byte>) returns (buff: seq<Byte>, err: ReadError)
    ensures buff == LinesWithPrefix(Accepted(source), prefix)
    ensures err == FromReader(Ending(source))
  {
    hide SplitAfter, Keep, Accepted, Ending, HasSuffixSep, AppendBufferIfLinePrefixed, SepIndex, Complete, Rest,
      KeepOne;
    buff := [];
    var partialLine: seq<Byte> := [];
    var reader := source;
    ghost var seen: seq<Byte> := [];
    NothingSeen(prefix);
    while true
      invariant Accepted(source) == seen + Accepted(reader)
      invariant Ending(source) == Ending(reader)
      invariant buff == Complete(seen, prefix) && partialLine == Rest(seen)
      decreases |reader|
    {
      var a := Head(reader);
      ReadOnce(reader);
      // an empty read or a failure ends the loop, without the data it came with
      if |a.data| <= 0 || a.err.Failure? {
        FlushRest(seen, prefix);
        assert seen + [] == seen;
        buff := AppendBufferIfLinePrefixed(buff, prefix, partialLine);
        return buff, FromReader(a.err);
      }
      reader := Tail(reader);
      var lines := SplitAfter(a.data);
      MoreSeen(seen, a.data, prefix);

      // earlier reads have left the beginning of a line
      if |partialLine| > 0 {
        partialLine := partialLine + lines[0];
        lines := lines[1..];
        // this read has brought its end
        if HasSuffixSep(partialLine) {
          buff := AppendBufferIfLinePrefixed(buff, prefix, partialLine);
          partialLine := [];
        } else if |lines| > 0 {
          return buff, UnexpectedLine;
        }
      }
      // what follows the last separator waits for the next read
      if |lines| > 0 && !HasSuffixSep(lines[|lines| - 1]) {
        partialLine := partialLine + lines[|lines| - 1];
        lines := lines[..|lines| - 1];
      }
      // only whole lines are left
      ghost var start := buff;
      ghost var n := |SplitAfter(a.data)| - 1;
      assert lines == if n == 0 then []
        else if Rest(seen) == [] then SplitAfter(a.data)[..n] else SplitAfter(a.data)[1..n];
      FullLines(seen, a.data, prefix, start, lines);
      assert partialLine == Rest(seen + a.data);
      KeepNothing(prefix);
      for i := 0 to |lines|
        invariant buff == start + Keep(lines[..i], prefix)
      {
        KeepOneMore(lines[..i], lines[i], prefix);
        assert lines[..i + 1] == lines[..i] + [lines[i]];
        buff := AppendBufferIfLinePrefixed(buff, prefix, lines[i]);
      }
      assert lines[..|lines|] == lines;
      seen := seen + a.data;
      if a.err.EOF? {
        FlushRest(seen, prefix);
        buff := AppendBufferIfLinePrefixed(buff, prefix, partialLine);
        return buff, FromReader(a.err);
      }
    }
  }

  // ---------- the stream read so far ----------

  /** The filtered terminated lines of what was read. */
  function Complete(seen: seq<Byte>, prefix: seq<Byte>): seq<Byte>
  {
    var pieces := SplitAfter(seen);
    Keep(pieces[..|pieces| - 1], prefix)
  }

  /** The unterminated rest of what was read. */
  function Rest(seen: seq<Byte>): seq<Byte>
  {
    var pieces := SplitAfter(seen);
    pieces[|pieces| - 1]
  }

  function KeepOne(line: seq<Byte>, prefix: seq<Byte>): seq<Byte>
  {
    if HasPrefix(line, prefix) then line else []
  }

  lemma {:induction false} NothingSeen(prefix: seq<Byte>)
    ensures Complete([], prefix) == [] && Rest([]) == []
  {
    assert SplitAfter([]) == [[]];
  }

  lemma {:induction false} ReadOnce(source: Source)
    ensures var a := Head(source);
            var last := a.data == [] || a.err != NoError;
            && (last ==> Ending(source) == a.err)
            && (!last ==> source != [] && Ending(source) == Ending(Tail(source))
                          && Accepted(source) == a.data + Accepted(Tail(source)))
            && (a.data == [] || a.err.Failure? ==> Accepted(source) == [])
            && (a.data != [] && a.err.EOF? ==> Accepted(source) == a.data)
  {}

  lemma {:induction false} FlushRest(seen: seq<Byte>, prefix: seq<Byte>)
    ensures AppendBufferIfLinePrefixed(Complete(seen, prefix), prefix, Rest(seen)) == LinesWithPrefix(seen, prefix)
  {
    var pieces := SplitAfter(seen);
    var n := |pieces| - 1;
    assert pieces == pieces[..n] + [pieces[n]];
    KeepOneMore(pieces[..n], pieces[n], prefix);
  }

  lemma {:induction false} KeepConcat(a: seq<seq<Byte>>, b: seq<seq<Byte>>, prefix: seq<Byte>)
    ensures Keep(a + b, prefix) == Keep(a, prefix) + Keep(b, prefix)
  {
    if a == [] {
      assert a + b == b;
    } else {
      assert (a + b)[1..] == a[1..] + b;
      KeepConcat(a[1..], b, prefix);
    }
  }

  lemma {:induction false} KeepOneMore(lines: seq<seq<Byte>>, line: seq<Byte>, prefix: seq<Byte>)
    ensures Keep(lines + [line], prefix) == Keep(lines, prefix) + KeepOne(line, prefix)
  {
    KeepConcat(lines, [line], prefix);
    assert [line][1..] == [];
    assert Keep([line], prefix) == KeepOne(line, prefix);
  }

  /** Pieces of a stream with one more read: its unterminated rest is continued by the read's first piece. */
  lemma {:induction false} SplitMore(seen: seq<Byte>, c: seq<Byte>)
    ensures var was, lines := SplitAfter(seen), SplitAfter(c);
            SplitAfter(seen + c) == was[..|was| - 1] + [was[|was| - 1] + lines[0]] + lines[1..]
    decreases |seen|
  {
    hide SplitAfter, SepIndex;
    var i := SepIndex(seen);
    SplitStep(seen, i);
    if i < |seen| {
      SplitStep(seen + c, i);
      assert (seen + c)[..i + 1] == seen[..i + 1];
      assert (seen + c)[i + 1..] == seen[i + 1..] + c;
      SplitMore(seen[i + 1..], c);
      AddFirst(seen[..i + 1], SplitAfter(seen[i + 1..]), SplitAfter(c));
    } else {
      SplitOpen(seen, c);
    }
  }

  lemma {:induction false} AddFirst(first: seq<Byte>, was: seq<seq<Byte>>, lines: seq<seq<Byte>>)
    requires was != [] && lines != []
    ensures var m := |was| - 1;
            var all := [first] + was;
            [first] + (was[..m] + [was[m] + lines[0]] + lines[1..])
            == all[..m + 1] + [all[m + 1] + lines[0]] + lines[1..]
  {
    var m := |was| - 1;
    assert ([first] + was)[..m + 1] == [first] + was[..m];
  }

  lemma {:induction false} SplitOpen(seen: seq<Byte>, c: seq<Byte>)
    requires SepIndex(seen) == |seen|
    ensures SplitAfter(seen + c) == [seen + SplitAfter(c)[0]] + SplitAfter(c)[1..]
  {
    hide SplitAfter, SepIndex;
    var s, j := seen + c, SepIndex(c);
    SplitStep(s, |seen| + j);
    SplitStep(c, j);
    if j < |c| {
      assert s[..|seen| + j + 1] == seen + c[..j + 1];
      assert s[|seen| + j + 1..] == c[j + 1..];
      assert SplitAfter(c)[1..] == SplitAfter(c[j + 1..]);
    } else {
      assert [c][1..] == [];
    }
  }

  /** How one read changes the filtered lines and the rest, by whether it holds a separator. */
  lemma {:induction false} MoreSeen(seen: seq<Byte>, c: seq<Byte>, prefix: seq<Byte>)
    ensures var lines := SplitAfter(c);
            var n := |lines| - 1;
            var joined := Rest(seen) + lines[0];
            && (n == 0 ==> Rest(seen + c) == joined && Complete(seen + c, prefix) == Complete(seen, prefix))
            && (n > 0 ==> Rest(seen + c) == lines[n])
            && (n > 0 ==> Complete(seen + c, prefix)
                          == Complete(seen, prefix) + KeepOne(joined, prefix) + Keep(lines[1..n], prefix))
            && (n > 0 ==> Keep(lines[..n], prefix) == KeepOne(lines[0], prefix) + Keep(lines[1..n], prefix))
            && (HasSuffixSep(joined) <==> n > 0) && !HasSuffixSep(lines[n])
  {
    hide SplitAfter, Keep, SepIndex;
    var was, lines := SplitAfter(seen), SplitAfter(c);
    var n, m := |lines| - 1, |was| - 1;
    var joined := was[m] + lines[0];
    var pieces := SplitAfter(seen + c);
    SplitMore(seen, c);
    SeparatorsEndLines(seen, c);
    if n == 0 {
      assert pieces == was[..m] + [joined];
      assert pieces[..|pieces| - 1] == was[..m];
    } else {
      assert pieces[..|pieces| - 1] == was[..m] + [joined] + lines[1..n];
      KeepConcat(was[..m] + [joined], lines[1..n], prefix);
      KeepOneMore(was[..m], joined, prefix);
      assert lines[..n] == [lines[0]] + lines[1..n];
      KeepConcat([lines[0]], lines[1..n], prefix);
      KeepOneMore([], lines[0], prefix);
      assert [] + [lines[0]] == [lines[0]];
      KeepNothing(prefix);
    }
  }

  /** What the loop over the full lines adds: everything new that is complete. */
  lemma {:induction false} FullLines(
    seen: seq<Byte>, c: seq<Byte>, prefix: seq<Byte>, start: seq<Byte>, full: seq<seq<Byte>>)
    requires var lines := SplitAfter(c);
             var n := |lines| - 1;
             && (Rest(seen) == [] || n == 0 ==> start == Complete(seen, prefix))
             && (Rest(seen) != [] && n > 0 ==> start == Complete(seen, prefix) + KeepOne(Rest(seen) + lines[0], prefix))
             && full == (if n == 0 then [] else if Rest(seen) == [] then lines[..n] else lines[1..n])
    ensures start + Keep(full, prefix) == Complete(seen + c, prefix)
  {
    hide SplitAfter, Keep, SepIndex, Complete, Rest, KeepOne, HasSuffixSep;
    MoreSeen(seen, c, prefix);
    KeepNothing(prefix);
    assert [] + SplitAfter(c)[0] == SplitAfter(c)[0];
  }

  lemma {:induction false} KeepNothing(prefix: seq<Byte>)
    ensures Keep([], prefix) == []
  {}

  lemma {:induction false} SeparatorsEndLines(seen: seq<Byte>, c: seq<Byte>)
    ensures var was, lines := SplitAfter(seen), SplitAfter(c);
            (HasSuffixSep(was[|was| - 1] + lines[0]) <==> |lines| > 1) && !HasSuffixSep(lines[|lines| - 1])
  {
    hide SplitAfter, SepIndex;
    SplitAfterShape(seen);
    SplitAfterShape(c);
    var was, lines := SplitAfter(seen), SplitAfter(c);
    NoSepAtEnd(was[|was| - 1]);
    NoSepAtEnd(lines[|lines| - 1]);
    assert lines[0] == [] ==> was[|was| - 1] + lines[0] == was[|was| - 1];
  }

  lemma {:induction false} NoSepAtEnd(s: seq<Byte>)
    requires SepIndex(s) == |s|
    ensures !HasSuffixSep(s)
  {}

  // ---------- main result ----------

  /**
    Chunking independence: two readers that deliver the same bytes, whatever the cuts between their reads,
    lead to the same result.
   */
  method ReadTwoCuts(one: Source, two: Source, prefix: seq<Byte>) returns (r: seq<Byte>, s: seq<Byte>)
    requires Accepted(one) == Accepted(two)
    ensures r == s
  {
    var err;
    r, err := ReadAllLinesWithPrefix(one, prefix);
    s, err := ReadAllLinesWithPrefix(two, prefix);
  }

  function Cut(cuts: seq<seq<Byte>>): Source
  {
    seq(|cuts|, i requires 0 <= i < |cuts| => Answer(cuts[i], NoError))
  }

  /**
    Any cut of a stream into non-empty reads delivers all their data, and what comes with EOF; a read that fails in
    another way loses its data, an empty one ends the stream, and so does the end of the answers.
   */
  lemma {:induction false} AnyCutIsAccepted(cuts: seq<seq<Byte>>, last: Answer, unread: Source)
    requires forall i | 0 <= i < |cuts| :: cuts[i] != []
    requires last.data == [] || last.err != NoError
    ensures Accepted(Cut(cuts) + [last] + unread) == Concat(cuts) + if last.err.Failure? then [] else last.data
    ensures Ending(Cut(cuts) + [last] + unread) == last.err
    ensures Accepted(Cut(cuts)) == Concat(cuts) && Ending(Cut(cuts)) == EOF
  {
    hide Accepted, Ending, Concat;
    CutsComeFirst(cuts, [last] + unread);
    assert Cut(cuts) + [last] + unread == Cut(cuts) + ([last] + unread);
    LastRead(last, unread);
    CutsComeFirst(cuts, []);
    NoReads();
    assert Cut(cuts) + [] == Cut(cuts) && Concat(cuts) + [] == Concat(cuts);
  }

  lemma {:induction false} CutsComeFirst(cuts: seq<seq<Byte>>, more: Source)
    requires forall i | 0 <= i < |cuts| :: cuts[i] != []
    ensures Accepted(Cut(cuts) + more) == Concat(cuts) + Accepted(more)
    ensures Ending(Cut(cuts) + more) == Ending(more)
  {
    hide Accepted, Ending;
    if cuts == [] {
      assert Cut(cuts) + more == more;
    } else {
      CutsComeFirst(cuts[1..], more);
      CutFirst(cuts, more);
      GoodRead(Cut(cuts) + more);
    }
  }

  lemma {:induction false} NoReads()
    ensures Accepted([]) == [] && Ending([]) == EOF
  {}

  lemma {:induction false} LastRead(last: Answer, unread: Source)
    requires last.data == [] || last.err != NoError
    ensures Accepted([last] + unread) == if last.err.Failure? then [] else last.data
    ensures Ending([last] + unread) == last.err
  {
    assert Head([last] + unread) == last;
  }

  lemma {:induction false} CutFirst(cuts: seq<seq<Byte>>, more: Source)
    requires cuts != []
    ensures Head(Cut(cuts) + more) == Answer(cuts[0], NoError) && Tail(Cut(cuts) + more) == Cut(cuts[1..]) + more
  {}

  /** A read of some data without an error. */
  lemma {:induction false} GoodRead(source: Source)
    requires Head(source).data != [] && Head(source).err == NoError
    ensures Accepted(source) == Head(source).data + Accepted(Tail(source)) && Ending(source) == Ending(Tail(source))
  {}

  // ---------- which lines are kept ----------

  /** The line begins with the prefix, byte by byte. */
  predicate Begins(line: seq<Byte>, prefix: seq<Byte>)
  {
    |prefix| <= |line| && forall j | 0 <= j < |prefix| :: line[j] == prefix[j]
  }

  /** The places of the lines that begin with the prefix: all of them, in order. */
  ghost predicate Places(lines: seq<seq<Byte>>, prefix: seq<Byte>, at: seq<nat>)
  {
    && (forall i, j | 0 <= i < j < |at| :: at[i] < at[j])
    && (forall i: nat :: i in at <==> i < |lines| && Begins(lines[i], prefix))
  }

  /** What is kept of a stream is exactly its lines that begin with the prefix, whole and in order. */
  lemma {:induction false} KeptExactly(stream: seq<Byte>, prefix: seq<Byte>)
    returns (kept: seq<seq<Byte>>, at: seq<nat>)
    ensures LinesWithPrefix(stream, prefix) == Concat(kept)
    ensures Places(SplitAfter(stream), prefix, at) && |kept| == |at|
    ensures forall k | 0 <= k < |at| :: at[k] < |SplitAfter(stream)| && kept[k] == SplitAfter(stream)[at[k]]
  {
    kept, at := KeptLines(SplitAfter(stream), prefix);
  }

  lemma {:induction false} KeptLines(lines: seq<seq<Byte>>, prefix: seq<Byte>)
    returns (kept: seq<seq<Byte>>, at: seq<nat>)
    ensures Keep(lines, prefix) == Concat(kept)
    ensures Places(lines, prefix, at) && |kept| == |at|
    ensures forall k | 0 <= k < |at| :: at[k] < |lines| && kept[k] == lines[at[k]]
    decreases |lines|
  {
    hide Keep, Concat, Begins, HasPrefix;
    if lines == [] {
      kept, at := [], [];
      KeepNothing(prefix);
      NothingConcatenated();
    } else {
      var n := |lines| - 1;
      var last := lines[n];
      assert lines == lines[..n] + [last];
      kept, at := KeptLines(lines[..n], prefix);
      KeepOneMore(lines[..n], last, prefix);
      BeginsWithPrefix(last, prefix);
      if HasPrefix(last, prefix) {
        ConcatOneMore(kept, last);
        kept, at := kept + [last], at + [n];
      }
    }
  }

  lemma {:induction false} BeginsWithPrefix(line: seq<Byte>, prefix: seq<Byte>)
    ensures HasPrefix(line, prefix) <==> Begins(line, prefix)
  {}

  lemma {:induction false} NothingConcatenated()
    ensures Concat([]) == []
  {}

  lemma {:induction false} ConcatOneMore(pieces: seq<seq<Byte>>, last: seq<Byte>)
    ensures Concat(pieces + [last]) == Concat(pieces) + last
  {
    if pieces != [] {
      assert (pieces + [last])[1..] == pieces[1..] + [last];
      ConcatOneMore(pieces[1..], last);
    }
  }
}
