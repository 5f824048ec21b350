/** Byte streams, readers and lines: package bytes, io.Reader, and utils.MetricsLineSep. */
module Lines {
  import opened Bytes

  const LINE_SEP: Byte := 10

  datatype Error = NoError | EOF | Failure(reason: string)

  /** The answer of one io.Reader.Read call: the bytes read and the error. */
  datatype Answer = Answer(data: seq<Byte>, err: Error)

  /** What a reader will answer, call by call; after the last one it answers with no data and EOF. */
  type Source = seq<Answer>

  function Head(source: Source): Answer { if source == [] then Answer([], EOF) else source[0] }

  function Tail(source: Source): Source { if source == [] then [] else source[1..] }

  function Concat(pieces: seq<seq<Byte>>): seq<Byte>
  {
    if pieces == [] then [] else pieces[0] + Concat(pieces[1..])
  }

  predicate HasPrefix(s: seq<Byte>, prefix: seq<Byte>) { |prefix| <= |s| && s[..|prefix|] == prefix }

  predicate HasSuffixSep(s: seq<Byte>) { s != [] && s[|s| - 1] == LINE_SEP }

  /** The index of the first separator, or the length. */
  function SepIndex(s: seq<Byte>): (i: nat)
    ensures i <= |s|
    ensures i < |s| ==> s[i] == LINE_SEP
    ensures forall j | 0 <= j < i :: s[j] != LINE_SEP
  {
    if s == [] || s[0] == LINE_SEP then 0 else 1 + SepIndex(s[1..])
  }

  /** bytes.SplitAfter: the pieces end after each separator; the last piece, maybe empty, has none. */
  function SplitAfter(s: seq<Byte>): (pieces: seq<seq<Byte>>)
    ensures pieces != []
  {
    var i := SepIndex(s);
    if i == |s| then [s] else [s[..i + 1]] + SplitAfter(s[i + 1..])
  }

  function CountSeps(s: seq<Byte>): nat
  {
    if s == [] then 0 else CountSeps(s[..|s| - 1]) + if s[|s| - 1] == LINE_SEP then 1 else 0
  }

  lemma {:induction false} SepIndexUnique(s: seq<Byte>, i: nat)
    requires i <= |s|
    requires i < |s| ==> s[i] == LINE_SEP
    requires forall j | 0 <= j < i :: s[j] != LINE_SEP
    ensures SepIndex(s) == i
  {}

  lemma {:induction false} SplitStep(s: seq<Byte>, i: nat)
    requires i <= |s|
    requires i < |s| ==> s[i] == LINE_SEP
    requires forall j | 0 <= j < i :: s[j] != LINE_SEP
    ensures SepIndex(s) == i
    ensures SplitAfter(s) == if i == |s| then [s] else [s[..i + 1]] + SplitAfter(s[i + 1..])
  {
    SepIndexUnique(s, i);
  }

  /** Splitting loses nothing, and cuts exactly after separators. */
  lemma {:induction false} SplitAfterShape(s: seq<Byte>)
    ensures var pieces := SplitAfter(s);
            && Concat(pieces) == s
            && (forall k | 0 <= k < |pieces| - 1 :: HasSuffixSep(pieces[k]) && SepIndex(pieces[k]) == |pieces[k]| - 1)
            && (forall k | 0 <= k < |pieces| - 1 :: pieces[k] != [] && pieces[k][|pieces[k]| - 1] == 10)
            && SepIndex(pieces[|pieces| - 1]) == |pieces[|pieces| - 1]|
  {
    hide SplitAfter, SepIndex;
    var i := SepIndex(s);
    SplitStep(s, i);
    if i == |s| {
      assert [s][1..] == [];
    } else {
      var rest := SplitAfter(s[i + 1..]);
      SplitAfterShape(s[i + 1..]);
      SepIndexUnique(s[..i + 1], i);
      assert SplitAfter(s)[1..] == rest;
      assert s == s[..i + 1] + s[i + 1..];
    }
  }

  lemma {:induction false} CountSepsConcat(a: seq<Byte>, b: seq<Byte>)
    ensures CountSeps(a + b) == CountSeps(a) + CountSeps(b)
  {
    if b == [] {
      assert a + b == a;
    } else {
      assert (a + b)[..|a + b| - 1] == a + b[..|b| - 1];
      CountSepsConcat(a, b[..|b| - 1]);
    }
  }

  lemma {:induction false} NoSeps(s: seq<Byte>)
    ensures CountSeps(s) == 0 <==> SepIndex(s) == |s|
  {
    if s != [] {
      var init := s[..|s| - 1];
      NoSeps(init);
      if SepIndex(init) < |init| {
        SepIndexUnique(s, SepIndex(init));
      } else {
        SepIndexUnique(s, if s[|s| - 1] == LINE_SEP then |s| - 1 else |s|);
      }
    }
  }
}
