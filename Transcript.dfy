/** Flattening a recognition response into one list of timed words, with a
    sentinel `.` closing every result segment that had alternatives. */
module Transcript {
  import opened Wrappers
  import opened Text

  /** A word hypothesis as the recogniser returns it; `D` is the service's
      duration type for the two offsets. */
  datatype WordInfo<D> = WordInfo(word: string, startOffset: D, endOffset: D)

  /** One ranked transcription of a segment. */
  datatype Alternative<D> = Alternative(transcript: string, words: seq<WordInfo<D>>)

  /** One result segment; `None` stands for a segment whose `alternatives`
      cannot be read at all. */
  datatype SegmentResult<D> = SegmentResult(alternatives: Option<seq<Alternative<D>>>)

  /** A flattened word with its times, `T` being what `parse_time` yields. */
  datatype RecogResult<T> = RecogResult(word: string, startTime: T, endTime: T)

  /** The sentinel was about to be appended while `end_time` had never been
      assigned: a first kept segment with no words. */
  datatype TranscriptError = EndTimeUnbound

  const SentinelWord := "."

  /** The words of the best alternative of a segment that has alternatives;
      `None` for a segment the loop skips. */
  function BestWords<D>(r: SegmentResult<D>): (bw: Option<seq<WordInfo<D>>>)
    ensures bw.Some? <==> r.alternatives.Some? && |r.alternatives.value| > 0
    ensures bw.Some? ==> bw.value == r.alternatives.value[0].words
  {
    match r.alternatives
    case None => None
    case Some(alts) => if |alts| > 0 then Some(alts[0].words) else None
  }

  /** The segment is kept and its best alternative has at least one word. */
  predicate HasWords<D>(r: SegmentResult<D>) {
    BestWords(r).Some? && |BestWords(r).value| > 0
  }

  /** The flattened form of one word. */
  function Emit<D, T>(w: WordInfo<D>, parseTime: D -> T): RecogResult<T> {
    RecogResult(ToLower(w.word), parseTime(w.startOffset), parseTime(w.endOffset))
  }

  /** The flattened forms of the words, in order. */
  function EmitAll<D, T>(ws: seq<WordInfo<D>>, parseTime: D -> T): (out: seq<RecogResult<T>>)
    ensures |out| == |ws|
    ensures forall i :: 0 <= i < |ws| ==> out[i] == Emit(ws[i], parseTime)
  {
    if ws == [] then [] else EmitAll(ws[..|ws| - 1], parseTime) + [Emit(ws[|ws| - 1], parseTime)]
  }

  /** The value of `end_time` after the loop has seen `rs`: the end of the
      last word of the last kept segment that had words, if any. */
  function LastEnd<D, T>(rs: seq<SegmentResult<D>>, parseTime: D -> T): Option<T>
    decreases |rs|
  {
    if rs == [] then None
    else
      var r := rs[|rs| - 1];
      if HasWords(r) then
        var ws := BestWords(r).value;
        Some(parseTime(ws[|ws| - 1].endOffset))
      else
        LastEnd(rs[..|rs| - 1], parseTime)
  }

  /** `parse_transcript` as a function of the segments: the flattened words,
      or the error raised by an unbound `end_time`. */
  function Flatten<D, T>(rs: seq<SegmentResult<D>>, parseTime: D -> T)
    : Result<seq<RecogResult<T>>, TranscriptError>
    decreases |rs|
  {
    if rs == [] then Success([])
    else
      match Flatten(rs[..|rs| - 1], parseTime)
      case Failure(e) => Failure(e)
      case Success(out) =>
        match BestWords(rs[|rs| - 1])
        case None => Success(out)
        case Some(ws) =>
          match LastEnd(rs, parseTime)
          case None => Failure(EndTimeUnbound)
          case Some(t) => Success(out + EmitAll(ws, parseTime) + [RecogResult(SentinelWord, t, t)])
  }

  /** The loops of the source: for each kept segment, append its best
      alternative's words, then the sentinel at the running `end_time`. */
  method ParseTranscript<D, T>(results: seq<SegmentResult<D>>, parseTime: D -> T)
    returns (r: Result<seq<RecogResult<T>>, TranscriptError>)
    ensures r == Flatten(results, parseTime)
  {
    var words: seq<RecogResult<T>> := [];
    var endTime: Option<T> := None;
    var i := 0;
    while i < |results|
      invariant 0 <= i <= |results|
      invariant Flatten(results[..i], parseTime) == Success(words)
      invariant endTime == LastEnd(results[..i], parseTime)
    {
      var prefix := results[..i + 1];
      assert prefix[..i] == results[..i];
      var ok := match results[i].alternatives
                case None => false
                case Some(alts) => |alts| > 0;
      if !ok {
        assert BestWords(results[i]).None?;
        i := i + 1;
        continue;
      }
      var best := results[i].alternatives.value[0].words;
      assert BestWords(results[i]) == Some(best);
      ghost var before := words;
      var j := 0;
      while j < |best|
        invariant 0 <= j <= |best|
        invariant words == before + EmitAll(best[..j], parseTime)
        invariant endTime == if j == 0 then LastEnd(results[..i], parseTime)
                             else Some(parseTime(best[j - 1].endOffset))
      {
        assert best[..j + 1][..j] == best[..j];
        var startTime := parseTime(best[j].startOffset);
        var e := parseTime(best[j].endOffset);
        endTime := Some(e);
        words := words + [RecogResult(ToLower(best[j].word), startTime, e)];
        j := j + 1;
      }
      assert best[..j] == best;
      assert prefix[i] == results[i] && prefix[..i] == results[..i];
      assert endTime == LastEnd(prefix, parseTime);
      if endTime.None? {
        r := Failure(EndTimeUnbound);
        FlattenFailureStays(results, parseTime, i + 1);
        return;
      }
      words := words + [RecogResult(SentinelWord, endTime.value, endTime.value)];
      i := i + 1;
    }
    assert results[..i] == results;
    r := Success(words);
  }

  /** Once the sentinel has raised, later segments do not matter. */
  lemma {:induction false} FlattenFailureStays<D, T>(rs: seq<SegmentResult<D>>, parseTime: D -> T, n: nat)
    requires n <= |rs| && Flatten(rs[..n], parseTime).Failure?
    ensures Flatten(rs, parseTime) == Flatten(rs[..n], parseTime)
    decreases |rs| - n
  {
    if n < |rs| {
      assert rs[..n + 1][..n] == rs[..n];
      FlattenFailureStays(rs, parseTime, n + 1);
    } else {
      assert rs[..n] == rs;
    }
  }

  /** `end_time` is unbound exactly when no segment seen so far had words. */
  lemma {:induction false} LastEndNone<D, T>(rs: seq<SegmentResult<D>>, parseTime: D -> T)
    ensures LastEnd(rs, parseTime).None? <==> forall j :: 0 <= j < |rs| ==> !HasWords(rs[j])
  {
    if rs != [] {
      var init := rs[..|rs| - 1];
      LastEndNone(init, parseTime);
      assert forall j :: 0 <= j < |init| ==> init[j] == rs[j];
    }
  }

  /** The flattening fails exactly when some kept segment has no words and
      no earlier segment had any. */
  lemma {:induction false} FlattenFailsIff<D, T>(rs: seq<SegmentResult<D>>, parseTime: D -> T)
    ensures Flatten(rs, parseTime).Failure? <==>
      exists i :: 0 <= i < |rs| && BestWords(rs[i]) == Some([])
                  && forall j :: 0 <= j < i ==> !HasWords(rs[j])
  {
    if rs != [] {
      var n := |rs| - 1;
      var init := rs[..n];
      FlattenFailsIff(init, parseTime);
      LastEndNone(init, parseTime);
      assert forall j :: 0 <= j < |init| ==> init[j] == rs[j];
      if Flatten(init, parseTime).Failure? {
        var i :| 0 <= i < |init| && BestWords(init[i]) == Some([])
                 && forall j :: 0 <= j < i ==> !HasWords(init[j]);
        assert BestWords(rs[i]) == Some([]);
      } else if Flatten(rs, parseTime).Failure? {
        assert BestWords(rs[n]) == Some([]);
      }
    }
  }

  /** The number of entries the kept segments contribute: their words plus
      one sentinel each. */
  function KeptSize<D>(rs: seq<SegmentResult<D>>): nat
    decreases |rs|
  {
    if rs == [] then 0
    else
      KeptSize(rs[..|rs| - 1]) +
        match BestWords(rs[|rs| - 1])
        case None => 0
        case Some(ws) => |ws| + 1
  }

  /** The output length is the sum over kept segments of words plus one. */
  lemma {:induction false} FlattenLength<D, T>(rs: seq<SegmentResult<D>>, parseTime: D -> T)
    requires Flatten(rs, parseTime).Success?
    ensures |Flatten(rs, parseTime).value| == KeptSize(rs)
  {
    if rs != [] {
      FlattenLength(rs[..|rs| - 1], parseTime);
    }
  }

  /** A segment that is skipped leaves `end_time` alone, wherever it stands. */
  lemma {:induction false} LastEndSkips<D, T>(before: seq<SegmentResult<D>>, s: SegmentResult<D>,
                                               after: seq<SegmentResult<D>>, parseTime: D -> T)
    requires BestWords(s).None?
    ensures LastEnd(before + [s] + after, parseTime) == LastEnd(before + after, parseTime)
    decreases |after|
  {
    var l := before + [s] + after;
    var m := before + after;
    if after == [] {
      assert l[..|l| - 1] == before;
      assert m == before;
    } else {
      var init := after[..|after| - 1];
      LastEndSkips(before, s, init, parseTime);
      assert l[..|l| - 1] == before + [s] + init;
      assert m[..|m| - 1] == before + init;
      assert l[|l| - 1] == m[|m| - 1];
    }
  }

  /** A segment that is skipped contributes nothing, wherever it stands. */
  lemma {:induction false} FlattenSkips<D, T>(before: seq<SegmentResult<D>>, s: SegmentResult<D>,
                                               after: seq<SegmentResult<D>>, parseTime: D -> T)
    requires BestWords(s).None?
    ensures Flatten(before + [s] + after, parseTime) == Flatten(before + after, parseTime)
    decreases |after|
  {
    var l := before + [s] + after;
    var m := before + after;
    if after == [] {
      assert l[..|l| - 1] == before;
      assert m == before;
    } else {
      var init := after[..|after| - 1];
      FlattenSkips(before, s, init, parseTime);
      LastEndSkips(before, s, after, parseTime);
      assert l[..|l| - 1] == before + [s] + init;
      assert m[..|m| - 1] == before + init;
      assert l[|l| - 1] == m[|m| - 1];
    }
  }

  /** Every kept segment has at least one word. */
  predicate EveryKeptHasWords<D>(rs: seq<SegmentResult<D>>) {
    forall i :: 0 <= i < |rs| ==> BestWords(rs[i]).Some? ==> |BestWords(rs[i]).value| > 0
  }

  /** What one segment contributes when it has words: its words, then a
      sentinel at its last word's end time. A skipped segment contributes
      nothing; a kept segment without words, whose sentinel depends on the
      segments before it, is outside this reading and also yields nothing. */
  function SegmentOutput<D, T>(r: SegmentResult<D>, parseTime: D -> T): seq<RecogResult<T>> {
    match BestWords(r)
    case None => []
    case Some(ws) =>
      if ws == [] then []
      else
        var t := parseTime(ws[|ws| - 1].endOffset);
        EmitAll(ws, parseTime) + [RecogResult(SentinelWord, t, t)]
  }

  /** The concatenation of `f` over `xs`, from the front. */
  function ConcatMap<X, Y>(xs: seq<X>, f: X -> seq<Y>): seq<Y> {
    if xs == [] then [] else f(xs[0]) + ConcatMap(xs[1..], f)
  }

  /** The front-to-back concatenation also extends at the back. */
  lemma {:induction false} ConcatMapSnoc<X, Y>(xs: seq<X>, f: X -> seq<Y>)
    requires xs != []
    ensures ConcatMap(xs, f) == ConcatMap(xs[..|xs| - 1], f) + f(xs[|xs| - 1])
    decreases |xs|
  {
    var init := xs[..|xs| - 1];
    if |xs| > 1 {
      var tail := xs[1..];
      ConcatMapSnoc(tail, f);
      assert tail[..|tail| - 1] == init[1..];
      assert init[0] == xs[0] && tail[|tail| - 1] == xs[|xs| - 1];
      calc {
        ConcatMap(xs, f);
        f(xs[0]) + ConcatMap(tail, f);
        f(xs[0]) + (ConcatMap(init[1..], f) + f(xs[|xs| - 1]));
        (f(xs[0]) + ConcatMap(init[1..], f)) + f(xs[|xs| - 1]);
        ConcatMap(init, f) + f(xs[|xs| - 1]);
      }
    } else {
      assert init == [];
      assert xs[1..] == [];
    }
  }

  /** An independent reading of the output: the segments' contributions
      concatenated from the front. */
  function Concatenated<D, T>(rs: seq<SegmentResult<D>>, parseTime: D -> T): seq<RecogResult<T>> {
    ConcatMap(rs, r => SegmentOutput(r, parseTime))
  }

  /** The front-to-back reading also extends at the back one segment at a time. */
  lemma ConcatenatedSnoc<D, T>(rs: seq<SegmentResult<D>>, parseTime: D -> T)
    requires rs != []
    ensures Concatenated(rs, parseTime) ==
      Concatenated(rs[..|rs| - 1], parseTime) + SegmentOutput(rs[|rs| - 1], parseTime)
  {
    ConcatMapSnoc(rs, r => SegmentOutput(r, parseTime));
  }

  /** When every kept segment has words, the flattening never fails and is
      exactly each segment's words followed by its sentinel, in segment order. */
  lemma {:induction false} FlattenIsConcatenation<D, T>(rs: seq<SegmentResult<D>>, parseTime: D -> T)
    requires EveryKeptHasWords(rs)
    ensures Flatten(rs, parseTime) == Success(Concatenated(rs, parseTime))
    decreases |rs|
  {
    if rs != [] {
      var init := rs[..|rs| - 1];
      assert forall i :: 0 <= i < |init| ==> init[i] == rs[i];
      ConcatenatedSnoc(rs, parseTime);
      FlattenIsConcatenation(init, parseTime);
      var r := rs[|rs| - 1];
      match BestWords(r)
      case None =>
        assert SegmentOutput(r, parseTime) == [];
        assert Concatenated(rs, parseTime) == Concatenated(init, parseTime) + [];
        assert Concatenated(init, parseTime) + [] == Concatenated(init, parseTime);
        assert Flatten(rs, parseTime) == Flatten(init, parseTime);
      case Some(ws) =>
        assert HasWords(r);
        var t := parseTime(ws[|ws| - 1].endOffset);
        assert LastEnd(rs, parseTime) == Some(t);
        assert SegmentOutput(r, parseTime) == EmitAll(ws, parseTime) + [RecogResult(SentinelWord, t, t)];
        assert Flatten(rs, parseTime) == Success(Concatenated(init, parseTime) + EmitAll(ws, parseTime)
                                                 + [RecogResult(SentinelWord, t, t)]);
        assert Concatenated(init, parseTime) + EmitAll(ws, parseTime) + [RecogResult(SentinelWord, t, t)]
            == Concatenated(init, parseTime) + (EmitAll(ws, parseTime) + [RecogResult(SentinelWord, t, t)]);
    }
  }
}
