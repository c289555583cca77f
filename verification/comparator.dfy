/**
 The comparator as a whole: the frame loop over both streams, the
 per-frame integer mean squared error (`mse_y / frameSize`, the value the
 source hands to `psnr`), and the command-line dispatch in `main` that
 validates the subsampling argument and selects one of the three readers.
 */
module Comparator {
  import opened Common
  import opened Subsampling
  import opened Layouts
  import opened Frames
  import opened Scoring

  // ---------------------------------------------------------------------
  // Per-frame mean squared error

  /** Each accumulator divided, as unsigned integers, by the pixel count. */
  function Mse(e: Errors, fs: nat): (m: Errors)
    requires fs > 0
    ensures forall ch: Channel :: m.Get(ch) * fs <= e.Get(ch) < m.Get(ch) * fs + fs
  {
    DivBounds(e.y, fs);
    DivBounds(e.u, fs);
    DivBounds(e.v, fs);
    Errors(e.y / fs, e.u / fs, e.v / fs)
  }

  /** A frame whose two versions are byte-for-byte equal scores zero. */
  lemma MseOfZero(fs: nat)
    requires fs > 0
    ensures Mse(Errors(0, 0, 0), fs) == Errors(0, 0, 0)
  {
  }

  // ---------------------------------------------------------------------
  // The frame loop

  /** How a run over the two streams ends: every frame scored, or stopped at
      the first frame with a short read (where the source would go on with
      stale buffer contents). Either way `mse` holds the per-channel MSE of
      each frame scored, in order. */
  datatype Verdict = Scored(mse: seq<Errors>) | TruncatedAt(frame: nat, mse: seq<Errors>)

  /** Every frame before `n` can be read in full from both streams. */
  predicate ReadableUpTo(c: Config, ref: seq<byte>, tst: seq<byte>, n: nat) {
    forall f :: 0 <= f < n ==> FrameResult(c, ref, tst, f).Some?
  }

  /** The verdict of scoring frames 0 .. n-1 in order. */
  function ScoreFrames(c: Config, ref: seq<byte>, tst: seq<byte>, n: nat): (v: Verdict)
    requires c.FrameSize() > 0
    ensures v.Scored? <==> ReadableUpTo(c, ref, tst, n)
    ensures |v.mse| <= n && ReadableUpTo(c, ref, tst, |v.mse|)
    ensures forall f :: 0 <= f < |v.mse| ==> v.mse[f] == Mse(FrameResult(c, ref, tst, f).value, c.FrameSize())
    ensures v.Scored? ==> |v.mse| == n
    ensures v.TruncatedAt? ==> v.frame == |v.mse| && FrameResult(c, ref, tst, v.frame).None?
  {
    if n == 0 then Scored([])
    else
      match ScoreFrames(c, ref, tst, n - 1)
      case TruncatedAt(k, ms) => TruncatedAt(k, ms)
      case Scored(ms) =>
        match FrameResult(c, ref, tst, n - 1)
        case None => TruncatedAt(n - 1, ms)
        case Some(e) => Scored(ms + [Mse(e, c.FrameSize())])
  }

  /** The verdict over all frames both streams are taken to hold. */
  function Compare(c: Config, ref: seq<byte>, tst: seq<byte>): Verdict
    requires c.FrameSize() > 0
  {
    ScoreFrames(c, ref, tst, FramesToScore(c.layout, c.FrameSize(), |ref|, |tst|))
  }

  /** The frame after a run of scored frames extends the run or ends it. */
  lemma ScoreFramesStep(c: Config, ref: seq<byte>, tst: seq<byte>, n: nat, ms: seq<Errors>)
    requires c.FrameSize() > 0 && ScoreFrames(c, ref, tst, n) == Scored(ms)
    ensures FrameResult(c, ref, tst, n).None? ==> ScoreFrames(c, ref, tst, n + 1) == TruncatedAt(n, ms)
    ensures FrameResult(c, ref, tst, n).Some? ==>
              ScoreFrames(c, ref, tst, n + 1) == Scored(ms + [Mse(FrameResult(c, ref, tst, n).value, c.FrameSize())])
  {
  }

  /** A run stops at the first frame that cannot be read, however many
      frames it was meant to cover, keeping the scores of the frames before. */
  lemma {:induction false} TruncationPoint(c: Config, ref: seq<byte>, tst: seq<byte>, k: nat, n: nat)
    requires c.FrameSize() > 0 && k < n
    requires ReadableUpTo(c, ref, tst, k) && FrameResult(c, ref, tst, k).None?
    ensures ScoreFrames(c, ref, tst, n) == TruncatedAt(k, ScoreFrames(c, ref, tst, k).mse)
  {
    var v, u := ScoreFrames(c, ref, tst, n), ScoreFrames(c, ref, tst, k);
    assert !ReadableUpTo(c, ref, tst, n);
    assert v.frame == k;
    assert u.Scored? && |u.mse| == k == |v.mse|;
    assert forall f :: 0 <= f < k ==> v.mse[f] == u.mse[f];
  }

  /** `for (int f = 0; f < totalFrames; f++)` with the frame body of the
      selected reader. */
  method CompareStreams(c: Config, ref: seq<byte>, tst: seq<byte>) returns (v: Verdict)
    requires c.Valid()
    ensures v == Compare(c, ref, tst)
  {
    var fs := c.FrameSize();
    var total := FramesToScore(c.layout, fs, |ref|, |tst|);
    var mse: seq<Errors> := [];
    var f := 0;
    while f < total
      invariant 0 <= f <= total
      invariant ScoreFrames(c, ref, tst, f) == Scored(mse)
    {
      var sums := ScoreFrame(c, ref, tst, f);
      assert sums == FrameResult(c, ref, tst, f);
      ScoreFramesStep(c, ref, tst, f, mse);
      if sums.None? {
        TruncationPoint(c, ref, tst, f, total);
        return TruncatedAt(f, mse);
      }
      mse := mse + [Mse(sums.value, fs)];
      f := f + 1;
    }
    v := Scored(mse);
  }

  // ---------------------------------------------------------------------
  // Properties of a whole run

  /** Comparing a stream with itself gives zero error on every frame it
      scores, whether or not the run is cut short. */
  lemma IdenticalStreamsScoreZero(c: Config, s: seq<byte>)
    requires c.FrameSize() > 0
    ensures forall f :: 0 <= f < |Compare(c, s, s).mse| ==> Compare(c, s, s).mse[f] == Errors(0, 0, 0)
  {
    var v := Compare(c, s, s);
    forall f | 0 <= f < |v.mse|
      ensures v.mse[f] == Errors(0, 0, 0)
    {
      assert FrameResult(c, s, s, f).Some?;
      IdenticalFrameSums(c, s, f);
      MseOfZero(c.FrameSize());
    }
  }

  // ---------------------------------------------------------------------
  // Command-line dispatch

  /** How `main` ends once its options are parsed: the two error exits, the
      silent success when J is not 4, or a run of the selected reader. */
  datatype Outcome = InvalidFormat | UnsupportedMode | NothingDone | Ran(layout: Layout, verdict: Verdict)

  /** How the process ends: with the status `main` passes to `exit` or
      returns, or in the integer division by zero of the sequence score
      `sum_fs / totalFrames`, which 4:4:4 and 4:2:2 reach when they iterate
      over no frame (4:2:0 keeps `totalFrames` as a `double`). */
  datatype Exit = Status(code: int) | DivisionByZero

  /** -1 after either error message, `SUCCESS` (0) after a run or when J is
      not 4, unless the run divides by zero. */
  function ExitStatus(o: Outcome): Exit {
    match o
    case InvalidFormat => Status(-1)
    case UnsupportedMode => Status(-1)
    case NothingDone => Status(0)
    case Ran(l, v) => if l != L420 && v == Scored([]) then DivisionByZero else Status(0)
  }

  /** The argument that selects each layout. */
  function Spelling(l: Layout): string {
    match l
    case L444 => "4:4:4"
    case L422 => "4:2:2"
    case L420 => "4:2:0"
  }

  /** Each layout's argument is the printed form of its J:a:b triple. */
  lemma SpellingIsFormat(l: Layout)
    ensures IsDigitNotation(NotationOf(l)) && Format(NotationOf(l)) == Spelling(l)
  {
  }

  /** An argument parses to a layout's triple exactly when it is that
      layout's spelling. */
  lemma ParseSpelling(s: string, l: Layout)
    ensures Parse(s) == Some(NotationOf(l)) <==> s == Spelling(l)
  {
    SpellingIsFormat(l);
    if Parse(s) == Some(NotationOf(l)) {
      ParseThenFormat(s);
    } else {
      FormatThenParse(NotationOf(l));
    }
  }

  /** The arguments that run a reader. */
  predicate SelectsReader(s: string) {
    s == Spelling(L444) || s == Spelling(L422) || s == Spelling(L420)
  }

  /** `main` after option parsing: validate the subsampling argument, split
      it into J, a and b, and run the reader the triple selects. Width and
      height matter only to a reader. */
  function Execute(s: string, w: nat, h: nat, ref: seq<byte>, tst: seq<byte>): (o: Outcome)
    requires SelectsReader(s) ==> ValidDims(w, h)
    requires s == Spelling(L420) ==> w % 2 == 0
    ensures o == InvalidFormat <==> !MatchesPattern(s)
    ensures o == NothingDone <==> MatchesPattern(s) && s[0] != '4'
    ensures o.Ran? ==> s == Spelling(o.layout) && Config(o.layout, w, h).Valid()
    ensures s == Spelling(L444) ==> o == Ran(L444, Compare(Config(L444, w, h), ref, tst))
    ensures s == Spelling(L422) ==> o == Ran(L422, Compare(Config(L422, w, h), ref, tst))
    ensures s == Spelling(L420) ==> o == Ran(L420, Compare(Config(L420, w, h), ref, tst))
    ensures o == UnsupportedMode <==> MatchesPattern(s) && s[0] == '4' && forall l: Layout :: s != Spelling(l)
  {
    forall l: Layout {
      ParseSpelling(s, l);
    }
    match Parse(s)
    case None => InvalidFormat
    case Some(n) =>
      match Dispatch(n)
      case Ignored => NothingDone
      case Unsupported => UnsupportedMode
      case Process(l) => Ran(l, Compare(Config(l, w, h), ref, tst))
  }

  /** `main` exits with -1 exactly when the argument is malformed or names a
      J = 4 mode other than the three supported ones, and divides by zero
      exactly when 4:4:4 or 4:2:2 finds no frame to score. */
  lemma ExitStatusOfExecute(s: string, w: nat, h: nat, ref: seq<byte>, tst: seq<byte>)
    requires SelectsReader(s) ==> ValidDims(w, h)
    requires s == Spelling(L420) ==> w % 2 == 0
    ensures ExitStatus(Execute(s, w, h, ref, tst)) == Status(-1) <==>
              (!MatchesPattern(s) || (s[0] == '4' && s != "4:4:4" && s != "4:2:2" && s != "4:2:0"))
    ensures ExitStatus(Execute(s, w, h, ref, tst)) == DivisionByZero <==>
              ((s == "4:4:4" && FramesToScore(L444, w * h, |ref|, |tst|) == 0) ||
               (s == "4:2:2" && FramesToScore(L422, w * h, |ref|, |tst|) == 0))
  {
    var o := Execute(s, w, h, ref, tst);
    if MatchesPattern(s) && s[0] == '4' && s != "4:4:4" && s != "4:2:2" && s != "4:2:0" {
      assert forall l: Layout :: s != Spelling(l);
    }
    if s == "4:4:4" || s == "4:2:2" {
      var l := if s == "4:4:4" then L444 else L422;
      assert s == Spelling(l);
      var n := FramesToScore(l, w * h, |ref|, |tst|);
      assert o == Ran(l, ScoreFrames(Config(l, w, h), ref, tst, n));
      if n == 0 {
        assert ScoreFrames(Config(l, w, h), ref, tst, n) == Scored([]);
      }
    }
  }
}
