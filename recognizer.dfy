/** The foreground loop of src/boards/main/main.cpp: the 50%-overlap sample
  * window, the overflow-safe sample sum, the word segmenter, the word buffer
  * and the template matching with best-match selection.
  *
  * The floating-point stages between them (normalisation and RMS, FFT, mel
  * energies, DCT and feature scaling) are not modelled: the segmenter takes
  * the outcome of the RMS comparison as the input `loud`, and each frame's
  * feature vector is an input.
  */
module Recognizer {
  import opened Optional
  import D = DynamicTimeWarping
  import Sampling
  import Arithmetic

  const WindowStride: nat := 256
  const WindowSize: nat := 512
  /** Capacity of the word buffer and of the matcher's cost matrix. */
  const MaxWords: nat := 64
  const MaxQuietGap: nat := 5
  /** Capacity of the score array `dtwResults`. */
  const MaxCommands: nat := 20
  /** Distances stay below 2^25, so no cost over two sequences of at most
    * MaxWords vectors reaches 2^32. */
  const DistanceBound: nat := 0x200_0000

  /** The seven retained cepstral coefficients of one frame. */
  type FeatureVector = seq<real>

  /** One entry of the template table: the command's text and its recorded
    * feature vectors (numFeatureVectors is the length of the sequence). */
  datatype VoiceCommand = VoiceCommand(text: string, featureVectors: seq<FeatureVector>)

  // ---------------------------------------------------------------------
  // The word segmenter as a function of its two counters
  // ---------------------------------------------------------------------

  datatype Segmenter = Segmenter(wordLength: int, quietGapCounter: int)

  /** The counters after a frame, before any reset, and the two flags the
    * frame raises. */
  datatype FrameDecision = FrameDecision(next: Segmenter, wordFinished: bool, computeFeatureVector: bool)

  const Idle: Segmenter := Segmenter(0, 0)

  /** Inside a word the quiet-gap counter is in [1, MaxQuietGap], and the
    * word already holds the frames of the gap it has counted plus one. */
  predicate SegmenterInv(s: Segmenter) {
    s.wordLength >= 0 &&
    (s.wordLength > 0 ==>
       1 <= s.quietGapCounter <= MaxQuietGap && s.wordLength >= MaxQuietGap + 1 - s.quietGapCounter)
  }

  /** One frame of the segmenter: a loud frame lengthens the word and rearms
    * the gap counter; a quiet frame inside a word lengthens it and counts
    * down, and the MaxQuietGap-th quiet frame in a row finishes the word
    * without those quiet frames.  A feature vector is kept for every frame
    * of an unfinished word that fits the word buffer. */
  function Decide(s: Segmenter, loud: bool): (d: FrameDecision)
    ensures SegmenterInv(s) && d.wordFinished ==> d.next.wordLength >= 1
    ensures SegmenterInv(s) && !d.wordFinished ==> SegmenterInv(d.next)
    ensures d.computeFeatureVector ==> 0 <= d.next.wordLength - 1 < MaxWords
  {
    var next :=
      if loud then Segmenter(s.wordLength + 1, MaxQuietGap)
      else if s.wordLength > 0 then Segmenter(s.wordLength + 1, s.quietGapCounter - 1)
      else s;
    var finished := !loud && s.wordLength > 0 && next.quietGapCounter == 0;
    var next' := if finished then next.(wordLength := next.wordLength - MaxQuietGap) else next;
    FrameDecision(next', finished, !finished && next'.wordLength > 0 && next'.wordLength <= MaxWords)
  }

  /** The counters at the start of the next frame: a finished word has been
    * matched and `wordLength` cleared. */
  function AfterFrame(d: FrameDecision): Segmenter {
    if d.wordFinished then d.next.(wordLength := 0) else d.next
  }

  /** The counters after a sequence of frames. */
  function Run(s: Segmenter, frames: seq<bool>): Segmenter {
    if frames == [] then s
    else AfterFrame(Decide(Run(s, frames[..|frames| - 1]), frames[|frames| - 1]))
  }

  /** The lengths of the words finished during a sequence of frames, in order. */
  function Words(s: Segmenter, frames: seq<bool>): seq<int> {
    if frames == [] then []
    else
      var d := Decide(Run(s, frames[..|frames| - 1]), frames[|frames| - 1]);
      Words(s, frames[..|frames| - 1]) + (if d.wordFinished then [d.next.wordLength] else [])
  }

  lemma {:induction false} RunKeepsInvariant(s: Segmenter, frames: seq<bool>)
    requires SegmenterInv(s)
    ensures SegmenterInv(Run(s, frames))
    ensures forall k :: 0 <= k < |Words(s, frames)| ==> Words(s, frames)[k] >= 1
  {
    if frames != [] {
      RunKeepsInvariant(s, frames[..|frames| - 1]);
    }
  }

  /** Frames processed in two parts give the same counters and words. */
  lemma {:induction false} RunConcat(s: Segmenter, a: seq<bool>, b: seq<bool>)
    ensures Run(s, a + b) == Run(Run(s, a), b)
    ensures Words(s, a + b) == Words(s, a) + Words(Run(s, a), b)
  {
    if b == [] {
      assert a + b == a;
    } else {
      var b' := b[..|b| - 1];
      assert (a + b)[..|a + b| - 1] == a + b';
      assert (a + b)[|a + b| - 1] == b[|b| - 1];
      RunConcat(s, a, b');
    }
  }

  function Quiet(n: nat): (q: seq<bool>)
    ensures |q| == n && forall k :: 0 <= k < n ==> !q[k]
  {
    seq(n, _ => false)
  }

  /** Quiet frames outside a word change nothing and finish nothing. */
  lemma {:induction false} SilenceKeepsIdle(n: nat)
    ensures Run(Idle, Quiet(n)) == Idle && Words(Idle, Quiet(n)) == []
  {
    if n > 0 {
      assert Quiet(n)[..n - 1] == Quiet(n - 1);
      SilenceKeepsIdle(n - 1);
    }
  }

  /** Fewer quiet frames than the gap counter still allows lengthen the word
    * and count down, and finish nothing. */
  lemma {:induction false} ShortPause(length: int, gap: int, n: nat)
    requires length > 0 && n < gap
    ensures Run(Segmenter(length, gap), Quiet(n)) == Segmenter(length + n, gap - n)
    ensures Words(Segmenter(length, gap), Quiet(n)) == []
  {
    if n > 0 {
      assert Quiet(n)[..n - 1] == Quiet(n - 1);
      ShortPause(length, gap, n - 1);
    }
  }

  /** The number of quiet frames at the end of a sequence. */
  function TrailingQuiet(frames: seq<bool>): (n: nat)
    ensures n <= |frames|
  {
    if frames == [] || frames[|frames| - 1] then 0 else TrailingQuiet(frames[..|frames| - 1]) + 1
  }

  /** Speech so far: it starts with a loud frame and no prefix ends in a
    * pause of MaxQuietGap quiet frames. */
  predicate Speech(frames: seq<bool>) {
    |frames| >= 1 && frames[0] &&
    forall k :: 1 <= k <= |frames| ==> TrailingQuiet(frames[..k]) < MaxQuietGap
  }

  /** During speech every frame belongs to the word, and the gap counter has
    * counted the current run of quiet frames. */
  lemma {:induction false} SpeechIsOneWord(frames: seq<bool>)
    requires Speech(frames)
    ensures Run(Idle, frames) == Segmenter(|frames|, MaxQuietGap - TrailingQuiet(frames))
    ensures Words(Idle, frames) == []
  {
    var n := |frames|;
    assert frames[..n] == frames;
    if n == 1 {
      assert frames[..0] == [];
    } else {
      var p := frames[..n - 1];
      forall k | 1 <= k <= |p| ensures TrailingQuiet(p[..k]) < MaxQuietGap {
        assert p[..k] == frames[..k];
      }
      SpeechIsOneWord(p);
    }
  }

  /** Speech ending on a loud frame followed by MaxQuietGap quiet frames is
    * one word, as long as the speech, and the segmenter is back outside a
    * word. */
  lemma WordThenPause(frames: seq<bool>)
    requires Speech(frames) && frames[|frames| - 1]
    ensures Words(Idle, frames + Quiet(MaxQuietGap)) == [|frames|]
    ensures Run(Idle, frames + Quiet(MaxQuietGap)).wordLength == 0
  {
    SpeechIsOneWord(frames);
    RunConcat(Idle, frames, Quiet(MaxQuietGap));
    var s := Segmenter(|frames|, MaxQuietGap);
    ShortPause(|frames|, MaxQuietGap, MaxQuietGap - 1);
    assert Quiet(MaxQuietGap)[..MaxQuietGap - 1] == Quiet(MaxQuietGap - 1);
  }

  /** Ten loud frames and a pause: one word of ten frames. */
  lemma TenLoudFramesMakeOneWord()
    ensures Words(Idle, seq(10, _ => true) + Quiet(MaxQuietGap)) == [10]
  {
    var loud: seq<bool> := seq(10, _ => true);
    forall k | 1 <= k <= |loud| ensures TrailingQuiet(loud[..k]) < MaxQuietGap {
      assert loud[..k][k - 1];
    }
    WordThenPause(loud);
  }

  // ---------------------------------------------------------------------
  // Best-match selection
  // ---------------------------------------------------------------------

  /** `idx` is the last position of the smallest score, and -1 exactly when
    * there are no scores. */
  predicate IsBestMatch(scores: seq<nat>, idx: int) {
    (idx == -1 <==> scores == []) &&
    (scores != [] ==>
       0 <= idx < |scores| &&
       (forall k :: 0 <= k < |scores| ==> scores[idx] <= scores[k]) &&
       (forall k :: idx < k < |scores| ==> scores[idx] < scores[k]))
  }

  lemma BestMatchIsUnique(scores: seq<nat>, i: int, j: int)
    requires IsBestMatch(scores, i) && IsBestMatch(scores, j)
    ensures i == j
  {
    if scores != [] {
      // Each is the minimum, so their scores are equal, and neither can lie
      // after the other.
      assert scores[i] <= scores[j] && scores[j] <= scores[i];
    }
  }

  /** The choice of a left-to-right scan that moves to every score at or
    * below the one it holds, so a tie goes to the later command. */
  function LastMinimum(scores: seq<nat>): (r: int)
    ensures -1 <= r < |scores| && (r == -1 <==> scores == [])
  {
    if scores == [] then -1
    else
      var best := LastMinimum(scores[..|scores| - 1]);
      if best == -1 || scores[|scores| - 1] <= scores[best] then |scores| - 1 else best
  }

  /** The scan's choice is the best match: the last position of the
    * smallest score. */
  lemma {:induction false} LastMinimumIsBestMatch(scores: seq<nat>)
    ensures IsBestMatch(scores, LastMinimum(scores))
  {
    if scores != [] {
      var prefix := scores[..|scores| - 1];
      LastMinimumIsBestMatch(prefix);
      var best := LastMinimum(prefix);
      if best != -1 {
        assert forall k :: 0 <= k < |prefix| ==> prefix[k] == scores[k];
      }
    }
  }

  /** The score of a template against a word: the matcher's normalised
    * cost, divided once more by the template's length. */
  function TemplateScore(template: seq<FeatureVector>, word: seq<FeatureVector>, dist: (FeatureVector, FeatureVector) -> nat): nat
    requires 1 <= |template| && 1 <= |word|
  {
    D.Normalise(D.Score(template, word, dist), |template|)
  }

  // ---------------------------------------------------------------------
  // The foreground state
  // ---------------------------------------------------------------------

  class Recognizer {
    const commands: seq<VoiceCommand>
    /** The per-element distance of the matcher (`dtw::distanceMetric`). */
    const dist: (FeatureVector, FeatureVector) -> nat
    /** The analysis window: the previous stride followed by the newest. */
    var rawSamples: array<nat>
    var wordLength: int
    var quietGapCounter: int
    var wordBuffer: array<FeatureVector>
    var dtwResults: array<nat>
    var dtwWorkspace: D.Dtw<FeatureVector>
    /** The feature vectors of every frame of the word being segmented. */
    ghost var wordFrames: seq<FeatureVector>

    /** The buffers, the template table and the distance, between frames and
      * while a finished word is matched. */
    ghost predicate Tables()
      reads this, rawSamples, dtwResults, dtwWorkspace
    {
      rawSamples.Length == WindowSize && wordBuffer.Length == MaxWords &&
      dtwResults.Length == MaxCommands && rawSamples != dtwResults &&
      (forall k :: 0 <= k < WindowSize ==> rawSamples[k] < Sampling.U16) &&
      (forall k :: 0 <= k < MaxCommands ==> dtwResults[k] < D.U32) &&
      dtwWorkspace.Valid() && dtwWorkspace.maxSize == MaxWords &&
      |commands| <= MaxCommands &&
      (forall i :: 0 <= i < |commands| ==> 1 <= |commands[i].featureVectors| <= MaxWords) &&
      (forall x, y :: dist(x, y) < DistanceBound)
    }

    /** Between frames: the segmenter invariant, and the word buffer holds
      * the word's feature vectors as far as it reaches. */
    ghost predicate Valid()
      reads this, rawSamples, wordBuffer, dtwResults, dtwWorkspace
    {
      Tables() &&
      SegmenterInv(Segmenter(wordLength, quietGapCounter)) &&
      |wordFrames| == wordLength &&
      (forall k :: 0 <= k < |wordFrames| && k < MaxWords ==> wordBuffer[k] == wordFrames[k])
    }

    constructor (commands: seq<VoiceCommand>, dist: (FeatureVector, FeatureVector) -> nat)
      requires |commands| <= MaxCommands
      requires forall i :: 0 <= i < |commands| ==> 1 <= |commands[i].featureVectors| <= MaxWords
      requires forall x, y :: dist(x, y) < DistanceBound
      ensures Valid() && this.commands == commands && this.dist == dist
      ensures wordLength == 0 && quietGapCounter == 0
      ensures fresh(rawSamples) && fresh(wordBuffer) && fresh(dtwResults) && fresh(dtwWorkspace)
    {
      this.commands := commands;
      this.dist := dist;
      rawSamples := new nat[WindowSize](_ => 0);
      wordBuffer := new FeatureVector[MaxWords](_ => []);
      dtwResults := new nat[MaxCommands](_ => 0);
      dtwWorkspace := new D.Dtw(MaxWords);
      wordLength := 0;
      quietGapCounter := 0;
      wordFrames := [];
    }

    /** Moves the newer half of the window to the front and copies the
      * published stride `slot` of the sampling ring behind it. */
    method ShiftWindow(ring: array2<nat>, slot: nat)
      requires Valid()
      requires slot < ring.Length0 && ring.Length1 == WindowStride
      requires forall j :: 0 <= j < WindowStride ==> ring[slot, j] < Sampling.U16
      modifies rawSamples
      ensures Valid()
      ensures rawSamples[..WindowStride] == old(rawSamples[WindowStride..])
      ensures forall j :: 0 <= j < WindowStride ==> rawSamples[WindowStride + j] == ring[slot, j]
    {
      for i := 0 to WindowStride
        invariant rawSamples[..i] == old(rawSamples[WindowStride..WindowStride + i])
        invariant rawSamples[i..] == old(rawSamples[i..])
      {
        rawSamples[i] := rawSamples[WindowStride + i];
      }
      for j := 0 to WindowStride
        invariant rawSamples[..WindowStride] == old(rawSamples[WindowStride..])
        invariant forall k :: 0 <= k < j ==> rawSamples[WindowStride + k] == ring[slot, k]
        invariant forall k :: WindowStride + j <= k < WindowSize ==> rawSamples[k] == old(rawSamples[k])
      {
        rawSamples[WindowStride + j] := ring[slot, j];
      }
      forall k | 0 <= k < WindowSize ensures rawSamples[k] < Sampling.U16 {
        if k < WindowStride {
          assert rawSamples[k] == rawSamples[..WindowStride][k] == old(rawSamples[WindowStride + k]);
        } else {
          assert rawSamples[k] == ring[slot, k - WindowStride];
        }
      }
    }

    /** The sum of the window, accumulated in a uint32_t: it never wraps. */
    method SampleSum() returns (sampleSum: nat)
      requires Valid()
      ensures sampleSum == Sampling.Sum(rawSamples[..]) && sampleSum < D.U32
    {
      sampleSum := 0;
      for i := 0 to WindowSize
        invariant sampleSum == Sampling.Sum(rawSamples[..i])
      {
        assert rawSamples[..i + 1][..i] == rawSamples[..i];
        sampleSum := sampleSum + rawSamples[i];
      }
      assert rawSamples[..WindowSize] == rawSamples[..];
      Sampling.SumOfReadingsBound(rawSamples[..]);
    }

    /** The segmenter counters of lines 230-252 for one frame. */
    method UpdateSegmenter(loud: bool) returns (wordFinished: bool, computeFeatureVector: bool)
      modifies this`wordLength, this`quietGapCounter
      ensures var d := Decide(old(Segmenter(wordLength, quietGapCounter)), loud);
        Segmenter(wordLength, quietGapCounter) == d.next &&
        wordFinished == d.wordFinished && computeFeatureVector == d.computeFeatureVector
    {
      wordFinished := false;
      computeFeatureVector := false;
      if loud {
        wordLength := wordLength + 1;
        quietGapCounter := MaxQuietGap;
      } else {
        if wordLength > 0 {
          quietGapCounter := quietGapCounter - 1;
          wordLength := wordLength + 1;
          if quietGapCounter == 0 {
            wordLength := wordLength - MaxQuietGap;
            wordFinished := true;
          }
        }
      }
      if !wordFinished && wordLength > 0 && wordLength <= MaxWords {
        computeFeatureVector := true;
      }
    }

    /** Scores every command against the first `wordLength` buffered feature
      * vectors. */
    method MatchWord()
      requires Tables() && wordBuffer.Length == MaxWords && 1 <= wordLength <= MaxWords
      modifies dtwResults, dtwWorkspace.costMatrix
      ensures Tables()
      ensures forall i :: 0 <= i < |commands| ==>
        dtwResults[i] == TemplateScore(commands[i].featureVectors, wordBuffer[..wordLength], dist)
      ensures forall i :: |commands| <= i < MaxCommands ==> dtwResults[i] == old(dtwResults[i])
    {
      var word := wordBuffer[..wordLength];
      for i := 0 to |commands|
        invariant Tables()
        invariant forall k :: 0 <= k < i ==> dtwResults[k] == TemplateScore(commands[k].featureVectors, word, dist)
        invariant forall k :: i <= k < MaxCommands ==> dtwResults[k] == old(dtwResults[k])
      {
        var template := commands[i].featureVectors;
        NoOverflowForBoundedDistances(template, word);
        var score := dtwWorkspace.Compare(template, word, dist);
        dtwResults[i] := D.Normalise(score, |template|);
      }
    }

    lemma NoOverflowForBoundedDistances(a: seq<FeatureVector>, b: seq<FeatureVector>)
      requires forall x, y :: dist(x, y) < DistanceBound
      requires 1 <= |a| <= MaxWords && 1 <= |b| <= MaxWords
      ensures D.NoOverflow(a, b, dist)
    {
      Arithmetic.MulMonotone(DistanceBound - 1, |a| + |b| - 1, 2 * MaxWords - 1);
      D.BoundedDistancesDoNotOverflow(a, b, dist, DistanceBound - 1);
    }

    /** The best-match loop: the last command with the smallest score, or -1
      * without commands. */
    method FindBestMatch() returns (bestMatchIdx: int)
      requires Tables()
      ensures IsBestMatch(dtwResults[..|commands|], bestMatchIdx)
    {
      var scores := dtwResults[..|commands|];
      var bestMatch: nat := D.U32 - 1;
      bestMatchIdx := -1;
      for i := 0 to |commands|
        invariant bestMatchIdx == -1 <==> i == 0
        invariant i == 0 ==> bestMatch == D.U32 - 1
        invariant i > 0 ==> IsBestMatch(scores[..i], bestMatchIdx) && bestMatch == scores[bestMatchIdx]
      {
        if bestMatch >= dtwResults[i] {
          bestMatch := dtwResults[i];
          bestMatchIdx := i;
        }
      }
      assert scores[..|commands|] == scores;
    }

    /** One frame of the loop after a window shift: segment, keep the feature
      * vector, and when a word finishes match it and clear it.  The result
      * is the best-match index of a finished word, and None otherwise. */
    method ProcessFrame(loud: bool, featureVector: FeatureVector) returns (matched: Option<int>)
      requires Valid()
      requires var d := Decide(Segmenter(wordLength, quietGapCounter), loud);
        d.wordFinished ==> d.next.wordLength <= MaxWords
      modifies this, wordBuffer, dtwResults, dtwWorkspace.costMatrix
      ensures Valid()
      ensures rawSamples == old(rawSamples) && wordBuffer == old(wordBuffer)
      ensures dtwResults == old(dtwResults) && dtwWorkspace == old(dtwWorkspace)
      ensures var d := Decide(old(Segmenter(wordLength, quietGapCounter)), loud);
        Segmenter(wordLength, quietGapCounter) == AfterFrame(d) &&
        (d.wordFinished ==>
           wordFrames == [] && matched.Some? &&
           (forall i :: 0 <= i < |commands| ==>
              dtwResults[i] == TemplateScore(commands[i].featureVectors, (old(wordFrames) + [featureVector])[..d.next.wordLength], dist)) &&
           IsBestMatch(dtwResults[..|commands|], matched.value)) &&
        (!d.wordFinished ==>
           matched == None && unchanged(dtwResults) &&
           wordFrames == if d.next.wordLength > 0 then old(wordFrames) + [featureVector] else old(wordFrames))
    {
      var wordFinished, computeFeatureVector := UpdateSegmenter(loud);
      ghost var frames := if wordLength > 0 then wordFrames + [featureVector] else wordFrames;
      if computeFeatureVector {
        wordBuffer[wordLength - 1] := featureVector;
      }
      if wordFinished {
        assert wordBuffer[..wordLength] == frames[..wordLength];
        MatchWord();
        var bestMatchIdx := FindBestMatch();
        matched := Some(bestMatchIdx);
        wordLength := 0;
        wordFrames := [];
      } else {
        wordFrames := frames;
        matched := None;
      }
    }

    /** One pass of the main loop: when the sampling interrupt has published
      * a stride, take it, shift it into the window, sum the window and
      * process the frame; otherwise do nothing. */
    method Iterate(h: Sampling.AdcInterruptHandler, loud: bool, featureVector: FeatureVector) returns (matched: Option<int>)
      requires Valid() && h.Valid()
      requires var d := Decide(Segmenter(wordLength, quietGapCounter), loud);
        h.availableBuffer.Some? && d.wordFinished ==> d.next.wordLength <= MaxWords
      modifies h`availableBuffer, this, rawSamples, wordBuffer, dtwResults, dtwWorkspace.costMatrix
      ensures Valid() && h.Valid() && h.availableBuffer == None
      ensures rawSamples == old(rawSamples) && wordBuffer == old(wordBuffer) && dtwResults == old(dtwResults)
      ensures old(h.availableBuffer).None? ==> matched == None && unchanged(this, rawSamples, wordBuffer, dtwResults)
      ensures old(h.availableBuffer).Some? ==>
        rawSamples[..WindowStride] == old(rawSamples[WindowStride..]) &&
        (forall j :: 0 <= j < WindowStride ==> rawSamples[WindowStride + j] == h.buffer[old(h.availableBuffer).value, j]) &&
        Segmenter(wordLength, quietGapCounter) == AfterFrame(Decide(old(Segmenter(wordLength, quietGapCounter)), loud))
      ensures old(h.availableBuffer).Some? ==>
        var d := Decide(old(Segmenter(wordLength, quietGapCounter)), loud);
        (d.wordFinished ==>
           wordFrames == [] && matched.Some? &&
           (forall i :: 0 <= i < |commands| ==>
              dtwResults[i] == TemplateScore(commands[i].featureVectors, (old(wordFrames) + [featureVector])[..d.next.wordLength], dist)) &&
           IsBestMatch(dtwResults[..|commands|], matched.value)) &&
        (!d.wordFinished ==>
           matched == None && unchanged(dtwResults) &&
           wordFrames == if d.next.wordLength > 0 then old(wordFrames) + [featureVector] else old(wordFrames))
    {
      var newSamples := h.GetBuffer();
      if newSamples.Some? {
        ShiftWindow(h.buffer, newSamples.value);
        // The sum feeds the floating-point mean, which is not modelled.
        var sampleSum := SampleSum();
        matched := ProcessFrame(loud, featureVector);
      } else {
        matched := None;
      }
    }
  }
}
