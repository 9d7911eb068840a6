/**
 `gif_save`: hands an ordered list of equally sized RGBA frame buffers to the
 image codec library and writes them as one animation. The library calls are
 not modelled; each becomes an event in a trace, and the two outcomes the
 function branches on (did the pixel import of frame i succeed, did the final
 write succeed) are supplied by a `Codec` value.
 */
module GifSave {
  import opened CStrings

  /** One RGBA pixel: four 8-bit channels packed into the 32-bit word a frame buffer holds. */
  type Pixel = bv32

  /** `GifFrames`: the frame buffers in playback order and the size they all share. */
  datatype GifFrames = GifFrames(frames: seq<seq<Pixel>>, width: int, height: int)

  /** The two wands `gif_save` handles: the sequence being assembled, and the wand of frame `index`. */
  datatype Wand = Sequence | FrameWand(index: nat)

  /** The library calls `gif_save` makes, in the order it makes them. */
  datatype Op =
    | Genesis
    | Terminus
    | NewWand(wand: Wand)
    | SetSize(wand: Wand, width: int, height: int)
    | ReadBlank(wand: Wand)
    | Import(frame: nat, width: int, height: int, pixels: seq<Pixel>)
    | LogException(wand: Wand)
    | Destroy(wand: Wand)
    | SetDelay(frame: nat, ticks: int)
    | AddImage(frame: nat)
    | SetLastIterator
    | SetOption(key: string, value: string)
    | Write(path: string)
    | ReportSaved(path: string)

  /** What the library answers: whether importing frame i succeeds, and whether the write succeeds. */
  datatype Codec = Codec(imports: nat -> bool, writes: bool)

  /** The calls made and the value returned. */
  datatype Saved = Saved(trace: seq<Op>, ok: bool)

  /** Display time of a frame in a `.gif`, in hundredths of a second. */
  const FrameDelay: int := 4

  /** The coder prefix that makes the library write an animated PNG whatever the extension. */
  const ApngPrefix: CString := "APNG:"

  const GifExtension: CString := ".gif"
  const PngExtension: CString := ".png"
  const ApngExtension: CString := ".apng"

  /** The extensions are written in lower case, so each is its own lowercase. */
  lemma ExtensionsLowercase()
    ensures Lower(ApngExtension) == ApngExtension && Lower(PngExtension) == PngExtension
    ensures Lower(GifExtension) == GifExtension
  {
    LowerOfLowercase(ApngExtension);
    LowerOfLowercase(PngExtension);
    LowerOfLowercase(GifExtension);
  }

  /** Whether the output path selects the animated PNG encoder: once lowercased it ends in `.apng` or `.png`. */
  function IsApngPath(output: CString): (r: bool)
    ensures r <==> LowerEndsIn(output, ApngExtension) || LowerEndsIn(output, PngExtension)
  {
    ExtensionsLowercase();
    EndsWithLowered(output, ApngExtension);
    EndsWithLowered(output, PngExtension);
    EndsWith(output, ApngExtension) || EndsWith(output, PngExtension)
  }

  /** Whether the (possibly prefixed) path asks for per-frame delays: once lowercased it ends in `.gif`. */
  function IsGifPath(target: CString): (r: bool)
    ensures r <==> LowerEndsIn(target, GifExtension)
  {
    ExtensionsLowercase();
    EndsWithLowered(target, GifExtension);
    EndsWith(target, GifExtension)
  }

  /** The path handed to the library: a `.png`/`.apng` output gets the `APNG:` coder prefix. */
  function Target(output: CString): (r: CString)
    ensures IsApngPath(output) ==> r == ApngPrefix + output
    ensures !IsApngPath(output) ==> r == output
  {
    if IsApngPath(output) then AppendPrefix(output, ApngPrefix) else output
  }

  /** No path ends with both `.png` (or `.apng`) and `.gif`, whatever the case of its letters. */
  lemma PngIsNotGif(t: CString)
    ensures EndsWith(t, PngExtension) ==> !EndsWith(t, GifExtension)
    ensures EndsWith(t, ApngExtension) ==> !EndsWith(t, GifExtension)
  {
    if EndsWith(t, GifExtension) {
      assert ToLower(t[|t| - 4 + 1]) == ToLower(GifExtension[1]) == 'g';
      assert ToLower(t[|t| - 4 + 0]) == ToLower(GifExtension[0]) == '.';
      assert PngExtension[1] == 'p' && ApngExtension[1] == 'a';
    }
  }

  /** A `.png` or `.apng` output is written through `APNG:` and never takes the `.gif` delay branch. */
  lemma ApngTargetIsNotGif(output: CString)
    requires IsApngPath(output)
    ensures EndsWith(Target(output), PngExtension) || EndsWith(Target(output), ApngExtension)
    ensures !IsGifPath(Target(output))
  {
    if EndsWith(output, PngExtension) {
      EndsWithUnderPrefix(ApngPrefix, output, PngExtension);
    } else {
      EndsWithUnderPrefix(ApngPrefix, output, ApngExtension);
    }
    PngIsNotGif(Target(output));
  }

  /** The calls for frame i up to and including the pixel import. */
  function FrameStart(frames: GifFrames, i: nat): seq<Op>
    requires i < |frames.frames|
  {
    [NewWand(FrameWand(i)), SetSize(FrameWand(i), frames.width, frames.height),
     ReadBlank(FrameWand(i)),
     Import(i, frames.width, frames.height, frames.frames[i])]
  }

  /** The calls after a successful import of frame i. */
  function FrameAccepted(gif: bool, i: nat): seq<Op> {
    FrameDelayOps(gif, i) + FrameAddOps(i)
  }

  /** The delay, set only when the target is a `.gif`. */
  function FrameDelayOps(gif: bool, i: nat): seq<Op> {
    if gif then [SetDelay(i, FrameDelay)] else []
  }

  /** Adding the frame to the sequence, moving to its end, and releasing the frame's wand. */
  function FrameAddOps(i: nat): seq<Op> {
    [AddImage(i), SetLastIterator, Destroy(FrameWand(i))]
  }

  /** The calls after a failed import of frame i, ending with the early `return false`. */
  function FrameRejected(i: nat): seq<Op> {
    [LogException(FrameWand(i)), Destroy(FrameWand(i)), Destroy(Sequence), Terminus]
  }

  /** The frame loop from index i on: the calls made and whether it ran to the end. */
  function FrameLoop(frames: GifFrames, gif: bool, codec: Codec, i: nat): (r: (seq<Op>, bool))
    requires i <= |frames.frames|
    ensures r.1 <==> forall j :: i <= j < |frames.frames| ==> codec.imports(j)
    decreases |frames.frames| - i
  {
    if i == |frames.frames| then ([], true)
    else if !codec.imports(i) then (FrameStart(frames, i) + FrameRejected(i), false)
    else
      var rest := FrameLoop(frames, gif, codec, i + 1);
      (FrameStart(frames, i) + FrameAccepted(gif, i) + rest.0, rest.1)
  }

  /** The three calls before the frame loop. */
  function Prologue(frames: GifFrames): seq<Op> {
    [Genesis, NewWand(Sequence), SetSize(Sequence, frames.width, frames.height)]
  }

  /** The calls after a completed frame loop, from setting the loop option on. */
  function Finish(target: CString, codec: Codec): seq<Op> {
    [SetOption("loop", "0"), Write(target)]
    + (if codec.writes then [Destroy(Sequence), Terminus, ReportSaved(target)]
       else [LogException(Sequence), Destroy(Sequence), Terminus])
  }

  /** `gif_save` once the target path and the delay decision are fixed. */
  function Run(frames: GifFrames, target: CString, gif: bool, codec: Codec): (r: Saved)
    ensures r.ok <==> (forall j :: 0 <= j < |frames.frames| ==> codec.imports(j)) && codec.writes
  {
    var loop := FrameLoop(frames, gif, codec, 0);
    if !loop.1 then Saved(Prologue(frames) + loop.0, false)
    else Saved(Prologue(frames) + loop.0 + Finish(target, codec), codec.writes)
  }

  /** `gif_save(frames, output)`: returns true iff every import and the write succeed. */
  function Save(frames: GifFrames, output: CString, codec: Codec): (r: Saved)
    ensures r.ok <==> (forall j :: 0 <= j < |frames.frames| ==> codec.imports(j)) && codec.writes
  {
    var target := Target(output);
    Run(frames, target, IsGifPath(target), codec)
  }

  // ---------------------------------------------------------------------------
  // Views of a trace

  datatype Kind = Imported | Added | Delayed

  /** The frame index an event of the given kind refers to, if the op is such an event. */
  function FrameOf(kind: Kind, op: Op): seq<nat> {
    match op
    case Import(i, _, _, _) => if kind == Imported then [i] else []
    case AddImage(i) => if kind == Added then [i] else []
    case SetDelay(i, _) => if kind == Delayed then [i] else []
    case _ => []
  }

  /** An op that is no frame event of any kind. */
  predicate Unrelated(op: Op) {
    !op.Import? && !op.AddImage? && !op.SetDelay?
  }

  /** The frame indices of all events of one kind, in trace order. */
  function FramesOf(kind: Kind, trace: seq<Op>): seq<nat> {
    if trace == [] then [] else FrameOf(kind, trace[0]) + FramesOf(kind, trace[1..])
  }

  /** lo, lo+1, ..., hi-1. */
  function Range(lo: nat, hi: nat): (r: seq<nat>)
    decreases hi - lo
  {
    if lo >= hi then [] else [lo] + Range(lo + 1, hi)
  }

  /** The index of the first frame whose import fails, from i on; `n` when none does. */
  function FirstRejected(codec: Codec, i: nat, n: nat): (r: nat)
    requires i <= n
    ensures i <= r <= n
    ensures forall j :: i <= j < r ==> codec.imports(j)
    ensures r < n ==> !codec.imports(r)
    decreases n - i
  {
    if i == n then n else if !codec.imports(i) then i else FirstRejected(codec, i + 1, n)
  }

  /** Number of frames whose import is attempted: up to and including the first failure. */
  function Attempted(codec: Codec, i: nat, n: nat): nat
    requires i <= n
  {
    var f := FirstRejected(codec, i, n);
    if f < n then f + 1 else n
  }

  lemma {:induction false} FramesOfAppend(kind: Kind, a: seq<Op>, b: seq<Op>)
    ensures FramesOf(kind, a + b) == FramesOf(kind, a) + FramesOf(kind, b)
  {
    if a != [] {
      assert (a + b)[0] == a[0];
      assert (a + b)[1..] == a[1..] + b;
      FramesOfAppend(kind, a[1..], b);
    } else {
      assert a + b == b;
    }
  }

  lemma FramesOfNone(kind: Kind, t: seq<Op>)
    requires forall k :: 0 <= k < |t| ==> Unrelated(t[k])
    ensures FramesOf(kind, t) == []
  {
    if t != [] {
      FramesOfNone(kind, t[1..]);
    }
  }

  lemma FramesOfSingle(kind: Kind, op: Op, t: seq<Op>)
    requires t == [op]
    ensures FramesOf(kind, t) == FrameOf(kind, op)
  {
    assert t[1..] == [];
  }

  /** What a view of the trace of the frame loop from index i on should be. */
  function ExpectedView(kind: Kind, gif: bool, codec: Codec, i: nat, n: nat): seq<nat>
    requires i <= n
  {
    match kind
    case Imported => Range(i, Attempted(codec, i, n))
    case Added => Range(i, FirstRejected(codec, i, n))
    case Delayed => if gif then Range(i, FirstRejected(codec, i, n)) else []
  }

  lemma FrameStartView(kind: Kind, frames: GifFrames, i: nat)
    requires i < |frames.frames|
    ensures FramesOf(kind, FrameStart(frames, i)) == (if kind == Imported then [i] else [])
  {
    var s0 := [NewWand(FrameWand(i)), SetSize(FrameWand(i), frames.width, frames.height),
               ReadBlank(FrameWand(i))];
    var imp := Import(i, frames.width, frames.height, frames.frames[i]);
    assert FrameStart(frames, i) == s0 + [imp];
    FramesOfNone(kind, s0);
    FramesOfSingle(kind, imp, [imp]);
    FramesOfAppend(kind, s0, [imp]);
  }

  lemma FramesOfCons(kind: Kind, op: Op, t: seq<Op>)
    ensures FramesOf(kind, [op] + t) == FrameOf(kind, op) + FramesOf(kind, t)
  {
    assert ([op] + t)[1..] == t;
  }

  lemma FrameDelayOpsView(kind: Kind, gif: bool, i: nat)
    ensures FramesOf(kind, FrameDelayOps(gif, i)) == (if kind == Delayed && gif then [i] else [])
  {
    if gif {
      FramesOfCons(kind, SetDelay(i, FrameDelay), []);
    }
  }

  lemma FrameAddOpsView(kind: Kind, i: nat)
    ensures FramesOf(kind, FrameAddOps(i)) == (if kind == Added then [i] else [])
  {
    var tail := [SetLastIterator, Destroy(FrameWand(i))];
    FramesOfNone(kind, tail);
    FramesOfCons(kind, AddImage(i), tail);
  }

  lemma FrameAcceptedView(kind: Kind, gif: bool, i: nat)
    ensures FramesOf(kind, FrameAccepted(gif, i))
              == (if kind == Added || (kind == Delayed && gif) then [i] else [])
  {
    FrameDelayOpsView(kind, gif, i);
    FrameAddOpsView(kind, i);
    FramesOfAppend(kind, FrameDelayOps(gif, i), FrameAddOps(i));
  }

  /** An accepted import at i moves neither the first rejection nor the count of attempts. */
  lemma AcceptedStepBounds(codec: Codec, i: nat, n: nat)
    requires i < n && codec.imports(i)
    ensures FirstRejected(codec, i, n) == FirstRejected(codec, i + 1, n)
    ensures Attempted(codec, i, n) == Attempted(codec, i + 1, n) > i
  {
  }

  lemma RangeStep(lo: nat, hi: nat)
    requires lo < hi
    ensures Range(lo, hi) == [lo] + Range(lo + 1, hi)
  {
  }

  /** The views of an accepted frame's events, put in front of the views of the rest of the loop. */
  lemma ViewStep(kind: Kind, gif: bool, codec: Codec, i: nat, n: nat, vs: seq<nat>, va: seq<nat>, vr: seq<nat>)
    requires i < n && codec.imports(i)
    requires vs == (if kind == Imported then [i] else [])
    requires va == (if kind == Added || (kind == Delayed && gif) then [i] else [])
    requires vr == ExpectedView(kind, gif, codec, i + 1, n)
    ensures vs + va + vr == ExpectedView(kind, gif, codec, i, n)
  {
    AcceptedStepBounds(codec, i, n);
    match kind
    case Imported =>
      RangeStep(i, Attempted(codec, i, n));
    case Added =>
      RangeStep(i, FirstRejected(codec, i, n));
    case Delayed =>
      if gif {
        RangeStep(i, FirstRejected(codec, i, n));
      }
  }

  lemma FramesOfAppend3(kind: Kind, a: seq<Op>, b: seq<Op>, c: seq<Op>)
    ensures FramesOf(kind, a + b + c) == FramesOf(kind, a) + FramesOf(kind, b) + FramesOf(kind, c)
  {
    FramesOfAppend(kind, a, b);
    FramesOfAppend(kind, a + b, c);
  }

  /** One accepted frame followed by the rest of the loop: the views grow by one index at the front. */
  lemma AcceptedStepView(kind: Kind, gif: bool, codec: Codec, i: nat, n: nat,
                         start: seq<Op>, acc: seq<Op>, rest: seq<Op>)
    requires i < n && codec.imports(i)
    requires FramesOf(kind, start) == (if kind == Imported then [i] else [])
    requires FramesOf(kind, acc) == (if kind == Added || (kind == Delayed && gif) then [i] else [])
    requires FramesOf(kind, rest) == ExpectedView(kind, gif, codec, i + 1, n)
    ensures FramesOf(kind, start + acc + rest) == ExpectedView(kind, gif, codec, i, n)
  {
    FramesOfAppend3(kind, start, acc, rest);
    ViewStep(kind, gif, codec, i, n, FramesOf(kind, start), FramesOf(kind, acc), FramesOf(kind, rest));
  }

  /** A failed import: the view holds at most that one import. */
  lemma FrameRejectedView(kind: Kind, i: nat)
    ensures FramesOf(kind, FrameRejected(i)) == []
  {
    FramesOfNone(kind, FrameRejected(i));
  }

  /** A failed import at i: only that one import is attempted, nothing is added. */
  lemma RejectedBounds(kind: Kind, gif: bool, codec: Codec, i: nat, n: nat)
    requires i < n && !codec.imports(i)
    ensures ExpectedView(kind, gif, codec, i, n) == (if kind == Imported then [i] else [])
  {
    assert Range(i + 1, i + 1) == [];
    assert Range(i, i + 1) == [i];
  }

  lemma RejectedStepView(kind: Kind, frames: GifFrames, gif: bool, codec: Codec, i: nat)
    requires i < |frames.frames| && !codec.imports(i)
    ensures FramesOf(kind, FrameStart(frames, i) + FrameRejected(i))
              == ExpectedView(kind, gif, codec, i, |frames.frames|)
  {
    FrameStartView(kind, frames, i);
    FrameRejectedView(kind, i);
    FramesOfAppend(kind, FrameStart(frames, i), FrameRejected(i));
    RejectedBounds(kind, gif, codec, i, |frames.frames|);
  }

  /** What one run of the frame loop contributes to a view of the trace. */
  lemma {:induction false} FrameLoopView(kind: Kind, frames: GifFrames, gif: bool, codec: Codec, i: nat)
    requires i <= |frames.frames|
    ensures FramesOf(kind, FrameLoop(frames, gif, codec, i).0)
              == ExpectedView(kind, gif, codec, i, |frames.frames|)
    decreases |frames.frames| - i
  {
    var n := |frames.frames|;
    if i < n {
      var start := FrameStart(frames, i);
      FrameStartView(kind, frames, i);
      if !codec.imports(i) {
        RejectedStepView(kind, frames, gif, codec, i);
      } else {
        FrameLoopView(kind, frames, gif, codec, i + 1);
        FrameAcceptedView(kind, gif, i);
        AcceptedStepView(kind, gif, codec, i, n, start, FrameAccepted(gif, i),
                         FrameLoop(frames, gif, codec, i + 1).0);
      }
    }
  }

  /** No op in `t` sets an option or writes. */
  ghost predicate Quiet(t: seq<Op>) {
    forall k :: 0 <= k < |t| ==> !t[k].Write? && !t[k].SetOption?
  }

  /** Every import in `t` reads its frame's own buffer at the shared size. */
  ghost predicate ImportsAtSize(t: seq<Op>, frames: GifFrames) {
    forall k :: 0 <= k < |t| && t[k].Import? ==>
      && t[k].frame < |frames.frames|
      && t[k].pixels == frames.frames[t[k].frame]
      && t[k].width == frames.width && t[k].height == frames.height
  }

  /** Every delay in `t` is the fixed one. */
  ghost predicate DelaysFixed(t: seq<Op>) {
    forall k :: 0 <= k < |t| && t[k].SetDelay? ==> t[k].ticks == FrameDelay
  }

  /** The facts about imports and delays that hold of the whole trace. */
  ghost predicate Tame(t: seq<Op>, frames: GifFrames) {
    ImportsAtSize(t, frames) && DelaysFixed(t)
  }

  /** The three facts about a piece of trace that the frame loop keeps. */
  ghost predicate Shaped(t: seq<Op>, frames: GifFrames) {
    Quiet(t) && Tame(t, frames)
  }

  lemma ShapedAppend(a: seq<Op>, b: seq<Op>, frames: GifFrames)
    requires Shaped(a, frames) && Shaped(b, frames)
    ensures Shaped(a + b, frames)
  {
    assert forall k :: 0 <= k < |b| ==> (a + b)[|a| + k] == b[k];
  }

  lemma TameAppend(a: seq<Op>, b: seq<Op>, frames: GifFrames)
    requires Tame(a, frames) && Tame(b, frames)
    ensures Tame(a + b, frames)
  {
    assert forall k :: 0 <= k < |b| ==> (a + b)[|a| + k] == b[k];
  }

  lemma PrologueShaped(frames: GifFrames)
    ensures Shaped(Prologue(frames), frames)
  {
  }

  lemma FinishTame(target: CString, codec: Codec, frames: GifFrames)
    ensures Tame(Finish(target, codec), frames)
  {
  }

  lemma FrameStepShaped(frames: GifFrames, gif: bool, i: nat)
    requires i < |frames.frames|
    ensures Shaped(FrameStart(frames, i), frames)
    ensures Shaped(FrameAccepted(gif, i), frames)
    ensures Shaped(FrameRejected(i), frames)
  {
  }

  /** The frame loop never writes, imports each frame's own buffer, and only sets the fixed delay. */
  lemma {:induction false} FrameLoopShape(frames: GifFrames, gif: bool, codec: Codec, i: nat)
    requires i <= |frames.frames|
    ensures Shaped(FrameLoop(frames, gif, codec, i).0, frames)
    decreases |frames.frames| - i
  {
    if i < |frames.frames| {
      FrameStepShaped(frames, gif, i);
      if codec.imports(i) {
        FrameLoopShape(frames, gif, codec, i + 1);
        ShapedAppend(FrameStart(frames, i), FrameAccepted(gif, i), frames);
        ShapedAppend(FrameStart(frames, i) + FrameAccepted(gif, i),
                     FrameLoop(frames, gif, codec, i + 1).0, frames);
      } else {
        ShapedAppend(FrameStart(frames, i), FrameRejected(i), frames);
      }
    }
  }

  // ---------------------------------------------------------------------------
  // Properties of `gif_save`

  /** The calls around the frame loop concern no frame. */
  lemma PrologueView(kind: Kind, frames: GifFrames)
    ensures FramesOf(kind, Prologue(frames)) == []
  {
    FramesOfNone(kind, Prologue(frames));
  }

  lemma FinishView(kind: Kind, target: CString, codec: Codec)
    ensures FramesOf(kind, Finish(target, codec)) == []
  {
    FramesOfNone(kind, Finish(target, codec));
  }

  /** The views of the whole trace are the views of the frame loop. */
  lemma RunView(kind: Kind, frames: GifFrames, target: CString, gif: bool, codec: Codec)
    ensures FramesOf(kind, Run(frames, target, gif, codec).trace)
              == ExpectedView(kind, gif, codec, 0, |frames.frames|)
  {
    var loop := FrameLoop(frames, gif, codec, 0);
    FrameLoopView(kind, frames, gif, codec, 0);
    PrologueView(kind, frames);
    if loop.1 {
      FinishView(kind, target, codec);
      FramesOfAppend3(kind, Prologue(frames), loop.0, Finish(target, codec));
      assert [] + FramesOf(kind, loop.0) + [] == FramesOf(kind, loop.0);
    } else {
      FramesOfAppend(kind, Prologue(frames), loop.0);
      assert [] + FramesOf(kind, loop.0) == FramesOf(kind, loop.0);
    }
  }

  lemma RunOrders(frames: GifFrames, target: CString, gif: bool, codec: Codec)
    ensures var t := Run(frames, target, gif, codec).trace;
            var n := |frames.frames|;
            && FramesOf(Imported, t) == Range(0, Attempted(codec, 0, n))
            && FramesOf(Added, t) == Range(0, FirstRejected(codec, 0, n))
            && FramesOf(Delayed, t) == (if gif then Range(0, FirstRejected(codec, 0, n)) else [])
  {
    RunView(Imported, frames, target, gif, codec);
    RunView(Added, frames, target, gif, codec);
    RunView(Delayed, frames, target, gif, codec);
  }

  /**
   Frames are imported strictly in index order, stopping right after the first
   failed import, and added to the animation in index order up to (not
   including) that import.
   */
  lemma SaveFrameOrder(frames: GifFrames, output: CString, codec: Codec)
    ensures var t := Save(frames, output, codec).trace;
            var n := |frames.frames|;
            && FramesOf(Imported, t) == Range(0, Attempted(codec, 0, n))
            && FramesOf(Added, t) == Range(0, FirstRejected(codec, 0, n))
  {
    var target := Target(output);
    RunOrders(frames, target, IsGifPath(target), codec);
  }

  /** A frame gets a delay exactly when it is added and the target path ends in `.gif`. */
  lemma SaveDelays(frames: GifFrames, output: CString, codec: Codec)
    ensures var t := Save(frames, output, codec).trace;
            FramesOf(Delayed, t) == (if IsGifPath(Target(output)) then FramesOf(Added, t) else [])
  {
    var target := Target(output);
    RunOrders(frames, target, IsGifPath(target), codec);
  }

  /** Imports read each frame's own buffer at the shared size; every delay is the fixed one. */
  lemma RunShape(frames: GifFrames, target: CString, gif: bool, codec: Codec)
    ensures var t := Run(frames, target, gif, codec).trace;
            ImportsAtSize(t, frames) && DelaysFixed(t)
  {
    var loop := FrameLoop(frames, gif, codec, 0);
    FrameLoopShape(frames, gif, codec, 0);
    PrologueShaped(frames);
    ShapedAppend(Prologue(frames), loop.0, frames);
    if loop.1 {
      FinishTame(target, codec, frames);
      TameAppend(Prologue(frames) + loop.0, Finish(target, codec), frames);
    }
  }

  /** Each import reads the frame's own buffer at the shared `width`×`height`; each delay is 4. */
  lemma SaveShape(frames: GifFrames, output: CString, codec: Codec)
    ensures var t := Save(frames, output, codec).trace;
            ImportsAtSize(t, frames) && DelaysFixed(t)
  {
    var target := Target(output);
    RunShape(frames, target, IsGifPath(target), codec);
  }

  /** Where the writes of a run are: nowhere after a failed import, right after the loop option otherwise. */
  lemma RunWrites(frames: GifFrames, target: CString, gif: bool, codec: Codec)
    ensures var t := Run(frames, target, gif, codec).trace;
            forall k :: 0 <= k < |t| && t[k].Write? ==>
              k >= 1 && t[k - 1] == SetOption("loop", "0") && t[k].path == target
    ensures !FrameLoop(frames, gif, codec, 0).1 ==> Quiet(Run(frames, target, gif, codec).trace)
    ensures FrameLoop(frames, gif, codec, 0).1 ==> Write(target) in Run(frames, target, gif, codec).trace
  {
    var loop := FrameLoop(frames, gif, codec, 0);
    FrameLoopShape(frames, gif, codec, 0);
    var pre := Prologue(frames);
    var t := Run(frames, target, gif, codec).trace;
    assert forall k :: 0 <= k < |loop.0| ==> (pre + loop.0)[|pre| + k] == loop.0[k];
    assert Quiet(pre + loop.0);
    if loop.1 {
      var fin := Finish(target, codec);
      assert t == (pre + loop.0) + fin;
      assert t[|pre + loop.0| + 1] == Write(target);
      forall k | 0 <= k < |t| && t[k].Write?
        ensures k >= 1 && t[k - 1] == SetOption("loop", "0") && t[k].path == target
      {
        if k < |pre + loop.0| {
          assert false;
        }
        assert t[k] == fin[k - |pre + loop.0|];
      }
    }
  }

  /**
   A failed import ends the call: `false` is returned, and neither the loop
   option nor the write is ever issued.
   */
  lemma SaveAbortsOnRejectedImport(frames: GifFrames, output: CString, codec: Codec, j: nat)
    requires j < |frames.frames| && !codec.imports(j)
    ensures !Save(frames, output, codec).ok
    ensures Quiet(Save(frames, output, codec).trace)
  {
    var target := Target(output);
    RunWrites(frames, target, IsGifPath(target), codec);
  }

  /**
   Every write goes to the target path and comes right after the loop option
   is set to "0" (loop forever); when all imports succeed the write is issued.
   */
  lemma SaveWritesAfterLoopOption(frames: GifFrames, output: CString, codec: Codec)
    ensures var t := Save(frames, output, codec).trace;
            forall k :: 0 <= k < |t| && t[k].Write? ==>
              k >= 1 && t[k - 1] == SetOption("loop", "0") && t[k].path == Target(output)
    ensures (forall j :: 0 <= j < |frames.frames| ==> codec.imports(j)) ==>
              Write(Target(output)) in Save(frames, output, codec).trace
  {
    var target := Target(output);
    RunWrites(frames, target, IsGifPath(target), codec);
  }

  /** Saving to a `.png` or `.apng` path sets no frame delay at all. */
  lemma ApngSaveHasNoDelays(frames: GifFrames, output: CString, codec: Codec)
    requires IsApngPath(output)
    ensures FramesOf(Delayed, Save(frames, output, codec).trace) == []
  {
    ApngTargetIsNotGif(output);
    SaveDelays(frames, output, codec);
  }

  /** When every import and the write succeed, all frames are added in order and the target is written. */
  lemma SaveSucceeds(frames: GifFrames, output: CString, codec: Codec)
    requires forall j :: 0 <= j < |frames.frames| ==> codec.imports(j)
    requires codec.writes
    ensures Save(frames, output, codec).ok
    ensures FramesOf(Added, Save(frames, output, codec).trace) == Range(0, |frames.frames|)
    ensures Write(Target(output)) in Save(frames, output, codec).trace
  {
    SaveFrameOrder(frames, output, codec);
    SaveWritesAfterLoopOption(frames, output, codec);
  }
}
