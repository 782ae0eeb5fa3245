/** What the blanker keeps and what it removes, on every source, complete or not. */
module CodeOnlyTheorems {
  import opened Prelude
  import opened CodeOnly
  import opened Text

  // ----- offsets

  /** A unit of the output is the source's, or a space for one that is no newline. */
  predicate KeptOrBlank(o: unit, s: unit) {
    o == s || (o == Utf16(' ') && s != Utf16('\n'))
  }

  lemma {:induction false} OutputUnits(src: seq<unit>, i: nat)
    requires i <= |src|
    ensures forall k :: 0 <= k < |src| - i ==> KeptOrBlank(Output(src, i)[k], src[i + k])
    decreases |src| - i
  {
    hide Step;
    if i < |src| {
      var m := Step(src, i);
      var end := Clip(m.next, src);
      OutputUnits(src, end);
      var rest := Output(src, end);
      forall k | 0 <= k < |src| - i ensures KeptOrBlank(Output(src, i)[k], src[i + k]) {
        if k >= end - i {
          assert Output(src, i)[k] == rest[k - (end - i)];
          assert src[end + (k - (end - i))] == src[i + k];
        }
      }
    }
  }

  /** Length and newline positions stay, and every change is to a space. */
  lemma OffsetsKept(src: seq<unit>)
    ensures |Code(src)| == |src|
    ensures forall k :: 0 <= k < |src| ==> KeptOrBlank(Code(src)[k], src[k])
    ensures forall k :: 0 <= k < |src| ==> (Code(src)[k] == Utf16('\n') <==> src[k] == Utf16('\n'))
  {
    hide Output;
    OutputUnits(src, 0);
    forall k | 0 <= k < |src| ensures KeptOrBlank(Code(src)[k], src[k]) {
      assert src[0 + k] == src[k];
    }
  }

  // ----- what a kept unit tells about the source

  /** The unit at `k` is kept as code: the scanner passes it without blanking. */
  ghost predicate KeptAt(src: seq<unit>, k: nat)
    requires k < |src|
  {
    exists i: nat :: i <= k && IsKeeping(src, i, k)
  }

  predicate IsKeeping(src: seq<unit>, i: nat, k: nat)
    requires i <= k < |src|
  {
    !Step(src, i).blank && k < Step(src, i).next
  }

  /** A unit of the output that is no space was kept. */
  lemma {:induction false} VisibleIsKept(src: seq<unit>, i: nat, k: nat)
    requires i <= k < |src| && Output(src, i)[k - i] != Utf16(' ') && src[k] != Utf16('\n')
    ensures KeptAt(src, k)
    decreases |src| - i
  {
    hide Step;
    var m := Step(src, i);
    var end := Clip(m.next, src);
    if k < end {
      assert src[i..end][k - i] == src[k];
      assert !m.blank;
      assert IsKeeping(src, i, k);
    } else {
      assert Output(src, i)[k - i] == Output(src, end)[k - end];
      VisibleIsKept(src, end, k);
    }
  }

  /** Keeping steps pass one unit, or the `b` and apostrophe before a lifetime. */
  lemma KeepingStep(src: seq<unit>, i: nat)
    requires i < |src| && !Step(src, i).blank
    ensures src[i] != Utf16('"')
    ensures src[i] == Utf16('/') ==> Unit(src, i + 1) != Utf16('/') && Unit(src, i + 1) != Utf16('*')
    ensures Step(src, i).next == i + 1 || (Step(src, i).next == i + 2 && src[i] == Utf16('b') && Unit(src, i + 1) == Utf16('\''))
    ensures src[i] == Utf16('\'') ==> CharClose(src, i) == None
    ensures Step(src, i).next == i + 2 ==> CharClose(src, i + 1) == None
  {
    hide CharClose, StringEnd, RawEnd, BlockEnd, LineEnd, HashesEnd;
  }

  lemma KeptUnit(src: seq<unit>, k: nat)
    requires k < |src| && KeptAt(src, k)
    ensures src[k] != Utf16('"')
    ensures src[k] == Utf16('/') ==> Unit(src, k + 1) != Utf16('/') && Unit(src, k + 1) != Utf16('*')
    ensures src[k] == Utf16('\'') ==> CharClose(src, k) == None
  {
    hide Step, CharClose;
    var i: nat :| i <= k && IsKeeping(src, i, k);
    KeepingStep(src, i);
  }

  lemma VisibleUnit(src: seq<unit>, k: nat)
    requires k < |src| && Code(src)[k] != Utf16(' ') && Code(src)[k] != Utf16('\n')
    ensures Code(src)[k] == src[k] && KeptAt(src, k)
  {
    hide Output, KeptAt;
    OffsetsKept(src);
    assert src[k] != NEWLINE;
    VisibleIsKept(src, 0, k);
  }

  /** No string quote and no comment opener is left. */
  lemma NothingToBlankLeft(src: seq<unit>, k: nat)
    requires k < |src|
    ensures Code(src)[k] != Utf16('"')
    ensures k + 1 < |src| && Code(src)[k] == Utf16('/') ==> Code(src)[k + 1] != Utf16('/') && Code(src)[k + 1] != Utf16('*')
  {
    hide Code, KeptAt, CharClose;
    OffsetsKept(src);
    if Code(src)[k] == QUOTE || Code(src)[k] == SLASH {
      VisibleUnit(src, k);
      KeptUnit(src, k);
    }
  }

  // ----- idempotence

  /** A backslash is code wherever the scanner stands on it. */
  lemma {:induction false} ReachedAfter(src: seq<unit>, i: nat, p: nat)
    requires i <= p < |src| && Output(src, i)[p - i] == Utf16('\'')
    requires p + 1 < |src| && src[p + 1] == Utf16('\\')
    ensures Output(src, i)[p + 1 - i] == Utf16('\\')
    decreases |src| - i
  {
    hide CharClose, StringEnd, RawEnd, BlockEnd, LineEnd, HashesEnd, StartsRaw, StartsString, StartsChar;
    var m := Step(src, i);
    var end := Clip(m.next, src);
    if p < end {
      assert src[i..end][p - i] == src[p];
      assert !m.blank;
      KeepingStep(src, i);
      BackslashIsCode(src, p + 1);
      LastOfKept(src, i, p);
      assert Output(src, i)[p + 1 - i] == Output(src, end)[0];
    } else {
      assert Output(src, i)[p - i] == Output(src, end)[p - end];
      ReachedAfter(src, end, p);
      assert Output(src, i)[p + 1 - i] == Output(src, end)[p + 1 - end];
    }
  }

  lemma LastOfKept(src: seq<unit>, i: nat, p: nat)
    requires i <= p < |src| && !Step(src, i).blank && p < Step(src, i).next && src[p] == Utf16('\'')
    ensures Step(src, i).next == p + 1
  {
    hide CharClose, Step;
    KeepingStep(src, i);
    OneUnitSteps(src, i);
  }

  lemma OneUnitSteps(src: seq<unit>, i: nat)
    requires i < |src| && !Step(src, i).blank
    ensures Step(src, i).next == i + 2 ==> src[i] != Utf16('\'')
  {
    hide CharClose;
  }

  lemma BackslashIsCode(src: seq<unit>, i: nat)
    requires i < |src| && src[i] == Utf16('\\')
    ensures Step(src, i) == Move(i + 1, false)
    ensures Output(src, i)[0] == Utf16('\\')
  {
    hide CharClose, StringEnd, RawEnd, BlockEnd, LineEnd, HashesEnd;
  }

  /** An apostrophe that opened no literal in the source opens none in the output. */
  lemma StillNoLiteral(src: seq<unit>, p: nat)
    requires p < |src| && Code(src)[p] == Utf16('\'')
    ensures CharClose(Code(src), p) == None
  {
    hide Output, KeptAt, ApostropheEnd;
    var o := Code(src);
    OffsetsKept(src);
    VisibleUnit(src, p);
    KeptUnit(src, p);
    forall k: nat ensures Unit(o, k) == Unit(src, k) || Unit(o, k) == SPACE as int {
    }
    if p + 1 < |src| && src[p + 1] == BACKSLASH {
      ReachedAfter(src, 0, p);
      if p + 3 <= |src| {
        assert ApostropheEnd(o, p + 3) >= ApostropheEnd(src, p + 3);
      }
    }
  }

  /** Nothing in the output is blanked again, wherever the scanner stands. */
  lemma NoStepBlanks(src: seq<unit>, i: nat)
    requires i < |src|
    ensures !Step(Code(src), i).blank
  {
    hide Code, CharClose, StringEnd, RawEnd, BlockEnd, LineEnd;
    var o := Code(src);
    forall k: nat | k < |o| ensures o[k] != QUOTE {
      NothingToBlankLeft(src, k);
    }
    NothingToBlankLeft(src, i);
    if o[i] == APOSTROPHE {
      StillNoLiteral(src, i);
    } else if i + 1 < |src| && o[i + 1] == APOSTROPHE {
      StillNoLiteral(src, i + 1);
    }
  }

  lemma {:induction false} KeptWhole(o: seq<unit>, i: nat)
    requires i <= |o| && forall k: nat :: i <= k < |o| ==> !Step(o, k).blank
    ensures Output(o, i) == o[i..]
    decreases |o| - i
  {
    hide Step;
    if i < |o| {
      var end := Clip(Step(o, i).next, o);
      KeptWhole(o, end);
      assert o[i..] == o[i..end] + o[end..];
    }
  }

  /** Blanking a second time changes nothing, for every source. */
  lemma Idempotent(src: seq<unit>)
    ensures Code(Code(src)) == Code(src)
  {
    hide Step, Output;
    var o := Code(src);
    forall k: nat | 0 <= k < |o| ensures !Step(o, k).blank {
      NoStepBlanks(src, k);
    }
    KeptWhole(o, 0);
    assert o[0..] == o;
  }
}
