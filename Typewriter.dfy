/**
 * The typewriter reveal of ArticleSummary.js (`typeText`). Each firing of the
 * self-rescheduling `type` callback writes the prefix `text[..index]` into the
 * element followed by the cursor. After the frame showing the whole text,
 * no character tick is scheduled; instead a first timer gives the cursor the
 * class `cursor-fadeout` and a second one removes the cursor and the injected
 * fade-out style. Timer delays are abstracted: a tick is one fired callback.
 */
module Typewriter {

  /** The cursor glyph appended after the typed prefix. */
  const Cursor: string := "|"

  const FadeClass: string := "cursor-fadeout"

  /** Which callback is pending. */
  datatype Phase =
    | Typing   // the next `type` call
    | Pausing  // the timer that adds the fade-out class
    | Fading   // the timer that removes cursor and style
    | Done     // nothing

  /** What the element holds after the `type` call for prefix length `k`. */
  function Frame(text: string, k: nat): (f: string)
    requires k <= |text|
    ensures |f| == k + 1 && f[..k] == text[..k] && f[k] == '|'
  {
    text[..k] + Cursor
  }

  /** The frames a full reveal writes, in order. */
  function AllFrames(text: string): (frames: seq<string>)
    ensures |frames| == |text| + 1
  {
    seq(|text| + 1, k requires 0 <= k <= |text| => Frame(text, k))
  }

  /** The last frame is the whole text, and each frame adds exactly the next character. */
  lemma AllFramesShape(text: string)
    ensures AllFrames(text)[0] == Cursor
    ensures AllFrames(text)[|text|] == text + Cursor
    ensures forall k :: 0 <= k < |text| ==>
      AllFrames(text)[k + 1] == text[..k] + [text[k]] + Cursor
  {
    assert text[..|text|] == text;
    forall k | 0 <= k < |text|
      ensures AllFrames(text)[k + 1] == text[..k] + [text[k]] + Cursor
    {
      assert text[..k + 1] == text[..k] + [text[k]];
    }
  }

  class Session {
    const text: string
    var index: nat
    var phase: Phase
    /** Every content written into the element, oldest first. */
    var frames: seq<string>
    var cursorClasses: set<string>
    var cursorAttached: bool
    var styleAttached: bool

    ghost predicate Valid()
      reads this
    {
      && index <= |text|
      && (phase == Typing ==> 0 < index && |frames| == index)
      && (phase != Typing ==> index == |text| && |frames| == |text| + 1)
      && frames == AllFrames(text)[..|frames|]
      && cursorAttached == (phase != Done)
      && styleAttached == (phase != Done)
      && cursorClasses == (if phase == Fading || phase == Done then {FadeClass} else {})
    }

    /** The number of callbacks still to fire. */
    ghost function Remaining(): nat
      reads this
      requires Valid()
    {
      match phase
      case Typing => |text| - index + 3
      case Pausing => 2
      case Fading => 1
      case Done => 0
    }

    /** What the element shows: the last prefix written, then the cursor while it is attached. */
    ghost function Shown(): string
      reads this
      requires Valid()
    {
      text[..|frames| - 1] + (if cursorAttached then Cursor else "")
    }

    /** `typeText(text)`, including its first, synchronous call of `type`. */
    constructor (text: string)
      ensures Valid() && this.text == text
      ensures frames == [Cursor] && Shown() == Cursor
      ensures index == (if text == [] then 0 else 1)
      ensures phase == (if text == [] then Pausing else Typing)
      ensures Remaining() == |text| + 2
    {
      this.text := text;
      frames := [text[..0] + Cursor];
      cursorClasses := {};
      cursorAttached := true;
      styleAttached := true;
      if |text| == 0 {
        index := 0;
        phase := Pausing;
      } else {
        index := 1;
        phase := Typing;
      }
      new;
      assert text[..0] + Cursor == Cursor;
      assert AllFrames(text)[..1] == [Frame(text, 0)];
    }

    /** The pending callback fires. */
    method Tick()
      requires Valid() && phase != Done
      modifies this
      ensures Valid() && Remaining() == old(Remaining()) - 1
      ensures old(phase) == Typing ==>
        && frames == old(frames) + [Frame(text, old(index))]
        && (if old(index) == |text| then phase == Pausing && index == old(index)
            else phase == Typing && index == old(index) + 1)
        && cursorClasses == old(cursorClasses) && cursorAttached && styleAttached
      ensures old(phase) == Pausing ==>
        phase == Fading && frames == old(frames) && index == old(index)
        && cursorClasses == {FadeClass} && cursorAttached && styleAttached
      ensures old(phase) == Fading ==>
        phase == Done && frames == old(frames) && index == old(index)
        && cursorClasses == old(cursorClasses) && !cursorAttached && !styleAttached
    {
      match phase
      case Typing =>
        frames := frames + [text[..index] + Cursor];
        if index == |text| {
          phase := Pausing;
        } else {
          index := index + 1;
        }
      case Pausing =>
        cursorClasses := cursorClasses + {FadeClass};
        phase := Fading;
      case Fading =>
        cursorAttached := false;
        styleAttached := false;
        phase := Done;
    }

    /**
     * The event loop fires the pending callbacks until none is left. The
     * element then shows the text without cursor, every frame of the reveal
     * was written once and in order, and the style is gone.
     */
    method RunToEnd() returns (ticks: nat)
      requires Valid()
      modifies this
      ensures Valid() && phase == Done && ticks == old(Remaining())
      ensures frames == AllFrames(text) && Shown() == text
      ensures cursorClasses == {FadeClass} && !cursorAttached && !styleAttached
    {
      ticks := 0;
      while phase != Done
        invariant Valid()
        invariant ticks + Remaining() == old(Remaining())
        decreases Remaining()
      {
        Tick();
        ticks := ticks + 1;
      }
      assert text[..|text|] == text;
    }
  }
}
