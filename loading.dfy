/** The two timer-driven text effects of the portfolio page, with each timer
    callback as a method: the loading screen's glitch reveal (one Tick per
    interval firing) and the hero title's typing effect (one Step, then one
    Settle 100 ms later, per character). */
module Loading {
  import opened Reveal

  /** The hero title the typing effect spells out. */
  const TitleText: string := "Welcome to my portfolio"

  /** text.split(''), built one character at a time from the left; the
      result holds one singleton string per character, in order. */
  function Singletons(s: string): (r: seq<string>)
    ensures |r| == |s| && forall i :: 0 <= i < |s| ==> r[i] == [s[i]]
  {
    if s == [] then [] else Singletons(s[..|s| - 1]) + [[s[|s| - 1]]]
  }

  /** parts.join(''). */
  function Join(parts: seq<string>): string {
    if parts == [] then [] else Join(parts[..|parts| - 1]) + parts[|parts| - 1]
  }

  /** Joining the characters of a string gives the string back. */
  lemma {:induction false} JoinSingletons(s: string)
    ensures Join(Singletons(s)) == s
  {
    if s != [] {
      var n := |s| - 1;
      assert Singletons(s)[..n] == Singletons(s[..n]);
      JoinSingletons(s[..n]);
      assert s == s[..n] + [s[n]];
    }
  }

  /** glitchEffect: the state its interval callback works on. */
  class GlitchAnimation {
    /** The target text. */
    const text: string
    const totalFrames: nat
    /** The number of ticks run so far. */
    var frame: nat
    /** One displayed string per position. */
    const textArray: array<string>
    /** The element's textContent. */
    var content: string
    /** Whether the interval is still scheduled. */
    var running: bool

    ghost predicate Valid()
      reads this
    {
      && textArray.Length == |text|
      && (running ==> frame == 0 || frame < totalFrames)
      && (!running ==> frame >= 1 && frame >= totalFrames && content == text)
    }

    /** Starts the effect; the element keeps showing `shown` until the first tick. */
    constructor (text: string, duration: nat, interval: nat, shown: string)
      requires interval > 0
      ensures Valid() && fresh(textArray)
      ensures this.text == text && totalFrames == TotalFrames(duration, interval)
      ensures frame == 0 && running && content == shown
      ensures forall i :: 0 <= i < textArray.Length ==> textArray[i] == ""
    {
      this.text := text;
      totalFrames := TotalFrames(duration, interval);
      frame := 0;
      textArray := new string[|text|](_ => "");
      content := shown;
      running := true;
    }

    /** One firing of the interval: redraw every position for the current
        frame, show the joined frame, advance the counter, and on reaching
        totalFrames stop the interval and show the target text. */
    method Tick(picks: seq<nat>)
      requires Valid() && running
      requires |picks| == |text| && ValidPicks(picks)
      modifies this`frame, this`content, this`running, textArray
      ensures Valid()
      ensures frame == old(frame) + 1
      ensures textArray[..] == Singletons(FrameText(text, old(frame), totalFrames, picks))
      ensures running == (frame < totalFrames)
      ensures content == if running then FrameText(text, old(frame), totalFrames, picks) else text
    {
      ghost var shown := FrameText(text, frame, totalFrames, picks);
      for i := 0 to textArray.Length
        modifies textArray
        invariant forall k :: 0 <= k < i ==> textArray[k] == [shown[k]]
      {
        if Revealed(frame, totalFrames, i, textArray.Length) {
          textArray[i] := [text[i]];
        } else {
          textArray[i] := [GlitchChars[picks[i]]];
        }
      }
      assert textArray[..] == Singletons(shown);
      JoinSingletons(shown);
      content := Join(textArray[..]);
      frame := frame + 1;
      if frame >= totalFrames {
        running := false;
        content := text;
      }
    }

    /** The interval firing until it clears itself; schedule[f] holds the
        scramble picks of frame f. */
    method Play(schedule: seq<seq<nat>>)
      requires Valid()
      requires running ==> |schedule| >= totalFrames && |schedule| >= 1
      requires forall f :: 0 <= f < |schedule| ==> |schedule[f]| == |text| && ValidPicks(schedule[f])
      modifies this`frame, this`content, this`running, textArray
      ensures Valid() && !running && content == text
      ensures frame >= totalFrames
    {
      while running
        invariant Valid()
        invariant running ==> frame < |schedule|
        decreases |schedule| - frame
      {
        Tick(schedule[frame]);
      }
    }
  }

  /** typeWithGlitch: the hero title typed one character at a time, each
      first shown as a scramble character. */
  class TitleTyping {
    /** The text being typed. */
    const finalText: string
    /** The counter i: characters committed so far. */
    var typed: nat
    /** The title's textContent. */
    var title: string
    /** Whether a scramble character is showing and its 100 ms
        replacement is scheduled. */
    var pending: bool

    ghost predicate Valid()
      reads this
    {
      && typed <= |finalText|
      && (!pending ==> title == finalText[..typed])
      && (pending ==>
            && typed < |finalText|
            && |title| == typed + 1
            && title[..typed] == finalText[..typed]
            && title[typed] in GlitchChars)
    }

    /** The title is cleared before typing starts. */
    constructor (finalText: string)
      ensures Valid() && this.finalText == finalText
      ensures typed == 0 && title == [] && !pending
    {
      this.finalText := finalText;
      typed := 0;
      title := [];
      pending := false;
    }

    /** One call of typeWithGlitch: while characters remain, append the
        scramble character `pick` and schedule its replacement. */
    method Step(pick: nat) returns (started: bool)
      requires Valid() && !pending
      requires pick < |GlitchChars|
      modifies this`title, this`pending
      ensures Valid()
      ensures started == (typed < |finalText|) && pending == started
      ensures title == if started then old(title) + [GlitchChars[pick]] else old(title)
    {
      started := typed < |finalText|;
      if started {
        title := title + [GlitchChars[pick]];
        pending := true;
      }
    }

    /** The replacement callback: the scramble character gives way to the
        next character of the text and the counter advances. */
    method Settle()
      requires Valid() && pending
      modifies this`title, this`typed, this`pending
      ensures Valid() && !pending
      ensures typed == old(typed) + 1
      ensures title == old(title)[..|old(title)| - 1] + [finalText[old(typed)]]
      ensures title == finalText[..typed]
    {
      title := title[..|title| - 1] + [finalText[typed]];
      typed := typed + 1;
      pending := false;
      assert finalText[..typed] == finalText[..typed - 1] + [finalText[typed - 1]];
    }

    /** The timer chain run to its end; picks[k] is the scramble character
        drawn for position k. */
    method TypeAll(picks: seq<nat>)
      requires Valid() && !pending
      requires |picks| >= |finalText| && ValidPicks(picks)
      modifies this`title, this`typed, this`pending
      ensures Valid() && !pending
      ensures typed == |finalText| && title == finalText
    {
      while typed < |finalText|
        invariant Valid() && !pending
        decreases |finalText| - typed
      {
        var started := Step(picks[typed]);
        Settle();
      }
      var started := Step(0);
      assert finalText[..|finalText|] == finalText;
    }
  }

  /** The hero title's effect as the page runs it: typing TitleText into a
      cleared title until the chain stops leaves exactly TitleText. */
  method TypeHeroTitle(picks: seq<nat>) returns (t: TitleTyping)
    requires |picks| >= |TitleText| && ValidPicks(picks)
    ensures t.finalText == TitleText && t.typed == |TitleText|
    ensures t.title == TitleText && !t.pending
  {
    t := new TitleTyping(TitleText);
    t.TypeAll(picks);
  }
}
