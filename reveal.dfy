/** The per-frame rule of the loading screen's glitch text: in frame `frame`
    of `totalFrames`, position i of the target text shows its real character
    once frame / totalFrames exceeds i / length, and a scramble character
    otherwise. The random scramble choice is an input: one index into
    GlitchChars per position. */
module Reveal {

  /** The scramble alphabet. */
  const GlitchChars: string := "!@#$%^&*()-_=+[]{}|;:,.<>?/~"

  /** The loading screen's message. */
  const LoadingMessage: string := "Loading your world..."

  /** The default duration and tick interval, in ms. */
  const DefaultDuration: nat := 2000
  const DefaultInterval: nat := 60

  /** Every pick is an index into the scramble alphabet, as
      Math.floor(Math.random() * glitchChars.length) always is. */
  predicate ValidPicks(picks: seq<nat>) {
    forall k :: 0 <= k < |picks| ==> picks[k] < |GlitchChars|
  }

  /** Math.floor(duration / interval). */
  function TotalFrames(duration: nat, interval: nat): (r: nat)
    requires interval > 0
    ensures r * interval <= duration < (r + 1) * interval
  {
    duration / interval
  }

  lemma DefaultTotalFrames()
    ensures TotalFrames(DefaultDuration, DefaultInterval) == 33
  {
  }

  /** The reveal test frame / totalFrames > i / len, stated exactly on
      integers. With totalFrames == 0 it follows JavaScript's division:
      0 / 0 is NaN, which compares false, and a positive frame over 0 is
      +Infinity, which exceeds every i / len. */
  predicate Revealed(frame: nat, totalFrames: nat, i: nat, len: nat)
    requires i < len
  {
    if totalFrames > 0 then frame * len > i * totalFrames else frame > 0
  }

  /** How many leading positions a frame reveals. */
  function RevealCount(frame: nat, totalFrames: nat, len: nat): (c: nat)
    ensures c <= len
  {
    if totalFrames > 0 then
      var c := (frame * len + totalFrames - 1) / totalFrames;
      if c <= len then c else len
    else if frame > 0 then len
    else 0
  }

  lemma MulMonotone(a: nat, b: nat, t: nat)
    requires a <= b
    ensures a * t <= b * t
  {
    assert b * t == a * t + (b - a) * t;
  }

  /** Floor division against a product: x fits under y / t exactly when x * t fits under y. */
  lemma LeDivIff(x: nat, y: nat, t: nat)
    requires t > 0
    ensures x <= y / t <==> x * t <= y
  {
    var q, r := y / t, y % t;
    assert y == q * t + r && r < t;
    if x <= q {
      MulMonotone(x, q, t);
    } else {
      MulMonotone(q + 1, x, t);
    }
  }

  /** The revealed positions of a frame are exactly the first RevealCount of them. */
  lemma RevealedIffBelowCount(frame: nat, totalFrames: nat, i: nat, len: nat)
    requires i < len
    ensures Revealed(frame, totalFrames, i, len) <==> i < RevealCount(frame, totalFrames, len)
  {
    if totalFrames > 0 {
      LeDivIff(i + 1, frame * len + totalFrames - 1, totalFrames);
      assert (i + 1) * totalFrames == i * totalFrames + totalFrames;
    }
  }

  /** Frame 0 reveals nothing. */
  lemma NothingRevealedAtStart(totalFrames: nat, len: nat)
    ensures RevealCount(0, totalFrames, len) == 0
  {
    if len > 0 {
      RevealedIffBelowCount(0, totalFrames, 0, len);
    }
  }

  /** Frame totalFrames reveals the whole text. */
  lemma AllRevealedAtTotal(totalFrames: nat, len: nat)
    requires totalFrames > 0
    ensures RevealCount(totalFrames, totalFrames, len) == len
  {
    if len > 0 {
      RevealedIffBelowCount(totalFrames, totalFrames, len - 1, len);
      assert totalFrames * len == (len - 1) * totalFrames + totalFrames;
    }
  }

  /** A later frame reveals every position an earlier one did, so the
      revealed prefix never shrinks. */
  lemma RevealGrows(f1: nat, f2: nat, totalFrames: nat, len: nat)
    requires f1 <= f2
    ensures RevealCount(f1, totalFrames, len) <= RevealCount(f2, totalFrames, len)
    ensures forall i :: 0 <= i < len && Revealed(f1, totalFrames, i, len) ==> Revealed(f2, totalFrames, i, len)
  {
    MulMonotone(f1, f2, len);
    var c1, c2 := RevealCount(f1, totalFrames, len), RevealCount(f2, totalFrames, len);
    if c2 < c1 {
      RevealedIffBelowCount(f1, totalFrames, c2, len);
      RevealedIffBelowCount(f2, totalFrames, c2, len);
    }
  }

  /** The string a frame displays: the join of the per-position choices. */
  function FrameText(text: string, frame: nat, totalFrames: nat, picks: seq<nat>): string
    requires |picks| == |text| && ValidPicks(picks)
  {
    seq(|text|, i requires 0 <= i < |text| =>
      if Revealed(frame, totalFrames, i, |text|) then text[i] else GlitchChars[picks[i]])
  }

  /** Every frame has the length of the target text, shows the target on its
      first RevealCount positions and a scramble character on the rest. */
  lemma FrameShape(text: string, frame: nat, totalFrames: nat, picks: seq<nat>)
    requires |picks| == |text| && ValidPicks(picks)
    ensures var r := FrameText(text, frame, totalFrames, picks);
            var c := RevealCount(frame, totalFrames, |text|);
            |r| == |text| && r[..c] == text[..c] &&
            forall i :: c <= i < |text| ==> r[i] == GlitchChars[picks[i]] && r[i] in GlitchChars
  {
    var r := FrameText(text, frame, totalFrames, picks);
    var c := RevealCount(frame, totalFrames, |text|);
    forall i | 0 <= i < |text|
      ensures i < c ==> r[i] == text[i]
      ensures c <= i ==> r[i] == GlitchChars[picks[i]]
    {
      RevealedIffBelowCount(frame, totalFrames, i, |text|);
    }
  }

  /** What one frame shows of the target, a later frame shows too, whatever
      scramble characters either one drew. */
  lemma FramesKeepRevealed(text: string, f1: nat, f2: nat, totalFrames: nat, p1: seq<nat>, p2: seq<nat>)
    requires f1 <= f2
    requires |p1| == |text| && ValidPicks(p1) && |p2| == |text| && ValidPicks(p2)
    ensures var c := RevealCount(f1, totalFrames, |text|);
            FrameText(text, f2, totalFrames, p2)[..c] == FrameText(text, f1, totalFrames, p1)[..c] == text[..c]
  {
    RevealGrows(f1, f2, totalFrames, |text|);
    FrameShape(text, f1, totalFrames, p1);
    FrameShape(text, f2, totalFrames, p2);
    var c1 := RevealCount(f1, totalFrames, |text|);
    var c2 := RevealCount(f2, totalFrames, |text|);
    assert text[..c2][..c1] == text[..c1];
    assert FrameText(text, f2, totalFrames, p2)[..c2][..c1] == FrameText(text, f2, totalFrames, p2)[..c1];
  }

  /** With the default 2000 ms over 60 ms ticks, the 21-character loading
      message is whole in the last ticked frame, 32, and one character short
      in the frame before. */
  lemma DefaultLastFrames()
    ensures |LoadingMessage| == 21
    ensures TotalFrames(DefaultDuration, DefaultInterval) - 1 == 32
    ensures RevealCount(32, 33, |LoadingMessage|) == 21
    ensures RevealCount(31, 33, |LoadingMessage|) == 20
  {
  }
}
