/** The decisions the page's input handlers make: which navigation request a
    wheel tick, a key press or a touch swipe turns into. Clicks on indicator i
    or nav link i are plain Jump(i) requests and need no rule of their own. */
module Input {
  import opened Navigation

  /** The settled wheel callback: scrolling down (a positive deltaY) goes to the
      next section; every other delta, zero included, goes to the previous one. */
  function WheelAction(deltaY: int): Nav {
    if deltaY > 0 then Next else Prev
  }

  /** The vertical distance a swipe must exceed before it navigates. */
  const SwipeThreshold: nat := 50

  /** The touchend callback: a swipe longer than the threshold goes to the
      previous section when the finger moved down and to the next when it moved up. */
  function SwipeAction(startY: int, endY: int): Nav {
    var deltaY := endY - startY;
    if Abs(deltaY) > SwipeThreshold then
      if deltaY > 0 then Prev else Next
    else Stay
  }

  function Abs(x: int): nat { if x < 0 then -x else x }

  /** Next and Prev swapped; every other request unchanged. */
  function Opposite(nav: Nav): Nav {
    match nav
    case Next => Prev
    case Prev => Next
    case other => other
  }

  lemma WheelDirection(deltaY: int)
    ensures WheelAction(deltaY) == Next <==> deltaY > 0
    ensures WheelAction(deltaY) == Prev <==> deltaY <= 0
    ensures deltaY != 0 ==> WheelAction(-deltaY) == Opposite(WheelAction(deltaY))
  {
  }

  /** A short swipe does nothing; a long one navigates, and the same swipe
      made in the opposite direction navigates the opposite way. */
  lemma SwipeRules(startY: int, endY: int)
    ensures SwipeAction(startY, endY) == Stay <==> -50 <= endY - startY <= 50
    ensures SwipeAction(startY, endY) == Next <==> endY - startY < -50
    ensures SwipeAction(startY, endY) == Prev <==> endY - startY > 50
    ensures SwipeAction(endY, startY) == Opposite(SwipeAction(startY, endY))
  {
  }

  /** An upward swipe of 60px goes to the next section. */
  lemma SwipeUpScenario()
    ensures SwipeAction(400, 340) == Next
  {
  }

  // ---------------------------------------------------------------------
  // Keyboard
  // ---------------------------------------------------------------------

  /** JavaScript's `<=` on strings: lexicographic order on characters. */
  predicate LexLe(a: string, b: string)
    decreases |a|
  {
    if a == [] then true
    else if b == [] then false
    else if a[0] != b[0] then a[0] < b[0]
    else LexLe(a[1..], b[1..])
  }

  predicate IsDigit(c: char) {
    '0' <= c <= '9'
  }

  /** The longest prefix of s made of decimal digits. */
  function LeadingDigits(s: string): (r: string)
    ensures |r| <= |s| && r == s[..|r|]
    ensures forall i :: 0 <= i < |r| ==> IsDigit(r[i])
    ensures |r| < |s| ==> !IsDigit(s[|r|])
  {
    if s == [] || !IsDigit(s[0]) then [] else [s[0]] + LeadingDigits(s[1..])
  }

  /** The value of a non-empty run of decimal digits, most significant first. */
  function DecimalValue(s: string): nat
    requires forall i :: 0 <= i < |s| ==> IsDigit(s[i])
  {
    if s == [] then 0
    else DecimalValue(s[..|s| - 1]) * 10 + DigitValue(s[|s| - 1])
  }

  function DigitValue(c: char): nat
    requires IsDigit(c)
  {
    assert '0' as int <= c as int;
    c as int - '0' as int
  }

  /** parseInt on a string that starts with a digit: the value of its leading digits. */
  function ParseLeadingInt(s: string): nat {
    DecimalValue(LeadingDigits(s))
  }

  predicate IsNextKey(key: string) {
    key == "ArrowDown" || key == "PageDown"
  }

  predicate IsPrevKey(key: string) {
    key == "ArrowUp" || key == "PageUp"
  }

  /** The digit test `key >= '1' && key <= '5'`, a string comparison. */
  predicate IsDigitKey(key: string) {
    LexLe("1", key) && LexLe(key, "5")
  }

  /** The keydown callback's request. */
  function KeyAction(key: string): Nav {
    if IsNextKey(key) then Next
    else if IsPrevKey(key) then Prev
    else if IsDigitKey(key) then Jump(ParseLeadingInt(key) - 1)
    else Stay
  }

  /** The digit test admits exactly the strings whose first character is
      '1' to '4', and the string "5". */
  lemma DigitKeyShape(key: string)
    ensures IsDigitKey(key) <==> |key| >= 1 && (('1' <= key[0] < '5') || key == "5")
  {
    if |key| >= 1 && key[0] == '5' && |key| > 1 {
      assert LexLe(key[1..], "5"[1..]) == false;
    }
  }

  /** The three tests of the keydown callback never hold together, so each key
      issues at most one request. */
  lemma KeyTestsExclusive(key: string)
    ensures !(IsNextKey(key) && IsPrevKey(key))
    ensures IsNextKey(key) ==> !IsDigitKey(key)
    ensures IsPrevKey(key) ==> !IsDigitKey(key)
  {
    DigitKeyShape(key);
  }

  /** The value of a digit run is at least its leading digit. */
  lemma {:induction false} DecimalValueAtLeastLead(s: string)
    requires |s| >= 1 && forall i :: 0 <= i < |s| ==> IsDigit(s[i])
    ensures DecimalValue(s) >= DigitValue(s[0])
  {
    if |s| > 1 {
      DecimalValueAtLeastLead(s[..|s| - 1]);
    }
  }

  /** A digit key always asks for a non-negative section index, and a single
      digit d from '1' to '5' asks for section d - 1. */
  lemma DigitKeyJump(key: string)
    requires IsDigitKey(key)
    ensures KeyAction(key).Jump? && KeyAction(key).index >= 0
    ensures |key| == 1 ==> KeyAction(key) == Jump(key[0] as int - '1' as int)
  {
    DigitKeyShape(key);
    KeyTestsExclusive(key);
    var ds := LeadingDigits(key);
    assert |ds| >= 1 && ds[0] == key[0];
    DecimalValueAtLeastLead(ds);
    if |key| == 1 {
      assert ds == key;
      assert ds[..0] == [];
    }
  }

  /** Key '3' jumps to section 2; the paging keys step. */
  lemma KeyScenarios()
    ensures KeyAction("3") == Jump(2)
    ensures KeyAction("ArrowDown") == Next && KeyAction("PageDown") == Next
    ensures KeyAction("ArrowUp") == Prev && KeyAction("PageUp") == Prev
    ensures KeyAction("Enter") == Stay
  {
    DigitKeyJump("3");
    KeyTestsExclusive("ArrowDown");
    KeyTestsExclusive("PageDown");
    KeyTestsExclusive("ArrowUp");
    KeyTestsExclusive("PageUp");
    DigitKeyShape("Enter");
  }
}
