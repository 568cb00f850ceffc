/**
 `update_checkboxes`: the regular-expression substitution that ticks every
 open list-item checkbox, and the before-minus-after count of open tokens.

 The substitution is modelled the way Python's `re.sub` runs the fixed pattern
 `(\s*[-*]\s+)\[ \]`: scan left to right, try a match at each position, copy
 the captured prefix followed by `[x]` on success and resume after the match,
 copy one character otherwise. The contract of `Sub` states that this scan
 computes the local rule `Markers.Tick`.
 */
module Checklist {
  import opened Wrappers
  import opened Markers

  /** The first position at or after `i` that is not whitespace (`|s|` if none): a greedy `\s*`. */
  function SkipSpace(s: string, i: nat): (j: nat)
    requires i <= |s|
    ensures i <= j <= |s|
    ensures forall m :: i <= m < j ==> IsSpace(s[m])
    ensures j < |s| ==> !IsSpace(s[j])
    decreases |s| - i
  {
    if i < |s| && IsSpace(s[i]) then SkipSpace(s, i + 1) else i
  }

  /**
   The pattern matches `s[pos..e]`: some whitespace, a bullet, at least one
   whitespace character, then `[ ]`.
   */
  ghost predicate RegexMatch(s: string, pos: int, e: int) {
    0 <= pos && pos + 4 <= e <= |s| && OpenAt(s, e - 3)
    && exists a :: pos <= a && a + 1 < e - 3 && SpaceRun(s, pos, a) && IsBullet(s[a]) && SpaceRun(s, a + 1, e - 3)
  }

  /**
   The end of the match that the regular-expression engine finds when it tries
   the pattern at `pos`, following its greedy choices for `\s*` and `\s+`.
   */
  function MatchAt(s: string, pos: nat): (r: Option<nat>)
    requires pos <= |s|
    ensures r.Some? ==> RegexMatch(s, pos, r.value)
  {
    var a := SkipSpace(s, pos);
    if a < |s| && IsBullet(s[a]) then
      var k := SkipSpace(s, a + 1);
      if a + 1 < k && OpenAt(s, k) then
        assert SpaceRun(s, pos, a) && SpaceRun(s, a + 1, k);
        Some(k + 3)
      else None
    else None
  }

  /** Where whitespace starting at `i` runs up to a non-whitespace character at `j`, the greedy skip stops at `j`. */
  lemma {:induction false} SkipSpaceStops(s: string, i: nat, j: nat)
    requires i <= j < |s|
    requires forall m :: i <= m < j ==> IsSpace(s[m])
    requires !IsSpace(s[j])
    ensures SkipSpace(s, i) == j
    decreases j - i
  {
    if i < j {
      SkipSpaceStops(s, i + 1, j);
    }
  }

  /**
   The engine's greedy attempt succeeds exactly when the pattern can match, so
   the pattern has at most one match at any position and backtracking order
   does not matter.
   */
  lemma MatchAtIsRegexMatch(s: string, pos: nat, e: int)
    requires pos <= |s|
    ensures MatchAt(s, pos) == Some(e) <==> RegexMatch(s, pos, e)
  {
    if RegexMatch(s, pos, e) {
      var a :| pos <= a && a + 1 < e - 3 && SpaceRun(s, pos, a) && IsBullet(s[a]) && SpaceRun(s, a + 1, e - 3);
      MatchAtComplete(s, pos, a, e);
    }
  }

  lemma MatchAtComplete(s: string, pos: nat, a: nat, e: int)
    requires pos <= a && a + 1 < e - 3 && e <= |s| && OpenAt(s, e - 3)
    requires SpaceRun(s, pos, a) && IsBullet(s[a]) && SpaceRun(s, a + 1, e - 3)
    ensures MatchAt(s, pos) == Some(e)
  {
    SkipSpaceStops(s, pos, a);
    SkipSpaceStops(s, a + 1, e - 3);
  }

  /** The text `re.sub` produces from position `pos` on. */
  function SubFrom(s: string, pos: nat): (r: string)
    requires pos <= |s|
    ensures |r| == |s| - pos
    decreases |s| - pos
  {
    if pos == |s| then []
    else match MatchAt(s, pos)
      case Some(e) => s[pos..e - 3] + "[x]" + SubFrom(s, e)
      case None => [s[pos]] + SubFrom(s, pos + 1)
  }

  /** `re.sub(r"(\s*[-*]\s+)\[ \]", <prefix + "[x]">, s)`. */
  function Sub(s: string): (r: string)
    ensures r == Tick(s)
  {
    SubFromIsTick(s, 0);
    SubFrom(s, 0)
  }

  /** The scan may resume at `pos`: `pos` is not strictly inside a list item between its bullet and its space. */
  ghost predicate Resumable(s: string, pos: int) {
    forall b, p :: BulletGap(s, b, p) && OpenAt(s, p) ==> !(b < pos <= p + 1)
  }

  /** The characters `Tick` leaves alone before a match, and the token it ticks. */
  lemma TickOnMatch(s: string, pos: nat, e: nat, a: int)
    requires pos <= a && a + 1 < e - 3 && e <= |s|
    requires SpaceRun(s, pos, a) && IsBullet(s[a]) && SpaceRun(s, a + 1, e - 3)
    requires OpenAt(s, e - 3)
    requires Resumable(s, pos)
    ensures Tick(s)[pos..e] == s[pos..e - 3] + "[x]"
    ensures Resumable(s, e)
  {
    var k := e - 3;
    var t := Tick(s);
    assert BulletGap(s, a, k);
    assert OpenItem(s, k);
    forall i | pos <= i < e
      ensures t[i] == (s[pos..k] + "[x]")[i - pos]
    {
      if i < k {
        if i == pos {
          assert !OpenItem(s, i - 1);
        } else {
          assert !OpenAt(s, i - 1);
        }
      } else if i == k {
        assert s[k - 1] != '[';
      } else if i == k + 2 {
        assert s[k + 1] != '[';
      }
    }
    forall b, p | BulletGap(s, b, p) && OpenAt(s, p)
      ensures !(b < e <= p + 1)
    {
      assert !IsSpace(s[k]);
      assert !IsBullet(s[k]) && !IsBullet(s[k + 1]) && !IsBullet(s[k + 2]);
    }
  }

  /** A step where the pattern does not match copies a character `Tick` leaves alone, and the scan may resume. */
  lemma StepWithoutMatch(s: string, pos: nat)
    requires pos < |s|
    requires MatchAt(s, pos).None?
    requires Resumable(s, pos)
    ensures Tick(s)[pos] == s[pos]
    ensures Resumable(s, pos + 1)
  {
    forall b, p | BulletGap(s, b, p) && OpenAt(s, p)
      ensures !(b < pos + 1 <= p + 1)
    {
      MatchAtBullet(s, b, p);
    }
    assert !OpenItem(s, pos - 1);
  }

  /** A step where the pattern matches emits what `Tick` makes of the matched text, and the scan may resume after it. */
  lemma StepWithMatch(s: string, pos: nat, e: nat)
    requires pos <= |s|
    requires MatchAt(s, pos) == Some(e)
    requires Resumable(s, pos)
    ensures Tick(s)[pos..e] == s[pos..e - 3] + "[x]"
    ensures Resumable(s, e)
  {
    MatchAtIsRegexMatch(s, pos, e);
    var a :| pos <= a && a + 1 < e - 3 && SpaceRun(s, pos, a) && IsBullet(s[a]) && SpaceRun(s, a + 1, e - 3);
    TickOnMatch(s, pos, e, a);
  }

  /** One step of the scan at a match. */
  lemma SubFromAtMatch(s: string, pos: nat, e: nat)
    requires pos < |s|
    requires MatchAt(s, pos) == Some(e)
    ensures SubFrom(s, pos) == s[pos..e - 3] + "[x]" + SubFrom(s, e)
  {
  }

  lemma SubFromMatchCase(s: string, pos: nat, e: nat, t: string)
    requires pos < |s| && e <= |t|
    requires MatchAt(s, pos) == Some(e)
    requires t[pos..e] == s[pos..e - 3] + "[x]"
    requires SubFrom(s, e) == t[e..]
    ensures SubFrom(s, pos) == t[pos..]
  {
    SubFromAtMatch(s, pos, e);
    SplitAt(t, pos, e);
  }

  lemma SplitAt(t: string, i: nat, j: nat)
    requires i <= j <= |t|
    ensures t[i..] == t[i..j] + t[j..]
  {
  }

  lemma SubFromNoMatchCase(s: string, pos: nat, t: string)
    requires pos < |s| && pos < |t|
    requires MatchAt(s, pos).None?
    requires t[pos] == s[pos]
    requires SubFrom(s, pos + 1) == t[pos + 1..]
    ensures SubFrom(s, pos) == t[pos..]
  {
    assert t[pos..] == [t[pos]] + t[pos + 1..];
  }

  /** From a resumable position, the substitution yields exactly the ticked text. */
  lemma {:induction false} SubFromIsTick(s: string, pos: nat)
    requires pos <= |s|
    requires Resumable(s, pos)
    ensures SubFrom(s, pos) == Tick(s)[pos..]
    decreases |s| - pos
  {
    if pos < |s| {
      var m := MatchAt(s, pos);
      if m.Some? {
        StepWithMatch(s, pos, m.value);
        SubFromIsTick(s, m.value);
        SubFromMatchCase(s, pos, m.value, Tick(s));
      } else {
        StepWithoutMatch(s, pos);
        SubFromIsTick(s, pos + 1);
        SubFromNoMatchCase(s, pos, Tick(s));
      }
    }
  }

  /** Tried at the bullet of a list item, the pattern matches up to the end of the item's token. */
  lemma MatchAtBullet(s: string, b: nat, p: int)
    requires BulletGap(s, b, p) && OpenAt(s, p)
    ensures MatchAt(s, b) == Some(p + 3)
  {
    SkipSpaceStops(s, b, b);
    SkipSpaceStops(s, b + 1, p);
  }

  /** `len(re.findall(r"\[ \]", s[pos..]))`: a left-to-right scan for non-overlapping tokens. */
  function FindAllFrom(s: string, pos: nat): nat
    decreases |s| - pos
  {
    if pos + 3 > |s| then 0
    else if OpenAt(s, pos) then 1 + FindAllFrom(s, pos + 3)
    else FindAllFrom(s, pos + 1)
  }

  /** `len(re.findall(r"\[ \]", s))`: the number of positions where `[ ]` starts. */
  function FindAll(s: string): (r: nat)
    ensures r == Count(Box, s, 0)
  {
    FindAllCountsBoxes(s, 0);
    FindAllFrom(s, 0)
  }

  /** Because tokens cannot overlap, the non-overlapping scan finds every open token. */
  lemma {:induction false} FindAllCountsBoxes(s: string, pos: nat)
    ensures FindAllFrom(s, pos) == Count(Box, s, pos)
    decreases |s| - pos
  {
    if pos + 3 > |s| {
      CountZero(Box, s, pos);
    } else if OpenAt(s, pos) {
      FindAllCountsBoxes(s, pos + 3);
      assert Count(Box, s, pos + 1) == Count(Box, s, pos + 2) == Count(Box, s, pos + 3);
    } else {
      FindAllCountsBoxes(s, pos + 1);
    }
  }

  /** The open tokens of the input are those of the ticked text plus the ticked ones. */
  lemma BoxesAfterTick(s: string)
    ensures Count(Box, s, 0) == Count(Box, Tick(s), 0) + Count(Unchecked, s, 0)
  {
    forall p | 0 <= p < |s|
      ensures Holds(Box, s, p) <==> Holds(Box, Tick(s), p) || Holds(Unchecked, s, p)
      ensures !(Holds(Box, Tick(s), p) && Holds(Unchecked, s, p))
    {
      TickTokens(s, p);
    }
    CountSum(Box, s, Box, Tick(s), Unchecked, s, 0);
  }

  /**
   `update_checkboxes`: the substituted text and the number of `[ ]` tokens
   it has fewer than the input. The text is the input with every open
   list-item token ticked, and the number is how many were ticked.
   */
  function UpdateCheckboxes(content: string): (r: (string, int))
    ensures r.0 == Tick(content)
    ensures r.1 == Count(Unchecked, content, 0)
  {
    var updated := Sub(content);
    BoxesAfterTick(content);
    (updated, FindAll(content) - FindAll(updated))
  }

  /**
   The output has the input's length and differs from it only where an open
   list-item token had its space replaced by `x`.
   */
  lemma UpdateChangesOnlyItemSpaces(s: string)
    ensures |UpdateCheckboxes(s).0| == |s|
    ensures forall i :: 0 <= i < |s| ==>
      (UpdateCheckboxes(s).0[i] != s[i] <==> OpenItem(s, i - 1))
    ensures forall i :: 0 <= i < |s| && UpdateCheckboxes(s).0[i] != s[i] ==>
      s[i] == ' ' && UpdateCheckboxes(s).0[i] == 'x'
  {
    forall i | 0 <= i < |s| {
      TickChanges(s, i);
    }
  }

  /**
   An open token becomes `[x]` exactly when a bullet and whitespace precede it;
   a bare `[ ]` stays open, and an existing `[x]` stays ticked.
   */
  lemma UpdateTicksExactlyListItems(s: string, p: int)
    requires OpenAt(s, p)
    ensures TickedAt(UpdateCheckboxes(s).0, p) <==> BulletBefore(s, p)
    ensures OpenAt(UpdateCheckboxes(s).0, p) <==> !BulletBefore(s, p)
  {
    TickTokens(s, p);
  }

  lemma UpdateKeepsTicked(s: string, p: int)
    requires TickedAt(s, p)
    ensures TickedAt(UpdateCheckboxes(s).0, p)
  {
    TickTokens(s, p);
  }

  /**
   The reported count, the open tokens before minus those after, is never
   negative and is the number of list-item tokens that were ticked.
   */
  lemma UpdateCountIsTicked(s: string)
    ensures UpdateCheckboxes(s).1 == FindAll(s) - FindAll(UpdateCheckboxes(s).0)
    ensures UpdateCheckboxes(s).1 == Count(Unchecked, s, 0) >= 0
    ensures UpdateCheckboxes(s).1 == Count(Checked, UpdateCheckboxes(s).0, 0) - Count(Checked, s, 0)
  {
    UpdateTallies(s);
  }

  /**
   After the update no open list item is left, and every list item that was
   open or ticked before is ticked.
   */
  lemma UpdateTallies(s: string)
    ensures Count(Unchecked, UpdateCheckboxes(s).0, 0) == 0
    ensures Count(Checked, UpdateCheckboxes(s).0, 0) == Count(Checked, s, 0) + Count(Unchecked, s, 0)
  {
    var t := Tick(s);
    forall p | 0 <= p < |s|
      ensures !Holds(Unchecked, t, p)
      ensures Holds(Checked, t, p) <==> Holds(Checked, s, p) || Holds(Unchecked, s, p)
      ensures !(Holds(Checked, s, p) && Holds(Unchecked, s, p))
    {
      TickTokens(s, p);
    }
    CountZero(Unchecked, t, 0);
    CountSum(Checked, t, Checked, s, Unchecked, s, 0);
  }

  /** Text without an open list item comes back unchanged, with count 0, and only such text does. */
  lemma UpdateNoItems(s: string)
    ensures UpdateCheckboxes(s) == (s, 0) <==> forall p :: 0 <= p < |s| ==> !OpenItem(s, p)
  {
    CountZero(Unchecked, s, 0);
    UpdateChangesOnlyItemSpaces(s);
    if forall p :: 0 <= p < |s| ==> !OpenItem(s, p) {
      assert UpdateCheckboxes(s).0 == s;
    }
  }

  lemma UpdateEmpty()
    ensures UpdateCheckboxes("") == ("", 0)
  {
    UpdateNoItems("");
  }

  /** Updating an updated text changes nothing and reports 0. */
  lemma UpdateIdempotent(s: string)
    ensures UpdateCheckboxes(UpdateCheckboxes(s).0) == (UpdateCheckboxes(s).0, 0)
  {
    var t := UpdateCheckboxes(s).0;
    forall p | 0 <= p < |t|
      ensures !OpenItem(t, p)
    {
      TickTokens(s, p);
    }
    UpdateNoItems(t);
  }

  /** Python's `\s` includes the newline, so a bullet at the end of one line ticks a box opening the next. */
  lemma ExampleNewlineGap()
    ensures UpdateCheckboxes("-\n[ ]") == ("-\n[x]", 1)
  {
    var s := "-\n[ ]";
    assert BulletGap(s, 0, 2);
    assert !OpenAt(s, 0) && !OpenAt(s, 1) && !OpenAt(s, 3) && !OpenAt(s, 4);
    assert Tick(s) == "-\n[x]";
    assert Count(Unchecked, s, 3) == 0;
    assert Count(Unchecked, s, 2) == 1;
  }

  /** A box after a word is not a list item and stays open. */
  lemma ExampleBareBox()
    ensures UpdateCheckboxes("a [ ]") == ("a [ ]", 0)
  {
    var s := "a [ ]";
    assert !BulletBefore(s, 2);
    assert !OpenAt(s, 0) && !OpenAt(s, 1) && !OpenAt(s, 3) && !OpenAt(s, 4);
    UpdateNoItems(s);
  }

  /** A bullet needs at least one whitespace character before the box. */
  lemma ExampleNoGap()
    ensures UpdateCheckboxes("-[ ]") == ("-[ ]", 0)
  {
    var s := "-[ ]";
    assert !BulletBefore(s, 1);
    assert !OpenAt(s, 0) && !OpenAt(s, 2) && !OpenAt(s, 3);
    UpdateNoItems(s);
  }

  /** The bullet need not start a line: a `- [ ]` after a word is ticked too. */
  lemma ExampleMidLine()
    ensures UpdateCheckboxes("a - [ ]") == ("a - [x]", 1)
  {
    var s := "a - [ ]";
    assert BulletGap(s, 2, 4);
    assert !OpenAt(s, 0) && !OpenAt(s, 1) && !OpenAt(s, 2) && !OpenAt(s, 3) && !OpenAt(s, 5) && !OpenAt(s, 6);
    assert Tick(s) == "a - [x]";
    assert Count(Unchecked, s, 5) == 0;
    assert Count(Unchecked, s, 4) == 1;
  }

  // ---------------------------------------------------------------------------
  // A three-item checklist

  /** A list line: a bullet, a space, a token with `box` inside, then the rest of the line. */
  function ItemLine(bullet: char, box: char, rest: string): string {
    [bullet, ' ', '[', box, ']'] + rest
  }

  /** A single list line with `[ ]` or `[x]` comes out ticked; only `[ ]` counts. */
  lemma ItemLineTick(bullet: char, box: char, rest: string)
    requires IsBullet(bullet) && (box == ' ' || box == 'x') && '[' !in rest
    ensures Tick(ItemLine(bullet, box, rest)) == ItemLine(bullet, 'x', rest)
    ensures Count(Unchecked, ItemLine(bullet, box, rest), 0) == if box == ' ' then 1 else 0
  {
    var s := ItemLine(bullet, box, rest);
    assert forall m :: 5 <= m < |s| ==> s[m] == rest[m - 5];
    forall p | 0 <= p < |s| && p != 2
      ensures !OpenAt(s, p)
    {
      if 5 <= p { assert s[p] in rest; }
    }
    assert BulletGap(s, 0, 2);
    assert OpenAt(s, 2) <==> box == ' ';
    forall i | 0 <= i < |s|
      ensures Tick(s)[i] == ItemLine(bullet, 'x', rest)[i]
    {
      if i != 3 { assert !OpenItem(s, i - 1); }
    }
    CountZero(Unchecked, s, 3);
    assert Count(Unchecked, s, 1) == Count(Unchecked, s, 2);
  }

  /** Three list lines ending in newlines are updated line by line. */
  lemma ThreeLines(c1: char, b1: char, r1: string, c2: char, b2: char, r2: string,
                   c3: char, b3: char, r3: string)
    requires IsBullet(c1) && IsBullet(c2) && IsBullet(c3)
    requires (b1 == ' ' || b1 == 'x') && (b2 == ' ' || b2 == 'x') && (b3 == ' ' || b3 == 'x')
    requires '[' !in r1 && '[' !in r2 && '[' !in r3
    requires 0 < |r1| && r1[|r1| - 1] == '\n' && 0 < |r2| && r2[|r2| - 1] == '\n'
    ensures var s := ItemLine(c1, b1, r1) + ItemLine(c2, b2, r2) + ItemLine(c3, b3, r3);
      && Tick(s) == ItemLine(c1, 'x', r1) + ItemLine(c2, 'x', r2) + ItemLine(c3, 'x', r3)
      && Count(Unchecked, s, 0)
         == (if b1 == ' ' then 1 else 0) + (if b2 == ' ' then 1 else 0) + (if b3 == ' ' then 1 else 0)
  {
    var l1, l2, l3 := ItemLine(c1, b1, r1), ItemLine(c2, b2, r2), ItemLine(c3, b3, r3);
    ItemLineTick(c1, b1, r1);
    ItemLineTick(c2, b2, r2);
    ItemLineTick(c3, b3, r3);
    assert l1[|l1| - 1] == '\n' && l2[|l2| - 1] == '\n';
    TickCut(l1, l2);
    CountCut(Unchecked, l1, l2);
    assert (l1 + l2)[|l1 + l2| - 1] == '\n';
    TickCut(l1 + l2, l3);
    CountCut(Unchecked, l1 + l2, l3);
  }

  // The literal texts of the example, cut into the lines `ThreeLines` speaks of.
  // Each equality between literals sits in a lemma of its own so that every
  // proof stays small; stated together they exceed the solver's budget.

  lemma LineOne()
    ensures "- [ ] task one\n" == ItemLine('-', ' ', " task one\n")
    ensures "- [x] task one\n" == ItemLine('-', 'x', " task one\n")
  {
  }

  lemma LineTwo()
    ensures "* [ ] task two\n" == ItemLine('*', ' ', " task two\n")
    ensures "* [x] task two\n" == ItemLine('*', 'x', " task two\n")
  {
  }

  lemma LineThree()
    ensures "- [x] task three\n" == ItemLine('-', 'x', " task three\n")
  {
  }

  lemma ThreeItemsInput()
    ensures "- [ ] task one\n* [ ] task two\n- [x] task three\n"
         == "- [ ] task one\n" + "* [ ] task two\n" + "- [x] task three\n"
  {
  }

  lemma ThreeItemsOutput()
    ensures "- [x] task one\n* [x] task two\n- [x] task three\n"
         == "- [x] task one\n" + "* [x] task two\n" + "- [x] task three\n"
  {
  }

  /** Two open items and one ticked item: both open ones are ticked and the count is 2. */
  lemma ExampleThreeItems()
    ensures UpdateCheckboxes("- [ ] task one\n* [ ] task two\n- [x] task three\n")
         == ("- [x] task one\n* [x] task two\n- [x] task three\n", 2)
  {
    ThreeLines('-', ' ', " task one\n", '*', ' ', " task two\n", '-', 'x', " task three\n");
    LineOne();
    LineTwo();
    LineThree();
    ThreeItemsInput();
    ThreeItemsOutput();
  }
}
