/** The line scans shared by SyntaxDocumentTool and JavaCodeAdapter: the backward scan to a
    line's first character, the forward scan to its last, and the backward count of the
    tabs and spaces that indent a line. Each loop is written as the source runs it, and
    a lemma ties it to a declarative description. */
module Lines {

  // ---------------------------------------------------------------------------------------
  // Line bounds

  /** The backward scan of lineBegin: from `index` down to 0, the position just after the
      first '\n' met, or 0 when there is none. */
  function ScanBack(t: string, index: int): (r: nat)
    requires index < |t|
    ensures r <= index + 1 || (index < 0 && r == 0)
    ensures r == 0 || t[r - 1] == '\n'
    ensures forall k :: r <= k <= index ==> t[k] != '\n'
    decreases index + 1
  {
    if index < 0 then 0
    else if t[index] == '\n' then index + 1
    else ScanBack(t, index - 1)
  }

  /** The forward scan of lineEnd: from `index` up, the position just before the first '\n'
      met, or the last position of the text when there is none. */
  function ScanForward(t: string, index: nat): (r: int)
    requires index <= |t|
    ensures index - 1 <= r < |t|
    ensures forall k :: index <= k <= r ==> t[k] != '\n'
    ensures r + 1 == |t| || t[r + 1] == '\n'
    decreases |t| - index
  {
    if index == |t| then |t| - 1
    else if t[index] == '\n' then index - 1
    else ScanForward(t, index + 1)
  }

  /** The first character of the line holding position `index`, described without a scan:
      0 or just after a '\n', with no '\n' from there up to `index`. */
  predicate IsLineStart(t: string, index: int, b: int)
    requires -1 <= index < |t|
  {
    && 0 <= b <= index + 1
    && (b == 0 || t[b - 1] == '\n')
    && forall k :: b <= k <= index ==> t[k] != '\n'
  }

  /** The backward scan finds the one and only start of the line. */
  lemma ScanBackIsLineStart(t: string, index: int, b: int)
    requires -1 <= index < |t|
    ensures IsLineStart(t, index, ScanBack(t, index))
    ensures IsLineStart(t, index, b) <==> b == ScanBack(t, index)
  {
    var r := ScanBack(t, index);
    if IsLineStart(t, index, b) {
      if b > 0 {
        assert t[b - 1] == '\n';
      }
      if r > 0 {
        assert t[r - 1] == '\n';
      }
    }
  }

  /** The last character of a line whose scan starts at `index`, described without a scan:
      the end of the text or just before a '\n', with no '\n' from `index` up to it. */
  predicate IsLineEnd(t: string, index: int, e: int)
    requires 0 <= index <= |t|
  {
    && index - 1 <= e < |t|
    && (e + 1 == |t| || t[e + 1] == '\n')
    && forall k :: index <= k <= e ==> t[k] != '\n'
  }

  /** The forward scan finds the one and only end of the line. */
  lemma ScanForwardIsLineEnd(t: string, index: nat, e: int)
    requires index <= |t|
    ensures IsLineEnd(t, index, ScanForward(t, index))
    ensures IsLineEnd(t, index, e) <==> e == ScanForward(t, index)
  {
    var r := ScanForward(t, index);
    if IsLineEnd(t, index, e) {
      if e + 1 < |t| {
        assert t[e + 1] == '\n';
      }
      if r + 1 < |t| {
        assert t[r + 1] == '\n';
      }
    }
  }

  /** Two scan positions lie on the same line exactly when no '\n' separates them. */
  lemma {:induction false} SameLineIff(t: string, i: int, j: int)
    requires -1 <= i <= j < |t|
    ensures ScanBack(t, i) == ScanBack(t, j) <==> forall k :: i < k <= j ==> t[k] != '\n'
    decreases j - i
  {
    if i < j {
      SameLineIff(t, i, j - 1);
      if t[j] == '\n' {
        assert ScanBack(t, j) == j + 1;
      } else {
        assert ScanBack(t, j) == ScanBack(t, j - 1);
      }
    }
  }

  // ---------------------------------------------------------------------------------------
  // Indentation

  predicate IsBlank(c: char) {
    c == '\t' || c == ' '
  }

  /** The length of the run of tabs and spaces that `s` starts with. */
  function BlankRun(s: string): (n: nat)
    ensures n <= |s|
    ensures forall k :: 0 <= k < n ==> IsBlank(s[k])
    ensures n == |s| || !IsBlank(s[n])
  {
    if |s| == 0 || !IsBlank(s[0]) then 0
    else
      var n := 1 + BlankRun(s[1..]);
      assert forall k :: 1 <= k < n ==> s[k] == s[1..][k - 1];
      n
  }

  /** The run is the only prefix of blanks that is followed by a non-blank or the end. */
  lemma BlankRunUnique(s: string, m: nat)
    requires m <= |s|
    requires forall k :: 0 <= k < m ==> IsBlank(s[k])
    requires m == |s| || !IsBlank(s[m])
    ensures BlankRun(s) == m
  {
    var n := BlankRun(s);
    if n < |s| {
      assert !IsBlank(s[n]);
    }
    if m < |s| {
      assert !IsBlank(s[m]);
    }
  }

  /** The backward loop of countFrontTab and countPrefixTabs: walking from `index` towards
      the start of its line, count tabs and spaces and start both counts again at every
      other character. */
  function BlankLoop(t: string, index: int, tabs: nat, spaces: nat): (nat, nat)
    requires index < |t|
    decreases index + 1
  {
    if index >= 0 && t[index] != '\n' then
      if t[index] == '\t' || t[index] == ' ' then
        if t[index] == '\t' then BlankLoop(t, index - 1, tabs + 1, spaces)
        else BlankLoop(t, index - 1, tabs, spaces + 1)
      else BlankLoop(t, index - 1, 0, 0)
    else (tabs, spaces)
  }

  /** The part of `index`'s line up to and including `index`. */
  function Segment(t: string, index: int): (s: string)
    requires -1 <= index < |t|
    ensures |s| == index + 1 - ScanBack(t, index)
  {
    t[ScanBack(t, index)..index + 1]
  }

  /** The counts the loop ends with, when it starts with `tabs` and `spaces` already
      counted to the right of `index`. */
  function LoopResult(s: string, tabs: nat, spaces: nat): (nat, nat) {
    var run := BlankRun(s);
    if run == |s| then (tabs + multiset(s)['\t'], spaces + multiset(s)[' '])
    else (multiset(s[..run])['\t'], multiset(s[..run])[' '])
  }

  /** One more character on the right of the segment is one more step of the loop. */
  lemma LoopResultStep(s: string, c: char, tabs: nat, spaces: nat)
    ensures c == '\t' ==> LoopResult(s + [c], tabs, spaces) == LoopResult(s, tabs + 1, spaces)
    ensures c == ' ' ==> LoopResult(s + [c], tabs, spaces) == LoopResult(s, tabs, spaces + 1)
    ensures !IsBlank(c) ==> LoopResult(s + [c], tabs, spaces) == LoopResult(s, 0, 0)
  {
    var s2 := s + [c];
    var run := BlankRun(s);
    assert s2[..|s|] == s;
    if run < |s| {
      BlankRunUnique(s2, run);
      assert s2[..run] == s[..run];
    } else if IsBlank(c) {
      BlankRunUnique(s2, |s2|);
      assert multiset(s2) == multiset(s) + multiset{c};
    } else {
      BlankRunUnique(s2, |s|);
      assert s2[..run] == s && s[..|s|] == s;
    }
  }

  /** A character other than '\n' extends the segment that ends before it. */
  lemma SegmentStep(t: string, index: nat)
    requires index < |t| && t[index] != '\n'
    ensures Segment(t, index) == Segment(t, index - 1) + [t[index]]
  {
    assert ScanBack(t, index) == ScanBack(t, index - 1);
  }

  lemma {:induction false} BlankLoopCounts(t: string, index: int, tabs: nat, spaces: nat)
    requires -1 <= index < |t|
    ensures BlankLoop(t, index, tabs, spaces) == LoopResult(Segment(t, index), tabs, spaces)
    decreases index + 1
  {
    if index >= 0 && t[index] != '\n' {
      var before := Segment(t, index - 1);
      SegmentStep(t, index);
      LoopResultStep(before, t[index], tabs, spaces);
      if t[index] == '\t' {
        BlankLoopCounts(t, index - 1, tabs + 1, spaces);
        assert BlankLoop(t, index, tabs, spaces) == LoopResult(before, tabs + 1, spaces);
      } else if t[index] == ' ' {
        BlankLoopCounts(t, index - 1, tabs, spaces + 1);
        assert BlankLoop(t, index, tabs, spaces) == LoopResult(before, tabs, spaces + 1);
      } else {
        BlankLoopCounts(t, index - 1, 0, 0);
        assert BlankLoop(t, index, tabs, spaces) == LoopResult(before, 0, 0);
      }
    } else {
      assert Segment(t, index) == [];
      assert LoopResult([], tabs, spaces) == (tabs, spaces);
    }
  }

  /** What the loop computes from scratch: the tabs and the spaces in the run of blanks
      that starts the line, up to `index`. */
  lemma IndentCounts(t: string, index: int)
    requires -1 <= index < |t|
    ensures var s := Segment(t, index);
            var run := s[..BlankRun(s)];
            && BlankLoop(t, index, 0, 0) == (multiset(run)['\t'], multiset(run)[' '])
            && multiset(run)['\t'] + multiset(run)[' '] == |run|
  {
    BlankLoopCounts(t, index, 0, 0);
    var s := Segment(t, index);
    var run := s[..BlankRun(s)];
    assert s[..|s|] == s;
    BlankMultiset(run);
  }

  /** A string of blanks holds only tabs and spaces. */
  lemma {:induction false} BlankMultiset(s: string)
    requires forall k :: 0 <= k < |s| ==> IsBlank(s[k])
    ensures multiset(s)['\t'] + multiset(s)[' '] == |s|
  {
    if |s| > 0 {
      var init := s[..|s| - 1];
      assert s == init + [s[|s| - 1]];
      BlankMultiset(init);
    }
  }

  /** The indentation width of `tabs` tabs and `spaces` spaces: a tab is one level, four
      spaces are one level, and a partial group of spaces counts as a whole level. */
  function TabWidth(tabs: nat, spaces: nat): (r: nat)
    ensures tabs <= r
    ensures 4 * (r - tabs) - 4 < spaces <= 4 * (r - tabs)
    ensures r == 0 <==> tabs == 0 && spaces == 0
  {
    tabs + spaces / 4 + (if spaces % 4 != 0 then 1 else 0)
  }
}
