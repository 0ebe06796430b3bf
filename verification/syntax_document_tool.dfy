/** SyntaxDocumentTool: line queries on the editor's text and the indentation edits built on
    them. Positions are caret positions, in the gaps between characters. Text queries take the
    text itself; the edits take the StyledTextBody and go through its history. */
module SyntaxDocumentTool {
  import opened Results
  import opened Notify
  import Lines
  import S = StyledTextBody

  /** The character index both scans start from: a caret at the very end reads the last
      character, and a caret just before a '\n' belongs to the line that '\n' ends. */
  function ScanStart(t: string, p: int): (i: int)
    requires 0 <= p <= |t| && |t| > 0
    ensures -1 <= i < |t| && i <= p
    ensures p < |t| && t[p] != '\n' ==> i == p
  {
    var q := if p == |t| then p - 1 else p;
    if t[q] == '\n' then q - 1 else q
  }

  /** lineBegin(p): the first index of the line holding caret `p`. */
  function LineBegin(t: string, p: int): (r: Result<nat>)
    ensures !(0 <= p <= |t|) ==> r == Err(Syntax)
    ensures 0 <= p <= |t| && |t| == 0 ==> r == Err(ArrayIndexOutOfBounds)
    ensures r.Ok? <==> 0 <= p <= |t| && |t| > 0
    ensures r.Ok? ==> Lines.IsLineStart(t, ScanStart(t, p), r.value)
  {
    if p > |t| || p < 0 then Err(Syntax)
    else if |t| == 0 then Err(ArrayIndexOutOfBounds)
    else
      var i := ScanStart(t, p);
      Lines.ScanBackIsLineStart(t, i, 0);
      Ok(Lines.ScanBack(t, i))
  }

  /** lineEnd(p) as written: the forward scan starts at the same index as lineBegin's, so a
      caret on an empty line starts on the '\n' before it. */
  function LineEnd(t: string, p: int): (r: Result<int>)
    ensures !(0 <= p <= |t|) ==> r == Err(Syntax)
    ensures 0 <= p <= |t| && |t| == 0 ==> r == Err(ArrayIndexOutOfBounds)
    ensures r.Ok? <==> 0 <= p <= |t| && |t| > 0 && ScanStart(t, p) >= 0
    ensures r.Ok? ==> var i := ScanStart(t, p);
                      && i - 1 <= r.value < |t|
                      && (forall k :: i <= k <= r.value ==> t[k] != '\n')
                      && (r.value + 1 == |t| || t[r.value + 1] == '\n')
  {
    if p > |t| || p < 0 then Err(Syntax)
    else if |t| == 0 then Err(ArrayIndexOutOfBounds)
    else
      var i := ScanStart(t, p);
      if i < 0 then Err(ArrayIndexOutOfBounds)
      else Ok(Lines.ScanForward(t, i))
  }

  /** lineEnd on a line that is empty: the result is the end of the line two lines up, or
      an exception on the first line. */
  lemma LineEndOnEmptyLine()
    ensures LineBegin("ab\n\ncd", 3) == Ok(3)
    ensures LineEnd("ab\n\ncd", 3) == Ok(1)
    ensures LineBegin("\nab", 0) == Ok(0)
    ensures LineEnd("\nab", 0) == Err(ArrayIndexOutOfBounds)
  {
    assert Lines.ScanForward("ab\n\ncd", 2) == 1;
  }

  /** lineEnd as its documentation describes it: the last index of the line that
      lineBegin finds, or one before it when that line is empty. */
  function LineEndOfLine(t: string, p: int): (r: Result<int>)
    ensures r.Ok? <==> LineBegin(t, p).Ok?
    ensures r.Ok? ==> var b := LineBegin(t, p).value;
                      && b - 1 <= r.value < |t|
                      && (forall k :: b <= k <= r.value ==> t[k] != '\n')
                      && (r.value + 1 == |t| || t[r.value + 1] == '\n')
  {
    var b :- LineBegin(t, p);
    Ok(Lines.ScanForward(t, b))
  }

  /** On a line that holds the scan start, the two agree. */
  lemma LineEndAgrees(t: string, p: int)
    requires LineEnd(t, p).Ok? && t[ScanStart(t, p)] != '\n'
    ensures LineEndOfLine(t, p) == LineEnd(t, p)
  {
    var i := ScanStart(t, p);
    var b := LineBegin(t, p).value;
    ForwardFromLineStart(t, b, i);
  }

  /** Scanning forward from any index of a line up to a '\n' finds the same end. */
  lemma {:induction false} ForwardFromLineStart(t: string, b: nat, i: nat)
    requires b <= i < |t|
    requires forall k :: b <= k <= i ==> t[k] != '\n'
    ensures Lines.ScanForward(t, b) == Lines.ScanForward(t, i)
    decreases i - b
  {
    if b < i {
      ForwardFromLineStart(t, b + 1, i);
    }
  }

  /** inSameLine(p0, p1). */
  function InSameLine(t: string, p0: int, p1: int): (r: Result<bool>)
    ensures r.Ok? <==> LineBegin(t, p0).Ok? && LineBegin(t, p1).Ok?
    ensures r.Ok? ==> r.value == (LineBegin(t, p0).value == LineBegin(t, p1).value)
  {
    var b0 :- LineBegin(t, p0);
    var b1 :- LineBegin(t, p1);
    Ok(b0 == b1)
  }

  /** Two carets are in the same line exactly when no '\n' lies between the characters
      the scans start from. */
  lemma InSameLineIff(t: string, p0: int, p1: int)
    requires 0 <= p0 <= |t| && 0 <= p1 <= |t| && |t| > 0
    ensures InSameLine(t, p0, p1).Ok?
    ensures var i, j := ScanStart(t, p0), ScanStart(t, p1);
            InSameLine(t, p0, p1).value <==> forall k :: (i < k <= j || j < k <= i) ==> t[k] != '\n'
  {
    var i, j := ScanStart(t, p0), ScanStart(t, p1);
    if i <= j {
      Lines.SameLineIff(t, i, j);
    } else {
      Lines.SameLineIff(t, j, i);
    }
  }

  /** countFrontTab(p): (indentation width, tabs, spaces) of the blanks that start the line
      of character `p`, counting only blanks at or before `p`. */
  function CountFrontTab(t: string, p: int): (r: Result<(nat, nat, nat)>)
    ensures r.Ok? <==> 0 <= p < |t|
    ensures !r.Ok? ==> r == Err(Syntax)
    ensures r.Ok? ==> var s := Lines.Segment(t, p);
                      var run := s[..Lines.BlankRun(s)];
                      && r.value.1 == multiset(run)['\t']
                      && r.value.2 == multiset(run)[' ']
                      && r.value.0 == Lines.TabWidth(r.value.1, r.value.2)
    ensures r.Ok? && t[p] == '\n' ==> r.value == (0, 0, 0)
  {
    if p >= |t| || p < 0 then Err(Syntax)
    else
      var (tabs, spaces) := Lines.BlankLoop(t, p, 0, 0);
      Lines.IndentCounts(t, p);
      Ok((Lines.TabWidth(tabs, spaces), tabs, spaces))
  }

  /** The loop `while (txt[begin] != '\t') begin++`. */
  function FirstTabFrom(t: string, i: nat): (r: Result<nat>)
    ensures r.Ok? <==> exists k :: i <= k < |t| && t[k] == '\t'
    ensures r.Ok? ==> && i <= r.value < |t| && t[r.value] == '\t'
                      && forall k :: i <= k < r.value ==> t[k] != '\t'
    decreases |t| - i
  {
    if i >= |t| then Err(ArrayIndexOutOfBounds)
    else if t[i] == '\t' then Ok(i)
    else FirstTabFrom(t, i + 1)
  }

  /** addFrontTab(p): a styled "\t" at the start of the line of caret `p`. */
  function AddFrontTab(sb: S.StyledBody, p: int, attributeSet: Option<Attr>): (r: Result<S.StyledBody>)
    ensures r.Ok? <==> LineBegin(S.Text(sb), p).Ok?
    ensures r.Ok? ==> var t, b := S.Text(sb), LineBegin(S.Text(sb), p).value;
                      S.Text(r.value) == t[..b] + "\t" + t[b..]
  {
    var b :- LineBegin(S.Text(sb), p);
    S.InsertStyledText(sb, b, "\t", attributeSet)
  }

  function Min(a: int, b: int): int {
    if a < b then a else b
  }

  /** A tab counted in the run is found by the scan from the line start, at or before `p`. */
  lemma CountedTabIsFound(t: string, p: int, run: string)
    requires 0 <= p < |t|
    requires |run| <= |Lines.Segment(t, p)| && run == Lines.Segment(t, p)[..|run|]
    requires multiset(run)['\t'] > 0
    ensures FirstTabFrom(t, Lines.ScanBack(t, p)).Ok? && FirstTabFrom(t, Lines.ScanBack(t, p)).value <= p
  {
    var b := Lines.ScanBack(t, p);
    assert '\t' in multiset(run);
    var j :| 0 <= j < |run| && run[j] == '\t';
    assert Lines.Segment(t, p) == t[b..p + 1];
    assert run[j] == t[b + j];
  }

  /** Counted spaces with no counted tab are the first characters of the line. */
  lemma CountedSpacesLead(t: string, p: int, run: string)
    requires 0 <= p < |t|
    requires |run| <= |Lines.Segment(t, p)| && run == Lines.Segment(t, p)[..|run|]
    requires multiset(run)['\t'] == 0
    requires forall k :: 0 <= k < |run| ==> Lines.IsBlank(run[k])
    ensures var b := Lines.ScanBack(t, p);
            forall k :: b <= k < b + |run| ==> t[k] == ' '
  {
    var b := Lines.ScanBack(t, p);
    assert Lines.Segment(t, p) == t[b..p + 1];
    forall k | b <= k < b + |run|
      ensures t[k] == ' '
    {
      assert run[k - b] == t[k];
      assert run[k - b] in multiset(run);
    }
  }

  /** What countFrontTab reports about an indented line: the caret is not on its '\n', the
      line starts where lineBegin says, a counted tab is there to be found, and counted
      spaces with no tab are the line's first characters. */
  lemma IndentedLine(t: string, p: int)
    requires 0 <= p < |t| && CountFrontTab(t, p).Ok? && CountFrontTab(t, p).value.0 != 0
    ensures t[p] != '\n'
    ensures LineBegin(t, p) == Ok(Lines.ScanBack(t, p))
    ensures var c := CountFrontTab(t, p).value;
            var b := Lines.ScanBack(t, p);
            && (c.1 != 0 ==> FirstTabFrom(t, b).Ok? && FirstTabFrom(t, b).value <= p)
            && (c.1 == 0 ==> b + c.2 <= p + 1 && forall k :: b <= k < b + c.2 ==> t[k] == ' ')
  {
    LineBeginAtCharacter(t, p);
    if CountFrontTab(t, p).value.1 != 0 {
      CountedTabs(t, p);
    } else {
      CountedSpaces(t, p);
    }
  }

  /** A caret on a character other than '\n' scans back from that character. */
  lemma LineBeginAtCharacter(t: string, p: int)
    requires 0 <= p < |t| && t[p] != '\n'
    ensures LineBegin(t, p) == Ok(Lines.ScanBack(t, p))
  {
    Lines.ScanBackIsLineStart(t, p, LineBegin(t, p).value);
  }

  lemma CountedTabs(t: string, p: int)
    requires 0 <= p < |t| && CountFrontTab(t, p).Ok? && CountFrontTab(t, p).value.1 != 0
    ensures FirstTabFrom(t, Lines.ScanBack(t, p)).Ok? && FirstTabFrom(t, Lines.ScanBack(t, p)).value <= p
  {
    var s := Lines.Segment(t, p);
    CountedTabIsFound(t, p, s[..Lines.BlankRun(s)]);
  }

  lemma CountedSpaces(t: string, p: int)
    requires 0 <= p < |t| && CountFrontTab(t, p).Ok? && CountFrontTab(t, p).value.1 == 0
    ensures var b, n := Lines.ScanBack(t, p), CountFrontTab(t, p).value.2;
            b + n <= p + 1 && forall k :: b <= k < b + n ==> t[k] == ' '
  {
    var s := Lines.Segment(t, p);
    var run := s[..Lines.BlankRun(s)];
    Lines.IndentCounts(t, p);
    CountedSpacesLead(t, p, run);
  }

  /** The characters removeFrontTab(p) deletes, as (start, length): the first tab of the
      line when tabs were counted, otherwise up to four of its leading spaces; None when
      the line of `p` has no indentation up to `p`. */
  function FrontTabRange(t: string, p: int): (r: Result<Option<(nat, nat)>>)
    ensures r.Ok? <==> 0 <= p < |t|
    ensures !r.Ok? ==> r == Err(if p == 0 && |t| == 0 then ArrayIndexOutOfBounds else Syntax)
    ensures r.Ok? ==> (r.value.Some? <==> CountFrontTab(t, p).value.0 != 0)
    ensures r.Ok? && r.value.Some? ==> r.value.value.0 + r.value.value.1 <= |t|
  {
    var begin :- LineBegin(t, p);
    var (width, tabs, spaces) :- CountFrontTab(t, p);
    if width == 0 then Ok(None)
    else
      IndentedLine(t, p);
      // the scan finds a tab and both ranges lie in the text, so nothing throws
      if tabs != 0 then Ok(Some((FirstTabFrom(t, begin).value, 1)))
      else Ok(Some((begin, Min(4, spaces))))
  }

  /** What removeFrontTab deletes: the first tab of the line, at or before `p`, when tabs
      were counted; otherwise the first min(4, spaces) characters of the line, all spaces. */
  lemma FrontTabRangeEffect(t: string, p: int)
    requires FrontTabRange(t, p).Ok? && FrontTabRange(t, p).value.Some?
    ensures var (start, length) := FrontTabRange(t, p).value.value;
            var b := LineBegin(t, p).value;
            var c := CountFrontTab(t, p).value;
            if c.1 != 0 then
              && FirstTabFrom(t, b).Ok? && start == FirstTabFrom(t, b).value && length == 1
              && b <= start <= p && t[start] == '\t'
            else
              && start == b && length == Min(4, c.2)
              && 0 < length <= p + 1 - b
              && forall k :: b <= k < b + length ==> t[k] == ' '
  {
    IndentedLine(t, p);
  }

  /** removeFrontTab(p): false when the line of `p` has no indentation up to `p`; otherwise
      true, with the range FrontTabRange finds removed through the styled history. */
  function RemoveFrontTab(sb: S.StyledBody, p: int): (r: Result<(bool, S.StyledBody)>)
    ensures r.Ok? <==> 0 <= p < |S.Text(sb)|
    ensures !r.Ok? ==> r == Err(if p == 0 && |S.Text(sb)| == 0 then ArrayIndexOutOfBounds else Syntax)
    ensures r.Ok? ==> (r.value.0 <==> CountFrontTab(S.Text(sb), p).value.0 != 0)
    ensures r.Ok? && !r.value.0 ==> r.value.1 == sb
  {
    var range :- FrontTabRange(S.Text(sb), p);
    match range
    case None => Ok((false, sb))
    case Some((start, length)) => Ok((true, S.RemoveStyledText(sb, start, length).value))
  }

  /** removeFrontTab deletes exactly the range FrontTabRange finds, and keeps the rest. */
  lemma RemoveFrontTabEffect(sb: S.StyledBody, p: int)
    requires RemoveFrontTab(sb, p).Ok? && RemoveFrontTab(sb, p).value.0
    ensures var t := S.Text(sb);
            var (start, length) := FrontTabRange(t, p).value.value;
            S.Text(RemoveFrontTab(sb, p).value.1) == t[..start] + t[start + length..]
  {
  }

  /** A tab put at the start of the line of character `p` leaves that character, now at
      p + 1, on a line with the same start. */
  lemma TabKeepsLineStart(t: string, p: int, b: nat)
    requires 0 <= p < |t| && t[p] != '\n' && b == Lines.ScanBack(t, p)
    ensures var t' := t[..b] + "\t" + t[b..];
            && t'[p + 1] != '\n'
            && Lines.ScanBack(t', p + 1) == b
            && LineBegin(t', p + 1) == Ok(b)
  {
    var t' := t[..b] + "\t" + t[b..];
    TabInserted(t, b);
    assert Lines.IsLineStart(t', p + 1, b) by {
      forall k | b <= k <= p + 1
        ensures t'[k] != '\n'
      {
        if k > b {
          assert t'[k] == t[k - 1];
        }
      }
    }
    Lines.ScanBackIsLineStart(t', p + 1, b);
    LineBeginAtCharacter(t', p + 1);
  }

  /** Where the characters of `t` are after a tab is inserted at `b`. */
  lemma TabInserted(t: string, b: nat)
    requires b <= |t|
    ensures var t' := t[..b] + "\t" + t[b..];
            && |t'| == |t| + 1 && t'[b] == '\t'
            && (forall k :: 0 <= k < b ==> t'[k] == t[k])
            && (forall k :: b < k <= |t| ==> t'[k] == t[k - 1])
  {
  }

  /** On a line that starts with a tab, countFrontTab counts a tab and the scan for the
      first tab stops at the line start. */
  lemma LeadingTabCounted(t: string, p: int, b: nat)
    requires 0 <= p < |t| && b <= p && Lines.ScanBack(t, p) == b && t[b] == '\t'
    ensures CountFrontTab(t, p).Ok? && CountFrontTab(t, p).value.1 != 0
    ensures FirstTabFrom(t, b) == Ok(b)
  {
    var seg := Lines.Segment(t, p);
    assert seg[0] == '\t';
    var run := seg[..Lines.BlankRun(seg)];
    assert run[0] == '\t';
    assert '\t' in multiset(run);
  }

  /** Shift-tab undoes tab: after addFrontTab(p), removeFrontTab on the same character,
      now one position on, removes the tab just added. The character must not be a '\n':
      countFrontTab reports nothing there. */
  lemma AddThenRemoveFrontTab(sb: S.StyledBody, p: int, attributeSet: Option<Attr>)
    requires 0 <= p < |S.Text(sb)| && S.Text(sb)[p] != '\n'
    ensures AddFrontTab(sb, p, attributeSet).Ok?
    ensures var added := AddFrontTab(sb, p, attributeSet).value;
            && RemoveFrontTab(added, p + 1).Ok?
            && RemoveFrontTab(added, p + 1).value.0
            && S.Text(RemoveFrontTab(added, p + 1).value.1) == S.Text(sb)
  {
    var t := S.Text(sb);
    LineBeginAtCharacter(t, p);
    var b := Lines.ScanBack(t, p);
    var added := AddFrontTab(sb, p, attributeSet).value;
    RemoveAddedTab(added, t, p, b);
  }

  /** The tab addFrontTab puts at the line start is the one removeFrontTab takes away. */
  lemma RemoveAddedTab(added: S.StyledBody, t: string, p: int, b: nat)
    requires 0 <= p < |t| && t[p] != '\n' && b == Lines.ScanBack(t, p)
    requires S.Text(added) == t[..b] + "\t" + t[b..]
    ensures RemoveFrontTab(added, p + 1).Ok? && RemoveFrontTab(added, p + 1).value.0
    ensures S.Text(RemoveFrontTab(added, p + 1).value.1) == t
  {
    var t' := S.Text(added);
    TabKeepsLineStart(t, p, b);
    assert t'[b] == '\t';
    RemoveLeadingTab(added, p + 1, b);
    S.DeleteInserted(t, b, "\t");
  }

  /** On a line that starts with a tab, removeFrontTab removes that tab. */
  lemma RemoveLeadingTab(sb: S.StyledBody, p: int, b: nat)
    requires 0 <= p < |S.Text(sb)| && b <= p
    requires Lines.ScanBack(S.Text(sb), p) == b && S.Text(sb)[b] == '\t'
    ensures RemoveFrontTab(sb, p).Ok? && RemoveFrontTab(sb, p).value.0
    ensures S.Text(RemoveFrontTab(sb, p).value.1) == S.Text(sb)[..b] + S.Text(sb)[b + 1..]
  {
    var t := S.Text(sb);
    LeadingTabCounted(t, p, b);
    assert CountFrontTab(t, p).value.0 != 0;
    LineBeginAtCharacter(t, p);
    FrontTabRangeEffect(t, p);
    RemoveFrontTabEffect(sb, p);
  }
}
