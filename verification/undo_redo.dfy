/** The editing session as the editor drives it: styled edits committed one after another,
    then undo and redo. The lemmas show that every commit keeps the history invariant, and
    that undoing everything and redoing everything walks the recorded texts back and forth. */
module UndoRedo {
  import opened Results
  import opened Notify
  import History
  import TB = TextBody
  import S = StyledTextBody

  /** The four styled edits the editor issues. */
  datatype Request =
    | InsertStyled(start: int, text: string, attributeSet: Option<Attr>)
    | ForcedInsert(start: int, text: string, attributeSet: Option<Attr>)
    | RemoveStyled(start: int, length: int)
    | ForcedRemove(start: int, length: int)

  /** The command a request records, built against the text it is issued on. */
  function CommandOf(t: string, q: Request): (r: Result<S.Command>)
    ensures r.Ok? ==> S.RoundTrips(r.value, t)
    ensures (q.InsertStyled? || q.ForcedInsert?) ==> r.Ok?
  {
    match q
    case InsertStyled(start, text, a) =>
      S.InsertRoundTrips(start, text, a, t);
      Ok(S.NewInsert(start, text, a))
    case ForcedInsert(start, text, a) =>
      S.InsertRoundTrips(start, text, a, t);
      Ok(S.Collection([S.NewInsert(start, text, a)]))
    case RemoveStyled(start, length) =>
      var c :- S.NewRemove(t, start, length);
      S.RemoveRoundTrips(t, start, length);
      Ok(c)
    case ForcedRemove(start, length) =>
      var c :- S.NewRemove(t, start, length);
      S.RemoveRoundTrips(t, start, length);
      Ok(S.Collection([c]))
  }

  /** One styled edit, through the matching StyledTextBody operation. */
  function Submit(sb: S.StyledBody, q: Request): (r: Result<S.StyledBody>)
    ensures r.Ok? <==> CommandOf(S.Text(sb), q).Ok? && S.NextState(sb, CommandOf(S.Text(sb), q).value).Ok?
    ensures r.Ok? ==> r == S.NextState(sb, CommandOf(S.Text(sb), q).value)
  {
    match q
    case InsertStyled(start, text, a) => S.InsertStyledText(sb, start, text, a)
    case ForcedInsert(start, text, a) => S.ForcedMergeInsertStyledText(sb, start, text, a)
    case RemoveStyled(start, length) => S.RemoveStyledText(sb, start, length)
    case ForcedRemove(start, length) => S.ForcedMergeRemoveStyledText(sb, start, length)
  }

  /** A run of edits; the first one that throws ends the run. */
  function SubmitAll(sb: S.StyledBody, qs: seq<Request>): Result<S.StyledBody>
    decreases |qs|
  {
    if |qs| == 0 then Ok(sb)
    else
      var next :- Submit(sb, qs[0]);
      SubmitAll(next, qs[1..])
  }

  /** Two requests in a row: the second is submitted to what the first produced. */
  lemma SubmitTwo(sb: S.StyledBody, q0: Request, q1: Request)
    requires Submit(sb, q0).Ok?
    ensures SubmitAll(sb, [q0, q1]) == Submit(Submit(sb, q0).value, q1)
  {
    var next := Submit(sb, q0).value;
    assert [q0, q1][1..] == [q1];
    assert [q1][1..] == [];
    if Submit(next, q1).Ok? {
      assert SubmitAll(next, [q1]) == SubmitAll(Submit(next, q1).value, []);
    }
  }

  // ---------------------------------------------------------------------------------------
  // Commits keep the invariant

  /** nextState keeps the history invariant for any command that round-trips, whether it
      is appended or merged into the newest entry. */
  lemma CommitKeepsConsistent(origin: string, sb: S.StyledBody, c: S.Command)
    requires S.Consistent(origin, sb)
    requires S.RoundTrips(c, S.Text(sb))
    requires S.NextState(sb, c).Ok?
    ensures S.Consistent(origin, S.NextState(sb, c).value)
  {
    var kept := History.DropRedoTail(sb.commands, sb.nowState);
    if |kept| > 0 && S.Combine(c, kept[|kept| - 1]).Some? {
      MergeKeepsConsistent(origin, sb, c);
    } else {
      var next := S.NextState(sb, c).value;
      History.CommitAppend(S.Apply, S.Unapply, origin, sb.commands, sb.nowState, S.Text(sb), c, S.Text(next));
    }
  }

  /** The merge case of nextState: the merged entry replaces the newest one. */
  lemma MergeKeepsConsistent(origin: string, sb: S.StyledBody, c: S.Command)
    requires S.Consistent(origin, sb)
    requires S.RoundTrips(c, S.Text(sb))
    requires S.NextState(sb, c).Ok?
    requires var kept := History.DropRedoTail(sb.commands, sb.nowState);
             |kept| > 0 && S.Combine(c, kept[|kept| - 1]).Some?
    ensures S.Consistent(origin, S.NextState(sb, c).value)
  {
    var text := S.Text(sb);
    var next := S.Text(S.NextState(sb, c).value);
    var previous := sb.commands[sb.nowState];
    var m := S.Combine(c, previous).value;
    History.UndoStep(S.Apply, S.Unapply, origin, sb.commands, sb.nowState, text);
    var prior := History.Replay(S.Apply, origin, sb.commands).value[sb.nowState];
    S.MergeSound(c, previous, prior, text, next);
    History.CommitReplace(S.Apply, S.Unapply, origin, sb.commands, sb.nowState, text, m, prior, next);
  }

  /** Every styled edit keeps the history invariant. */
  lemma SubmitKeepsConsistent(origin: string, sb: S.StyledBody, q: Request)
    requires S.Consistent(origin, sb)
    requires Submit(sb, q).Ok?
    ensures S.Consistent(origin, Submit(sb, q).value)
  {
    CommitKeepsConsistent(origin, sb, CommandOf(S.Text(sb), q).value);
  }

  lemma {:induction false} SubmitAllKeepsConsistent(origin: string, sb: S.StyledBody, qs: seq<Request>)
    requires S.Consistent(origin, sb)
    requires SubmitAll(sb, qs).Ok?
    ensures S.Consistent(origin, SubmitAll(sb, qs).value)
    ensures |qs| > 0 ==> SubmitAll(sb, qs).value.nowState == |SubmitAll(sb, qs).value.commands| - 1
    decreases |qs|
  {
    if |qs| > 0 {
      SubmitKeepsConsistent(origin, sb, qs[0]);
      var next := Submit(sb, qs[0]).value;
      SubmitAllKeepsConsistent(origin, next, qs[1..]);
      if |qs| == 1 {
        assert SubmitAll(next, qs[1..]) == Ok(next);
      }
    }
  }

  // ---------------------------------------------------------------------------------------
  // Undo and redo

  /** The texts the history records: entry i leads from texts[i] to texts[i + 1]. */
  function Texts(origin: string, sb: S.StyledBody): (texts: seq<string>)
    requires S.Consistent(origin, sb)
    ensures |texts| == |sb.commands| + 1 && texts[0] == origin && texts[sb.nowState + 1] == S.Text(sb)
  {
    History.Replay(S.Apply, origin, sb.commands).value
  }

  /** On a consistent history reverse() never throws: it steps back to the previous recorded
      text exactly when there is something to undo. */
  lemma UndoStep(origin: string, sb: S.StyledBody)
    requires S.Consistent(origin, sb)
    ensures S.Reverse(sb).Ok?
    ensures S.Reverse(sb).value.0 <==> sb.nowState != -1
    ensures S.Consistent(origin, S.Reverse(sb).value.1)
    ensures sb.nowState != -1 ==> && S.Text(S.Reverse(sb).value.1) == Texts(origin, sb)[sb.nowState]
                                   && Texts(origin, S.Reverse(sb).value.1) == Texts(origin, sb)
  {
    if sb.nowState != -1 {
      History.UndoStep(S.Apply, S.Unapply, origin, sb.commands, sb.nowState, S.Text(sb));
    }
  }

  /** On a consistent history forward() never throws: it moves to the next recorded text
      exactly when there is a redo tail. */
  lemma RedoStep(origin: string, sb: S.StyledBody)
    requires S.Consistent(origin, sb)
    ensures S.Forward(sb).Ok?
    ensures S.Forward(sb).value.0 <==> sb.nowState + 1 < |sb.commands|
    ensures S.Consistent(origin, S.Forward(sb).value.1)
    ensures sb.nowState + 1 < |sb.commands| ==> && S.Text(S.Forward(sb).value.1) == Texts(origin, sb)[sb.nowState + 2]
                                                && Texts(origin, S.Forward(sb).value.1) == Texts(origin, sb)
  {
    if sb.nowState + 1 < |sb.commands| {
      History.RedoStep(S.Apply, S.Unapply, origin, sb.commands, sb.nowState, S.Text(sb));
    }
  }

  /** Undo until reverse() reports nothing left, collecting the text after each step. */
  function UndoAll(sb: S.StyledBody): Result<(S.StyledBody, seq<string>)>
    decreases sb.nowState + 1
  {
    var (moved, next) :- S.Reverse(sb);
    if !moved then Ok((sb, []))
    else
      var (last, seen) :- UndoAll(next);
      Ok((last, [S.Text(next)] + seen))
  }

  /** Redo until forward() reports nothing left, collecting the text after each step. */
  function RedoAll(sb: S.StyledBody): Result<(S.StyledBody, seq<string>)>
    decreases |sb.commands| - sb.nowState
  {
    var (moved, next) :- S.Forward(sb);
    if !moved then Ok((sb, []))
    else
      var (last, seen) :- RedoAll(next);
      Ok((last, [S.Text(next)] + seen))
  }

  /** Undoing everything visits the recorded texts newest first and ends at the text the
      history started from, with every entry kept for redo. */
  lemma {:induction false} UndoAllRestoresOrigin(origin: string, sb: S.StyledBody)
    requires S.Consistent(origin, sb)
    ensures UndoAll(sb).Ok?
    ensures var (last, seen) := UndoAll(sb).value;
            && S.Text(last) == origin && last.nowState == -1 && last.commands == sb.commands
            && S.Consistent(origin, last)
            && |seen| == sb.nowState + 1
            && forall k :: 0 <= k < |seen| ==> seen[k] == Texts(origin, sb)[sb.nowState - k]
    decreases sb.nowState + 1
  {
    UndoStep(origin, sb);
    if sb.nowState != -1 {
      var next := S.Reverse(sb).value.1;
      UndoAllRestoresOrigin(origin, next);
    }
  }

  /** Redoing everything visits the recorded texts oldest first and ends at the newest one. */
  lemma {:induction false} RedoAllReachesNewest(origin: string, sb: S.StyledBody)
    requires S.Consistent(origin, sb)
    ensures RedoAll(sb).Ok?
    ensures var (last, seen) := RedoAll(sb).value;
            && S.Text(last) == Texts(origin, sb)[|sb.commands|]
            && last.nowState == |sb.commands| - 1 && last.commands == sb.commands
            && S.Consistent(origin, last)
            && seen == Texts(origin, sb)[sb.nowState + 2..]
    decreases |sb.commands| - sb.nowState
  {
    RedoStep(origin, sb);
    if sb.nowState + 1 < |sb.commands| {
      var next := S.Forward(sb).value.1;
      assert S.Forward(sb) == Ok((true, next));
      RedoAllReachesNewest(origin, next);
      var (last, rest) := RedoAll(next).value;
      var seen := [S.Text(next)] + rest;
      assert RedoAll(sb) == Ok((last, seen));
      var texts := Texts(origin, sb);
      assert S.Text(next) == texts[sb.nowState + 2] && rest == texts[sb.nowState + 3..];
      assert seen == texts[sb.nowState + 2..];
    } else {
      assert RedoAll(sb) == Ok((sb, []));
    }
  }

  /** Undo everything, then redo everything: the text after the last edit comes back, and
      the history is exactly the one before the undo. */
  lemma UndoAllThenRedoAll(origin: string, sb: S.StyledBody)
    requires S.Consistent(origin, sb) && sb.nowState == |sb.commands| - 1
    ensures UndoAll(sb).Ok? && RedoAll(UndoAll(sb).value.0).Ok?
    ensures var back := RedoAll(UndoAll(sb).value.0).value.0;
            S.Text(back) == S.Text(sb) && back.commands == sb.commands && back.nowState == sb.nowState
  {
    UndoAllRestoresOrigin(origin, sb);
    var undone := UndoAll(sb).value.0;
    assert Texts(origin, undone) == Texts(origin, sb);
    RedoAllReachesNewest(origin, undone);
  }

  // ---------------------------------------------------------------------------------------
  // The plain TextBody history

  /** insertText keeps the TextBody history invariant. */
  lemma TextInsertKeepsConsistent(origin: string, b: TB.Body, start: int, changeStr: string)
    requires TB.Consistent(origin, b)
    requires TB.InsertText(b, start, changeStr).Ok?
    ensures TB.Consistent(origin, TB.InsertText(b, start, changeStr).value)
    ensures TB.InsertText(b, start, changeStr).value.nowState == b.nowState + 1
  {
    var e := TB.InsertCommand(start, changeStr);
    TB.InsertRoundTrip(b.buf.text, start, changeStr);
    History.CommitAppend(TB.ApplyEdit, TB.UnapplyEdit, origin, b.commands, b.nowState, b.buf.text,
                         e, TB.ApplyEdit(e, b.buf.text).value);
  }

  /** removeText keeps the TextBody history invariant. */
  lemma TextRemoveKeepsConsistent(origin: string, b: TB.Body, start: int, length: int)
    requires TB.Consistent(origin, b)
    requires TB.RemoveText(b, start, length).Ok?
    ensures TB.Consistent(origin, TB.RemoveText(b, start, length).value)
    ensures TB.RemoveText(b, start, length).value.nowState == b.nowState + 1
  {
    var removed := b.buf.text[start..start + length];
    var e := TB.RemoveCommand(start, removed);
    assert TB.Substring(b.buf.text, start, start + |removed|) == Ok(removed);
    TB.RemoveRoundTrip(b.buf.text, start, removed);
    History.CommitAppend(TB.ApplyEdit, TB.UnapplyEdit, origin, b.commands, b.nowState, b.buf.text,
                         e, TB.ApplyEdit(e, b.buf.text).value);
  }

  /** TextBody.reverse() on a consistent history steps back to the previous recorded text. */
  lemma TextUndoStep(origin: string, b: TB.Body)
    requires TB.Consistent(origin, b)
    ensures TB.Reverse(b).Ok?
    ensures TB.Reverse(b).value.0 <==> b.nowState != -1
    ensures TB.Consistent(origin, TB.Reverse(b).value.1)
    ensures b.nowState != -1 ==> TB.Reverse(b).value.1.buf.text
                                 == History.Replay(TB.ApplyEdit, origin, b.commands).value[b.nowState]
  {
    if b.nowState != -1 {
      History.UndoStep(TB.ApplyEdit, TB.UnapplyEdit, origin, b.commands, b.nowState, b.buf.text);
    }
  }

  /** TextBody.forward() on a consistent history moves to the next recorded text. */
  lemma TextRedoStep(origin: string, b: TB.Body)
    requires TB.Consistent(origin, b)
    ensures TB.Forward(b).Ok?
    ensures TB.Forward(b).value.0 <==> b.nowState + 1 < |b.commands|
    ensures TB.Consistent(origin, TB.Forward(b).value.1)
    ensures b.nowState + 1 < |b.commands| ==> TB.Forward(b).value.1.buf.text
                                              == History.Replay(TB.ApplyEdit, origin, b.commands).value[b.nowState + 2]
  {
    if b.nowState + 1 < |b.commands| {
      History.RedoStep(TB.ApplyEdit, TB.UnapplyEdit, origin, b.commands, b.nowState, b.buf.text);
    }
  }

  // ---------------------------------------------------------------------------------------
  // Sessions

  /** A styled insert on a body whose history ends at the cursor: the entry it records,
      merged or appended, and the text it leaves. */
  lemma InsertOutcome(sb: S.StyledBody, start: int, text: string, attributeSet: Option<Attr>)
    requires -1 <= sb.nowState == |sb.commands| - 1
    requires 0 <= start <= |S.Text(sb)|
    ensures Submit(sb, InsertStyled(start, text, attributeSet)).Ok?
    ensures var r := Submit(sb, InsertStyled(start, text, attributeSet)).value;
            var c := S.NewInsert(start, text, attributeSet);
            && S.Text(r) == S.Text(sb)[..start] + text + S.Text(sb)[start..]
            && if |sb.commands| > 0 && S.Combine(c, sb.commands[|sb.commands| - 1]).Some?
               then r.commands == sb.commands[..|sb.commands| - 1] + [S.Combine(c, sb.commands[|sb.commands| - 1]).value]
                    && r.nowState == sb.nowState
               else r.commands == sb.commands + [c] && r.nowState == sb.nowState + 1
  {
    assert History.DropRedoTail(sb.commands, sb.nowState) == sb.commands;
  }

  /** Typing "h" then "i" records a single entry; undo empties the text and redo brings
      "hi" back. */
  lemma TypingMergesIntoOneStep()
    ensures SubmitAll(S.New(), [InsertStyled(0, "h", None), InsertStyled(1, "i", None)]).Ok?
    ensures var sb := SubmitAll(S.New(), [InsertStyled(0, "h", None), InsertStyled(1, "i", None)]).value;
            && S.Text(sb) == "hi"
            && sb.commands == [S.StyledInsert(0, "hi", None, true)] && sb.nowState == 0
            && S.Reverse(sb).Ok? && S.Text(S.Reverse(sb).value.1) == ""
            && S.Forward(S.Reverse(sb).value.1).Ok? && S.Text(S.Forward(S.Reverse(sb).value.1).value.1) == "hi"
  {
    var qs := [InsertStyled(0, "h", None), InsertStyled(1, "i", None)];
    TypingHi();
    SubmitAllKeepsConsistent("", S.New(), qs);
    var sb := SubmitAll(S.New(), qs).value;
    UndoStep("", sb);
    RedoStep("", S.Reverse(sb).value.1);
  }

  /** The history typing "hi" leaves. */
  lemma TypingHi()
    ensures SubmitAll(S.New(), [InsertStyled(0, "h", None), InsertStyled(1, "i", None)]).Ok?
    ensures var sb := SubmitAll(S.New(), [InsertStyled(0, "h", None), InsertStyled(1, "i", None)]).value;
            && S.Text(sb) == "hi"
            && sb.commands == [S.StyledInsert(0, "hi", None, true)] && sb.nowState == 0
  {
    var qs := [InsertStyled(0, "h", None), InsertStyled(1, "i", None)];
    var sb0 := S.New();
    InsertOutcome(sb0, 0, "h", None);
    var sb1 := Submit(sb0, qs[0]).value;
    assert S.Text(sb1) == "h" && sb1.commands == [S.StyledInsert(0, "h", None, true)];
    InsertOutcome(sb1, 1, "i", None);
    assert S.NewInsert(1, "i", None) == S.StyledInsert(1, "i", None, true);
    assert "i" != "\n" && "h" + "i" == "hi";
    assert S.Combine(S.NewInsert(1, "i", None), sb1.commands[0]) == Some(S.StyledInsert(0, "hi", None, true));
    SubmitTwo(sb0, qs[0], qs[1]);
  }

  /** A styled removal on a body whose history ends at the cursor. */
  lemma RemoveOutcome(sb: S.StyledBody, start: int, length: int)
    requires -1 <= sb.nowState == |sb.commands| - 1
    requires 0 <= start && 0 <= length && start + length <= |S.Text(sb)|
    ensures Submit(sb, RemoveStyled(start, length)).Ok?
    ensures var r := Submit(sb, RemoveStyled(start, length)).value;
            var c := S.StyledRemove(start, S.Text(sb)[start..start + length], !(length > 1));
            && S.Text(r) == S.Text(sb)[..start] + S.Text(sb)[start + length..]
            && if |sb.commands| > 0 && S.Combine(c, sb.commands[|sb.commands| - 1]).Some?
               then r.commands == sb.commands[..|sb.commands| - 1] + [S.Combine(c, sb.commands[|sb.commands| - 1]).value]
                    && r.nowState == sb.nowState
               else r.commands == sb.commands + [c] && r.nowState == sb.nowState + 1
  {
    assert History.DropRedoTail(sb.commands, sb.nowState) == sb.commands;
  }

  /** A newline followed by a character merges into one entry: only the incoming text is
      compared with "\n". */
  lemma NewlineThenCharMerge(sb: S.StyledBody)
    requires S.Text(sb) == "" && sb.commands == [] && sb.nowState == -1
    ensures SubmitAll(sb, [InsertStyled(0, "\n", None), InsertStyled(1, "c", None)]).Ok?
    ensures SubmitAll(sb, [InsertStyled(0, "\n", None), InsertStyled(1, "c", None)]).value.commands
            == [S.StyledInsert(0, "\nc", None, true)]
  {
    var qs := [InsertStyled(0, "\n", None), InsertStyled(1, "c", None)];
    InsertOutcome(sb, 0, "\n", None);
    var sb1 := Submit(sb, qs[0]).value;
    assert S.Text(sb1) == "\n" && sb1.commands == [S.StyledInsert(0, "\n", None, true)];
    InsertOutcome(sb1, 1, "c", None);
    var sb2 := Submit(sb1, qs[1]).value;
    assert S.NewInsert(1, "c", None) == S.StyledInsert(1, "c", None, true);
    assert "c" != "\n" && "\n" + "c" == "\nc";
    assert S.Combine(S.NewInsert(1, "c", None), sb1.commands[0]) == Some(S.StyledInsert(0, "\nc", None, true));
    assert sb2.commands == [S.StyledInsert(0, "\nc", None, true)];
    SubmitTwo(sb, qs[0], qs[1]);
  }

  /** Typing "\n" right after a character is recorded as an entry of its own. */
  lemma NewlineStartsNewStep(sb: S.StyledBody)
    requires S.Text(sb) == "" && sb.commands == [] && sb.nowState == -1
    ensures SubmitAll(sb, [InsertStyled(0, "c", None), InsertStyled(1, "\n", None)]).Ok?
    ensures SubmitAll(sb, [InsertStyled(0, "c", None), InsertStyled(1, "\n", None)]).value.commands
            == [S.StyledInsert(0, "c", None, true), S.StyledInsert(1, "\n", None, true)]
  {
    var qs := [InsertStyled(0, "c", None), InsertStyled(1, "\n", None)];
    InsertOutcome(sb, 0, "c", None);
    var sb1 := Submit(sb, qs[0]).value;
    assert S.Text(sb1) == "c" && sb1.commands == [S.StyledInsert(0, "c", None, true)];
    InsertOutcome(sb1, 1, "\n", None);
    var sb2 := Submit(sb1, qs[1]).value;
    assert S.Combine(S.NewInsert(1, "\n", None), sb1.commands[0]) == None;
    assert sb2.commands == [S.StyledInsert(0, "c", None, true), S.StyledInsert(1, "\n", None, true)];
    SubmitTwo(sb, qs[0], qs[1]);
  }

  /** The texts of the two backspaces at the end of "hello". */
  lemma Backspaces()
    ensures "hello"[4..5] == "o" && "hello"[..4] + "hello"[5..] == "hell"
    ensures "hell"[3..4] == "l" && "hell"[..3] + "hell"[4..] == "hel"
    ensures "l" + "o" == "lo"
  {
  }

  /** The texts of the two forward deletes at the start of "hello". */
  lemma ForwardDeletes()
    ensures "hello"[0..1] == "h" && "hello"[..0] + "hello"[1..] == "ello"
    ensures "ello"[0..1] == "e" && "ello"[..0] + "ello"[1..] == "llo"
  {
  }

  /** Two backspaces at the end of "hello" are one undo step that restores "lo". */
  lemma BackspacesMerge(sb: S.StyledBody)
    requires S.Text(sb) == "hello" && sb.commands == [] && sb.nowState == -1
    ensures SubmitAll(sb, [RemoveStyled(4, 1), RemoveStyled(3, 1)]).Ok?
    ensures var r := SubmitAll(sb, [RemoveStyled(4, 1), RemoveStyled(3, 1)]).value;
            S.Text(r) == "hel" && r.commands == [S.StyledRemove(3, "lo", true)] && r.nowState == 0
  {
    var qs := [RemoveStyled(4, 1), RemoveStyled(3, 1)];
    Backspaces();
    RemoveOutcome(sb, 4, 1);
    var sb1 := Submit(sb, qs[0]).value;
    assert S.Text(sb1) == "hell" && sb1.commands == [S.StyledRemove(4, "o", true)];
    RemoveOutcome(sb1, 3, 1);
    assert S.Combine(S.StyledRemove(3, "l", true), sb1.commands[0]) == Some(S.StyledRemove(3, "lo", true));
    SubmitTwo(sb, qs[0], qs[1]);
  }

  /** Deleting forward twice at the start of "hello" leaves two undo steps: the merge only
      joins a removal that ends where the previous one began. */
  lemma ForwardDeletesStaySeparate(sb: S.StyledBody)
    requires S.Text(sb) == "hello" && sb.commands == [] && sb.nowState == -1
    ensures SubmitAll(sb, [RemoveStyled(0, 1), RemoveStyled(0, 1)]).Ok?
    ensures var r := SubmitAll(sb, [RemoveStyled(0, 1), RemoveStyled(0, 1)]).value;
            && S.Text(r) == "llo"
            && r.commands == [S.StyledRemove(0, "h", true), S.StyledRemove(0, "e", true)]
            && r.nowState == 1
  {
    var qs := [RemoveStyled(0, 1), RemoveStyled(0, 1)];
    ForwardDeletes();
    RemoveOutcome(sb, 0, 1);
    var sb1 := Submit(sb, qs[0]).value;
    assert S.Text(sb1) == "ello" && sb1.commands == [S.StyledRemove(0, "h", true)];
    RemoveOutcome(sb1, 0, 1);
    assert S.Combine(S.StyledRemove(0, "e", true), sb1.commands[0]) == None;
    SubmitTwo(sb, qs[0], qs[1]);
  }

  /** An edit after an undo discards the undone entry: redo has nothing left to do. */
  lemma EditAfterUndoDropsRedo(origin: string, sb: S.StyledBody, undone: S.StyledBody, q: Request)
    requires S.Consistent(origin, sb) && sb.nowState != -1
    requires S.Reverse(sb) == Ok((true, undone))
    requires Submit(undone, q).Ok?
    ensures var r := Submit(undone, q).value;
            && |r.commands| <= sb.nowState + 1
            && r.commands[..|r.commands| - 1] == sb.commands[..|r.commands| - 1]
            && S.Forward(r) == Ok((false, r))
  {
    UndoStep(origin, sb);
    SubmitKeepsConsistent(origin, undone, q);
    var c := CommandOf(S.Text(undone), q).value;
    var r := S.NextState(undone, c).value;
    var kept := History.DropRedoTail(undone.commands, undone.nowState);
    assert |kept| == sb.nowState && kept == sb.commands[..sb.nowState];
    assert r.nowState == |r.commands| - 1;
  }
}
