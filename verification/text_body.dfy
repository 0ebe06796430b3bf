/** com.syntax.code.TextBody: a character buffer with primitive insert/remove commands and its
    own, non-merging undo history. The buffer operations follow java.lang.StringBuilder and
    java.lang.String, including the exceptions they throw. */
module TextBody {
  import opened Results
  import opened Notify
  import History

  // ---------------------------------------------------------------------------------------
  // String and StringBuilder primitives

  /** StringBuilder.insert(offset, s): fails unless 0 <= offset <= length. */
  function Insert(t: string, offset: int, s: string): (r: Result<string>)
    ensures r.Ok? <==> 0 <= offset <= |t|
    ensures r.Ok? ==> && |r.value| == |t| + |s|
                      && r.value[..offset] == t[..offset]
                      && r.value[offset..offset + |s|] == s
                      && r.value[offset + |s|..] == t[offset..]
  {
    if 0 <= offset <= |t| then Ok(t[..offset] + s + t[offset..]) else Err(StringIndexOutOfBounds)
  }

  /** StringBuilder.delete(start, end): fails when start is negative, beyond the length or
      beyond end; an end past the length is clamped to the length. */
  function Delete(t: string, start: int, end: int): (r: Result<string>)
    ensures r.Ok? <==> 0 <= start <= |t| && start <= end
    ensures r.Ok? ==> var stop := if end < |t| then end else |t|;
                      && |r.value| == |t| - (stop - start)
                      && r.value[..start] == t[..start]
                      && r.value[start..] == t[stop..]
  {
    if start < 0 || start > |t| || start > end then Err(StringIndexOutOfBounds)
    else Ok(t[..start] + t[(if end < |t| then end else |t|)..])
  }

  /** String.substring(begin, end). */
  function Substring(t: string, begin: int, end: int): (r: Result<string>)
    ensures r.Ok? <==> 0 <= begin <= end <= |t|
    ensures r.Ok? ==> |r.value| == end - begin && forall i :: begin <= i < end ==> r.value[i - begin] == t[i]
  {
    if 0 <= begin <= end <= |t| then Ok(t[begin..end]) else Err(StringIndexOutOfBounds)
  }

  // ---------------------------------------------------------------------------------------
  // Primitive commands

  /** TextBody.InsertCommand and TextBody.RemoveCommand: the position and the text inserted
      or removed. */
  datatype Edit = InsertCommand(start: int, changeStr: string) | RemoveCommand(start: int, changeStr: string)

  /** The effect of execute() on the text. */
  function ApplyEdit(e: Edit, t: string): (r: Result<string>)
    ensures r.Ok? <==> 0 <= e.start <= |t|
    ensures r.Ok? && e.InsertCommand? ==>
              && |r.value| == |t| + |e.changeStr|
              && r.value[..e.start] == t[..e.start]
              && r.value[e.start..e.start + |e.changeStr|] == e.changeStr
              && r.value[e.start + |e.changeStr|..] == t[e.start..]
    ensures r.Ok? && e.RemoveCommand? && e.start + |e.changeStr| <= |t| ==>
              && |r.value| == |t| - |e.changeStr|
              && r.value[..e.start] == t[..e.start]
              && r.value[e.start..] == t[e.start + |e.changeStr|..]
  {
    match e
    case InsertCommand(start, s) => Insert(t, start, s)
    case RemoveCommand(start, s) => Delete(t, start, start + |s|)
  }

  /** The effect of reverseExecution() on the text. */
  function UnapplyEdit(e: Edit, t: string): (r: Result<string>)
    ensures r.Ok? <==> 0 <= e.start <= |t|
    ensures r.Ok? && e.RemoveCommand? ==>
              && |r.value| == |t| + |e.changeStr|
              && r.value[..e.start] == t[..e.start]
              && r.value[e.start..e.start + |e.changeStr|] == e.changeStr
              && r.value[e.start + |e.changeStr|..] == t[e.start..]
    ensures r.Ok? && e.InsertCommand? && e.start + |e.changeStr| <= |t| ==>
              && |r.value| == |t| - |e.changeStr|
              && r.value[..e.start] == t[..e.start]
              && r.value[e.start..] == t[e.start + |e.changeStr|..]
    ensures r.Ok? && e.InsertCommand? && e.start + |e.changeStr| > |t| ==> r.value == t[..e.start]
  {
    match e
    case InsertCommand(start, s) => Delete(t, start, start + |s|)
    case RemoveCommand(start, s) => Insert(t, start, s)
  }

  /** The TextChangeListener notifications sent by execute(). */
  function ExecuteEvents(e: Edit): seq<Event> {
    match e
    case InsertCommand(start, s) => [InsertChange(start, s)]
    case RemoveCommand(start, s) => [RemoveChange(start, |s|)]
  }

  /** The TextChangeListener notifications sent by reverseExecution(). */
  function ReverseEvents(e: Edit): seq<Event> {
    match e
    case InsertCommand(start, s) => [RemoveChange(start, |s|)]
    case RemoveCommand(start, s) => [InsertChange(start, s)]
  }

  /** An insert inside the text is undone by its reverse. */
  lemma InsertRoundTrip(t: string, start: int, s: string)
    requires 0 <= start <= |t|
    ensures ApplyEdit(InsertCommand(start, s), t).Ok?
    ensures UnapplyEdit(InsertCommand(start, s), ApplyEdit(InsertCommand(start, s), t).value) == Ok(t)
  {
    var t' := ApplyEdit(InsertCommand(start, s), t).value;
    assert t'[..start] + t'[start + |s|..] == t;
  }

  /** A remove whose recorded text is the slice it deletes is undone by its reverse. */
  lemma RemoveRoundTrip(t: string, start: int, s: string)
    requires Substring(t, start, start + |s|) == Ok(s)
    ensures ApplyEdit(RemoveCommand(start, s), t).Ok?
    ensures UnapplyEdit(RemoveCommand(start, s), ApplyEdit(RemoveCommand(start, s), t).value) == Ok(t)
  {
    var t' := ApplyEdit(RemoveCommand(start, s), t).value;
    assert t[start..start + |s|] == s;
    assert t'[..start] + s + t'[start..] == t;
  }

  // ---------------------------------------------------------------------------------------
  // Listener

  /** The text kept by a TextChangeListener that applies every insertChange/removeChange it
      receives to its own copy; style notifications do not change it. */
  function Mirror(t: string, events: seq<Event>): Result<string>
    decreases |events|
  {
    if |events| == 0 then Ok(t)
    else
      var t1 :- MirrorOne(t, events[0]);
      Mirror(t1, events[1..])
  }

  function MirrorOne(t: string, event: Event): Result<string> {
    match event
    case InsertChange(start, s) => Insert(t, start, s)
    case RemoveChange(start, n) => Delete(t, start, start + n)
    case _ => Ok(t)
  }

  /** Mirroring two batches of events is mirroring the first, then the second. */
  lemma {:induction false} MirrorAppend(t: string, e1: seq<Event>, e2: seq<Event>)
    ensures Mirror(t, e1 + e2) == (if Mirror(t, e1).Err? then Mirror(t, e1) else Mirror(Mirror(t, e1).value, e2))
    decreases |e1|
  {
    if |e1| == 0 {
      assert e1 + e2 == e2;
    } else {
      assert (e1 + e2)[0] == e1[0];
      assert (e1 + e2)[1..] == e1[1..] + e2;
      var r := MirrorOne(t, e1[0]);
      if r.Ok? {
        MirrorAppend(r.value, e1[1..], e2);
      }
    }
  }

  /** The listener's copy follows every executed or reversed primitive command. */
  lemma EditNotifiesListener(e: Edit, t: string)
    ensures ApplyEdit(e, t).Ok? ==> Mirror(t, ExecuteEvents(e)) == ApplyEdit(e, t)
    ensures UnapplyEdit(e, t).Ok? ==> Mirror(t, ReverseEvents(e)) == UnapplyEdit(e, t)
  {
  }

  // ---------------------------------------------------------------------------------------
  // Buffer and history

  /** The StringBuilder together with the notifications sent so far. */
  datatype Buffer = Buffer(text: string, log: seq<Event>)

  /** execute(): the text changes as ApplyEdit says, the log keeps what it had, and the
      events appended replay the old text to the new one. */
  function Execute(e: Edit, b: Buffer): (r: Result<Buffer>)
    ensures r.Ok? <==> ApplyEdit(e, b.text).Ok?
    ensures r.Ok? ==> r.value == Buffer(ApplyEdit(e, b.text).value, b.log + ExecuteEvents(e))
    ensures r.Ok? ==> |b.log| <= |r.value.log| && r.value.log[..|b.log|] == b.log
                      && Mirror(b.text, r.value.log[|b.log|..]) == Ok(r.value.text)
  {
    EditNotifiesListener(e, b.text);
    var t :- ApplyEdit(e, b.text);
    assert (b.log + ExecuteEvents(e))[|b.log|..] == ExecuteEvents(e);
    Ok(Buffer(t, b.log + ExecuteEvents(e)))
  }

  /** reverseExecution(): the same, for the reversal. */
  function ReverseExecution(e: Edit, b: Buffer): (r: Result<Buffer>)
    ensures r.Ok? <==> UnapplyEdit(e, b.text).Ok?
    ensures r.Ok? ==> r.value == Buffer(UnapplyEdit(e, b.text).value, b.log + ReverseEvents(e))
    ensures r.Ok? ==> |b.log| <= |r.value.log| && r.value.log[..|b.log|] == b.log
                      && Mirror(b.text, r.value.log[|b.log|..]) == Ok(r.value.text)
  {
    EditNotifiesListener(e, b.text);
    var t :- UnapplyEdit(e, b.text);
    assert (b.log + ReverseEvents(e))[|b.log|..] == ReverseEvents(e);
    Ok(Buffer(t, b.log + ReverseEvents(e)))
  }

  /** A TextBody: the buffer, the command list and the cursor nowState. */
  datatype Body = Body(buf: Buffer, commands: seq<Edit>, nowState: History.Cursor)

  /** The history invariant of a TextBody whose history started at text `origin`. */
  predicate Consistent(origin: string, b: Body) {
    History.Consistent(ApplyEdit, UnapplyEdit, origin, b.commands, b.nowState, b.buf.text)
  }

  /** new TextBody(initialStr). */
  function New(initialStr: string): (b: Body)
    ensures b.buf == Buffer(initialStr, [])
    ensures Consistent(initialStr, b) && b.nowState == -1
  {
    History.ConsistentInitial(ApplyEdit, UnapplyEdit, initialStr);
    Body(Buffer(initialStr, []), [], -1)
  }

  function GetText(b: Body): string {
    b.buf.text
  }

  function Length(b: Body): int {
    |b.buf.text|
  }

  /** TextBody.nextState: drop the redo tail, advance the cursor, execute, append. */
  function NextState(b: Body, e: Edit): (r: Result<Body>)
    ensures r.Ok? <==> ApplyEdit(e, b.buf.text).Ok?
    ensures r.Ok? ==> && r.value.commands == History.DropRedoTail(b.commands, b.nowState) + [e]
                      && r.value.nowState == b.nowState + 1
                      && r.value.buf.text == ApplyEdit(e, b.buf.text).value
                      && r.value.buf.log == b.buf.log + ExecuteEvents(e)
    ensures r.Ok? && -1 <= b.nowState < |b.commands| ==> r.value.nowState == |r.value.commands| - 1
  {
    var kept := History.DropRedoTail(b.commands, b.nowState);
    var buf :- Execute(e, b.buf);
    Ok(Body(buf, kept + [e], b.nowState + 1))
  }

  /** TextBody.insertText(start, changeStr). */
  function InsertText(b: Body, start: int, changeStr: string): (r: Result<Body>)
    ensures r.Ok? <==> 0 <= start <= |b.buf.text|
    ensures r.Ok? ==> && r.value.buf.text == b.buf.text[..start] + changeStr + b.buf.text[start..]
                      && r.value.buf.log == b.buf.log + [InsertChange(start, changeStr)]
                      && r.value.commands == History.DropRedoTail(b.commands, b.nowState) + [InsertCommand(start, changeStr)]
  {
    var r := NextState(b, InsertCommand(start, changeStr));
    if r.Ok? then
      assert r.value.buf.text == b.buf.text[..start] + changeStr + b.buf.text[start..];
      r
    else r
  }

  /** TextBody.removeText(start, length): the removed text is read before anything changes,
      so a bad range throws with the body untouched. */
  function RemoveText(b: Body, start: int, length: int): (r: Result<Body>)
    ensures r.Ok? <==> 0 <= start && 0 <= length && start + length <= |b.buf.text|
    ensures r.Ok? ==> && r.value.buf.text == b.buf.text[..start] + b.buf.text[start + length..]
                      && r.value.buf.log == b.buf.log + [RemoveChange(start, length)]
                      && r.value.commands == History.DropRedoTail(b.commands, b.nowState)
                                             + [RemoveCommand(start, b.buf.text[start..start + length])]
  {
    var removed :- Substring(b.buf.text, start, start + length);
    assert removed == b.buf.text[start..start + length];
    var r := NextState(b, RemoveCommand(start, removed));
    if r.Ok? then
      assert r.value.buf.text == b.buf.text[..start] + b.buf.text[start + length..];
      r
    else r
  }

  /** TextBody.reverse(): (false, unchanged) at nowState == -1, otherwise reverse the current
      entry and step the cursor back. */
  function Reverse(b: Body): (r: Result<(bool, Body)>)
    ensures b.nowState == -1 ==> r == Ok((false, b))
    ensures r.Ok? && !r.value.0 ==> r.value.1 == b
    ensures r.Ok? && r.value.0 ==> && 0 <= b.nowState < |b.commands|
                                   && r.value.1.commands == b.commands
                                   && r.value.1.nowState == b.nowState - 1
                                   && UnapplyEdit(b.commands[b.nowState], b.buf.text) == Ok(r.value.1.buf.text)
  {
    if b.nowState == -1 then Ok((false, b))
    else if !(0 <= b.nowState < |b.commands|) then Err(IndexOutOfBounds)
    else
      var buf :- ReverseExecution(b.commands[b.nowState], b.buf);
      Ok((true, b.(buf := buf, nowState := b.nowState - 1)))
  }

  /** TextBody.forward(): (false, unchanged) when there is no redo tail, otherwise advance the
      cursor and execute that entry again. */
  function Forward(b: Body): (r: Result<(bool, Body)>)
    ensures b.nowState + 1 >= |b.commands| ==> r == Ok((false, b))
    ensures r.Ok? && !r.value.0 ==> r.value.1 == b
    ensures r.Ok? && r.value.0 ==> && 0 <= b.nowState + 1 < |b.commands|
                                   && r.value.1.commands == b.commands
                                   && r.value.1.nowState == b.nowState + 1
                                   && ApplyEdit(b.commands[b.nowState + 1], b.buf.text) == Ok(r.value.1.buf.text)
  {
    if b.nowState + 1 < |b.commands| then
      var buf :- Execute(b.commands[b.nowState + 1], b.buf);
      Ok((true, b.(buf := buf, nowState := b.nowState + 1)))
    else Ok((false, b))
  }
}
