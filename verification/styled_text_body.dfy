/** com.syntax.code.StyledTextBody: the editor's undo history. Every edit is a command that
    can execute, reverse itself and try to combine with the newest history entry, so that
    typing and backspacing are undone a run at a time.

    StyledTextBody declares its own `commands` and `nowState`, hiding those of TextBody; the
    TextBody history is kept in `base` and only the inherited insertText/removeText use it. */
module StyledTextBody {
  import opened Results
  import opened Notify
  import History
  import TB = TextBody

  /** StyledInsertCommand, StyledRemoveCommand and CommandCollection. `combinable` is the
      command's isCombineable() flag: true unless finish() was called on it. */
  datatype Command =
    | StyledInsert(start: int, changeStr: string, attributeSet: Option<Attr>, combinable: bool)
    | StyledRemove(start: int, changeStr: string, combinable: bool)
    | Collection(children: seq<Command>)

  /** The TextBody command a styled insert or remove extends. */
  function Base(c: Command): TB.Edit
    requires !c.Collection?
  {
    if c.StyledInsert? then TB.InsertCommand(c.start, c.changeStr) else TB.RemoveCommand(c.start, c.changeStr)
  }

  // ---------------------------------------------------------------------------------------
  // execute / reverseExecution

  /** The effect of execute() on the text; a collection runs its children first to last. */
  function Apply(c: Command, t: string): Result<string>
    decreases c
  {
    match c
    case Collection(cs) => ApplyAll(cs, t)
    case _ => TB.ApplyEdit(Base(c), t)
  }

  function ApplyAll(cs: seq<Command>, t: string): Result<string>
    decreases cs
  {
    if |cs| == 0 then Ok(t)
    else
      var t1 :- Apply(cs[0], t);
      ApplyAll(cs[1..], t1)
  }

  /** The effect of reverseExecution() on the text; a collection reverses its children last
      to first. */
  function Unapply(c: Command, t: string): Result<string>
    decreases c
  {
    match c
    case Collection(cs) => UnapplyAll(cs, t)
    case _ => TB.UnapplyEdit(Base(c), t)
  }

  function UnapplyAll(cs: seq<Command>, t: string): Result<string>
    decreases cs
  {
    if |cs| == 0 then Ok(t)
    else
      var t1 :- Unapply(cs[|cs| - 1], t);
      UnapplyAll(cs[..|cs| - 1], t1)
  }

  /** The notifications sent by execute(): the TextBody notification first, then the style
      notification. */
  function ExecuteEvents(c: Command): seq<Event>
    decreases c
  {
    match c
    case StyledInsert(start, s, attr, _) => TB.ExecuteEvents(Base(c)) + [ChangeStyledText(start, s, attr)]
    case StyledRemove(start, s, _) => TB.ExecuteEvents(Base(c)) + [Event.RemoveStyledText(start, s)]
    case Collection(cs) => ExecuteEventsAll(cs)
  }

  function ExecuteEventsAll(cs: seq<Command>): seq<Event>
    decreases cs
  {
    if |cs| == 0 then [] else ExecuteEvents(cs[0]) + ExecuteEventsAll(cs[1..])
  }

  /** The notifications sent by reverseExecution(); a restored removal carries a null
      attribute set. */
  function ReverseEvents(c: Command): seq<Event>
    decreases c
  {
    match c
    case StyledInsert(start, s, _, _) => TB.ReverseEvents(Base(c)) + [Event.RemoveStyledText(start, s)]
    case StyledRemove(start, s, _) => TB.ReverseEvents(Base(c)) + [ChangeStyledText(start, s, None)]
    case Collection(cs) => ReverseEventsAll(cs)
  }

  function ReverseEventsAll(cs: seq<Command>): seq<Event>
    decreases cs
  {
    if |cs| == 0 then [] else ReverseEvents(cs[|cs| - 1]) + ReverseEventsAll(cs[..|cs| - 1])
  }

  /** execute(): the text changes as the plain command's does, the log keeps what it had,
      and the events appended replay the old text to the new one. */
  function Execute(c: Command, b: TB.Buffer): (r: Result<TB.Buffer>)
    ensures r.Ok? <==> Apply(c, b.text).Ok?
    ensures r.Ok? ==> r.value == TB.Buffer(Apply(c, b.text).value, b.log + ExecuteEvents(c))
    ensures r.Ok? ==> |b.log| <= |r.value.log| && r.value.log[..|b.log|] == b.log
                      && TB.Mirror(b.text, r.value.log[|b.log|..]) == Ok(r.value.text)
  {
    CommandNotifiesListener(c, b.text);
    var t :- Apply(c, b.text);
    assert (b.log + ExecuteEvents(c))[|b.log|..] == ExecuteEvents(c);
    Ok(TB.Buffer(t, b.log + ExecuteEvents(c)))
  }

  /** reverseExecution(): the same, for the reversal. */
  function ReverseExecution(c: Command, b: TB.Buffer): (r: Result<TB.Buffer>)
    ensures r.Ok? <==> Unapply(c, b.text).Ok?
    ensures r.Ok? ==> r.value == TB.Buffer(Unapply(c, b.text).value, b.log + ReverseEvents(c))
    ensures r.Ok? ==> |b.log| <= |r.value.log| && r.value.log[..|b.log|] == b.log
                      && TB.Mirror(b.text, r.value.log[|b.log|..]) == Ok(r.value.text)
  {
    CommandNotifiesListener(c, b.text);
    var t :- Unapply(c, b.text);
    assert (b.log + ReverseEvents(c))[|b.log|..] == ReverseEvents(c);
    Ok(TB.Buffer(t, b.log + ReverseEvents(c)))
  }

  /** A collection of one command does what that command does. */
  lemma SingletonCollection(c: Command, t: string)
    ensures Apply(Collection([c]), t) == Apply(c, t)
    ensures Unapply(Collection([c]), t) == Unapply(c, t)
    ensures ExecuteEvents(Collection([c])) == ExecuteEvents(c)
    ensures ReverseEvents(Collection([c])) == ReverseEvents(c)
  {
    var cs := [c];
    assert cs[0] == c && cs[|cs| - 1] == c && cs[1..] == [] && cs[..|cs| - 1] == [];
    var a := Apply(c, t);
    if a.Ok? {
      assert ApplyAll(cs[1..], a.value) == a;
    }
    assert ApplyAll(cs, t) == a;
    var u := Unapply(c, t);
    if u.Ok? {
      assert UnapplyAll(cs[..|cs| - 1], u.value) == u;
    }
    assert UnapplyAll(cs, t) == u;
    assert ExecuteEventsAll(cs) == ExecuteEvents(c) + ExecuteEventsAll([]);
    assert ReverseEventsAll(cs) == ReverseEvents(c) + ReverseEventsAll([]);
  }

  // ---------------------------------------------------------------------------------------
  // combine

  /** `c.combine(previous)`: the entry that replaces `previous` when the new command `c` is
      merged into it, or None (null) when they stay separate. */
  function Combine(c: Command, previous: Command): (r: Option<Command>)
    ensures r.Some? ==> && (c.StyledInsert? <==> previous.StyledInsert?)
                        && (c.StyledRemove? <==> previous.StyledRemove?)
                        && (c.Collection? <==> previous.Collection?)
                        && (c.StyledInsert? <==> r.value.StyledInsert?)
                        && (c.StyledRemove? <==> r.value.StyledRemove?)
    ensures r.Some? && !c.Collection? ==> c.combinable && previous.combinable
    ensures r.Some? && c.StyledInsert? ==>
              r.value == StyledInsert(previous.start, previous.changeStr + c.changeStr, None, true)
    ensures r.Some? && c.StyledRemove? ==>
              r.value == StyledRemove(c.start, c.changeStr + previous.changeStr, c.changeStr != "\n")
    ensures r.Some? && c.Collection? ==> r.value == Collection(previous.children + c.children)
    ensures c.StyledInsert? ==>
              (r.Some? <==> && c.combinable && c.changeStr != "\n"
                            && previous.StyledInsert? && previous.combinable
                            && c.start == previous.start + |previous.changeStr|)
    ensures c.StyledRemove? ==>
              (r.Some? <==> && c.combinable && previous.StyledRemove? && previous.combinable
                            && c.start + |c.changeStr| == previous.start)
    ensures c.Collection? ==> (r.Some? <==> previous.Collection?)
  {
    match c
    case StyledInsert(start, s, _, combinable) =>
      // only the NEW text is compared with "\n"
      if combinable && s != "\n" && previous.StyledInsert? && previous.combinable
         && start == previous.start + |previous.changeStr|
      then Some(StyledInsert(previous.start, previous.changeStr + s, None, true))
      else None
    case StyledRemove(start, s, combinable) =>
      if combinable && previous.StyledRemove? && previous.combinable && start + |s| == previous.start
      then Some(StyledRemove(start, s + previous.changeStr, s != "\n"))
      else None
    case Collection(cs) =>
      if previous.Collection? then Some(Collection(previous.children + cs)) else None
  }

  // ---------------------------------------------------------------------------------------
  // The body

  datatype StyledBody = StyledBody(base: TB.Body, commands: seq<Command>, nowState: History.Cursor)

  function Text(sb: StyledBody): string {
    sb.base.buf.text
  }

  /** The history invariant of a StyledTextBody whose styled history started at `origin`. */
  predicate Consistent(origin: string, sb: StyledBody) {
    History.Consistent(Apply, Unapply, origin, sb.commands, sb.nowState, Text(sb))
  }

  /** new StyledTextBody(): an empty text with two empty histories. */
  function New(): (sb: StyledBody)
    ensures Text(sb) == "" && sb.base.buf.log == []
    ensures Consistent("", sb) && TB.Consistent("", sb.base)
  {
    History.ConsistentInitial(Apply, Unapply, "");
    StyledBody(TB.New(""), [], -1)
  }

  /** StyledTextBody.nextState: drop the redo tail, merge `c` into the newest entry or append
      it, then execute `c` itself (not the merged entry). */
  function NextState(sb: StyledBody, c: Command): (r: Result<StyledBody>)
    ensures r.Ok? <==> Apply(c, Text(sb)).Ok?
    ensures r.Ok? ==> && Apply(c, Text(sb)) == Ok(Text(r.value))
                      && r.value.base.buf.log == sb.base.buf.log + ExecuteEvents(c)
                      && r.value.base.commands == sb.base.commands
                      && r.value.base.nowState == sb.base.nowState
    ensures r.Ok? ==> var kept := History.DropRedoTail(sb.commands, sb.nowState);
                      if |kept| > 0 && Combine(c, kept[|kept| - 1]).Some?
                      then && r.value.commands == kept[..|kept| - 1] + [Combine(c, kept[|kept| - 1]).value]
                           && r.value.nowState == sb.nowState
                      else && r.value.commands == kept + [c]
                           && r.value.nowState == sb.nowState + 1
    ensures r.Ok? && -1 <= sb.nowState < |sb.commands| ==> r.value.nowState == |r.value.commands| - 1
  {
    var kept := History.DropRedoTail(sb.commands, sb.nowState);
    var merged := if |kept| > 0 then Combine(c, kept[|kept| - 1]) else None;
    var commands := if merged.Some? then kept[..|kept| - 1] + [merged.value] else kept + [c];
    var nowState := if merged.Some? then sb.nowState else sb.nowState + 1;
    var buf :- Execute(c, sb.base.buf);
    Ok(StyledBody(sb.base.(buf := buf), commands, nowState))
  }

  /** The command insertStyledText builds: finished when the text is longer than one char. */
  function NewInsert(start: int, text: string, attributeSet: Option<Attr>): (r: Command)
    ensures r.StyledInsert? && Base(r) == TB.InsertCommand(start, text) && r.attributeSet == attributeSet
    ensures r.combinable <==> |text| <= 1
  {
    StyledInsert(start, text, attributeSet, !(|text| > 1))
  }

  /** The command removeStyledText builds from the text it is about to delete. */
  function NewRemove(t: string, start: int, length: int): (r: Result<Command>)
    ensures r.Ok? <==> 0 <= start && 0 <= length && start + length <= |t|
    ensures r.Ok? ==> r.value == StyledRemove(start, t[start..start + length], !(length > 1))
  {
    var removed :- TB.Substring(t, start, start + length);
    assert removed == t[start..start + length];
    Ok(StyledRemove(start, removed, !(length > 1)))
  }

  /** insertStyledText(start, text, attributeSet). */
  function InsertStyledText(sb: StyledBody, start: int, text: string, attributeSet: Option<Attr>)
    : (r: Result<StyledBody>)
    ensures r.Ok? <==> 0 <= start <= |Text(sb)|
    ensures r.Ok? ==> Text(r.value) == Text(sb)[..start] + text + Text(sb)[start..]
  {
    var r := NextState(sb, NewInsert(start, text, attributeSet));
    if r.Ok? then
      assert Text(r.value) == Text(sb)[..start] + text + Text(sb)[start..];
      r
    else r
  }

  /** forcedMergeInsertStyledText: the same insert wrapped in a one-element collection. */
  function ForcedMergeInsertStyledText(sb: StyledBody, start: int, text: string, attributeSet: Option<Attr>)
    : (r: Result<StyledBody>)
    ensures r.Ok? <==> 0 <= start <= |Text(sb)|
    ensures r.Ok? ==> Text(r.value) == Text(sb)[..start] + text + Text(sb)[start..]
  {
    SingletonCollection(NewInsert(start, text, attributeSet), Text(sb));
    var r := NextState(sb, Collection([NewInsert(start, text, attributeSet)]));
    if r.Ok? then
      assert Text(r.value) == Text(sb)[..start] + text + Text(sb)[start..];
      r
    else r
  }

  /** removeStyledText(start, length): the removed text is read first, so a bad range throws
      before anything changes. */
  function RemoveStyledText(sb: StyledBody, start: int, length: int): (r: Result<StyledBody>)
    ensures r.Ok? <==> 0 <= start && 0 <= length && start + length <= |Text(sb)|
    ensures r.Ok? ==> Text(r.value) == Text(sb)[..start] + Text(sb)[start + length..]
  {
    var c :- NewRemove(Text(sb), start, length);
    var r := NextState(sb, c);
    if r.Ok? then
      assert Text(r.value) == Text(sb)[..start] + Text(sb)[start + length..];
      r
    else r
  }

  /** forcedMergeRemoveStyledText: the same removal wrapped in a one-element collection. */
  function ForcedMergeRemoveStyledText(sb: StyledBody, start: int, length: int): (r: Result<StyledBody>)
    ensures r.Ok? <==> 0 <= start && 0 <= length && start + length <= |Text(sb)|
    ensures r.Ok? ==> Text(r.value) == Text(sb)[..start] + Text(sb)[start + length..]
  {
    var c :- NewRemove(Text(sb), start, length);
    SingletonCollection(c, Text(sb));
    var r := NextState(sb, Collection([c]));
    if r.Ok? then
      assert Text(r.value) == Text(sb)[..start] + Text(sb)[start + length..];
      r
    else r
  }

  /** StyledTextBody.reverse(): (false, unchanged) at nowState == -1; otherwise step the
      cursor back and reverse the entry it left. */
  function Reverse(sb: StyledBody): (r: Result<(bool, StyledBody)>)
    ensures sb.nowState == -1 ==> r == Ok((false, sb))
    ensures r.Ok? && !r.value.0 ==> r.value.1 == sb
    ensures r.Ok? && r.value.0 ==> && 0 <= sb.nowState < |sb.commands|
                                   && r.value.1.commands == sb.commands
                                   && r.value.1.nowState == sb.nowState - 1
                                   && Unapply(sb.commands[sb.nowState], Text(sb)) == Ok(Text(r.value.1))
                                   && r.value.1.base.commands == sb.base.commands
  {
    if sb.nowState == -1 then Ok((false, sb))
    else
      var nowState := sb.nowState - 1;
      if !(0 <= nowState + 1 < |sb.commands|) then Err(IndexOutOfBounds)
      else
        var buf :- ReverseExecution(sb.commands[nowState + 1], sb.base.buf);
        Ok((true, StyledBody(sb.base.(buf := buf), sb.commands, nowState)))
  }

  /** StyledTextBody.forward(): (false, unchanged) when there is no redo tail; otherwise
      advance the cursor and execute that entry again. */
  function Forward(sb: StyledBody): (r: Result<(bool, StyledBody)>)
    ensures sb.nowState + 1 >= |sb.commands| ==> r == Ok((false, sb))
    ensures r.Ok? && !r.value.0 ==> r.value.1 == sb
    ensures r.Ok? && r.value.0 ==> && 0 <= sb.nowState + 1 < |sb.commands|
                                   && r.value.1.commands == sb.commands
                                   && r.value.1.nowState == sb.nowState + 1
                                   && Apply(sb.commands[sb.nowState + 1], Text(sb)) == Ok(Text(r.value.1))
                                   && r.value.1.base.commands == sb.base.commands
  {
    if sb.nowState + 1 < |sb.commands| then
      var buf :- Execute(sb.commands[sb.nowState + 1], sb.base.buf);
      Ok((true, StyledBody(sb.base.(buf := buf), sb.commands, sb.nowState + 1)))
    else Ok((false, sb))
  }

  /** The inherited TextBody.insertText: it edits the shared text through the TextBody
      history and leaves the styled history as it was. */
  function PlainInsertText(sb: StyledBody, start: int, changeStr: string): (r: Result<StyledBody>)
    ensures r.Ok? <==> 0 <= start <= |Text(sb)|
    ensures r.Ok? ==> && Text(r.value) == Text(sb)[..start] + changeStr + Text(sb)[start..]
                      && r.value.commands == sb.commands && r.value.nowState == sb.nowState
                      && r.value.base.commands == History.DropRedoTail(sb.base.commands, sb.base.nowState)
                                                  + [TB.InsertCommand(start, changeStr)]
  {
    var base :- TB.InsertText(sb.base, start, changeStr);
    Ok(sb.(base := base))
  }

  /** The inherited TextBody.removeText, with the same separation of histories. */
  function PlainRemoveText(sb: StyledBody, start: int, length: int): (r: Result<StyledBody>)
    ensures r.Ok? <==> 0 <= start && 0 <= length && start + length <= |Text(sb)|
    ensures r.Ok? ==> && Text(r.value) == Text(sb)[..start] + Text(sb)[start + length..]
                      && r.value.commands == sb.commands && r.value.nowState == sb.nowState
                      && r.value.base.commands == History.DropRedoTail(sb.base.commands, sb.base.nowState)
                                                  + [TB.RemoveCommand(start, Text(sb)[start..start + length])]
  {
    var base :- TB.RemoveText(sb.base, start, length);
    Ok(sb.(base := base))
  }

  // ---------------------------------------------------------------------------------------
  // Properties of commands

  /** Running the children of `a + b` is running those of `a`, then those of `b`. */
  lemma {:induction false} ApplyAllAppend(a: seq<Command>, b: seq<Command>, t: string)
    ensures ApplyAll(a + b, t) == (if ApplyAll(a, t).Err? then ApplyAll(a, t) else ApplyAll(b, ApplyAll(a, t).value))
    decreases |a|
  {
    if |a| == 0 {
      assert a + b == b;
    } else {
      assert (a + b)[0] == a[0];
      assert (a + b)[1..] == a[1..] + b;
      var t1 := Apply(a[0], t);
      if t1.Ok? {
        ApplyAllAppend(a[1..], b, t1.value);
      }
    }
  }

  /** Reversing the children of `a + b` reverses those of `b`, then those of `a`. */
  lemma {:induction false} UnapplyAllAppend(a: seq<Command>, b: seq<Command>, t: string)
    ensures UnapplyAll(a + b, t) == (if UnapplyAll(b, t).Err? then UnapplyAll(b, t) else UnapplyAll(a, UnapplyAll(b, t).value))
    decreases |b|
  {
    if |b| == 0 {
      assert a + b == a;
    } else {
      var ab := a + b;
      assert ab[|ab| - 1] == b[|b| - 1];
      assert ab[..|ab| - 1] == a + b[..|b| - 1];
      var t1 := Unapply(b[|b| - 1], t);
      if t1.Ok? {
        UnapplyAllAppend(a, b[..|b| - 1], t1.value);
      }
    }
  }

  /** Inserting `nt` right after an inserted run `pt` is inserting `pt + nt` at once. */
  lemma InsertAfterInsert(u: string, ps: nat, pt: string, nt: string)
    requires ps <= |u|
    ensures var t := u[..ps] + pt + u[ps..];
            t[..ps + |pt|] + nt + t[ps + |pt|..] == u[..ps] + (pt + nt) + u[ps..]
  {
    var t := u[..ps] + pt + u[ps..];
    assert t[..ps + |pt|] == u[..ps] + pt;
    assert t[ps + |pt|..] == u[ps..];
  }

  /** Deleting the run just inserted gives back the original text. */
  lemma DeleteInserted(u: string, ps: nat, s: string)
    requires ps <= |u|
    ensures var t := u[..ps] + s + u[ps..];
            t[..ps] + t[ps + |s|..] == u
  {
    var t := u[..ps] + s + u[ps..];
    assert t[..ps] == u[..ps];
    assert t[ps + |s|..] == u[ps..];
  }

  /** Typing `nt` right after the inserted run `pt` is the same as inserting `pt + nt`. */
  lemma InsertMergeSound(ps: int, pt: string, nt: string, u: string, t: string, t': string)
    requires TB.ApplyEdit(TB.InsertCommand(ps, pt), u) == Ok(t)
    requires TB.ApplyEdit(TB.InsertCommand(ps + |pt|, nt), t) == Ok(t')
    ensures TB.ApplyEdit(TB.InsertCommand(ps, pt + nt), u) == Ok(t')
    ensures TB.UnapplyEdit(TB.InsertCommand(ps, pt + nt), t') == Ok(u)
  {
    assert 0 <= ps <= |u|;
    assert t == u[..ps] + pt + u[ps..];
    assert t' == t[..ps + |pt|] + nt + t[ps + |pt|..];
    InsertAfterInsert(u, ps, pt, nt);
    DeleteInserted(u, ps, pt + nt);
  }

  /** Removing `nt` right before a removed run `pt` is removing `nt + pt` at once. */
  lemma RemoveBeforeRemove(t': string, ns: nat, nt: string, pt: string)
    requires ns <= |t'|
    ensures var t := t'[..ns] + nt + t'[ns..];
            var u := t[..ns + |nt|] + pt + t[ns + |nt|..];
            u == t'[..ns] + (nt + pt) + t'[ns..]
  {
    var t := t'[..ns] + nt + t'[ns..];
    assert t[..ns + |nt|] == t'[..ns] + nt;
    assert t[ns + |nt|..] == t'[ns..];
  }

  /** Backspacing the run `nt` just before the removed run `pt` is the same as removing
      `nt + pt`, and reinserting that restores both runs in their original order. */
  lemma RemoveMergeSound(ns: int, nt: string, pt: string, u: string, t: string, t': string)
    requires TB.ApplyEdit(TB.RemoveCommand(ns + |nt|, pt), u) == Ok(t)
    requires TB.UnapplyEdit(TB.RemoveCommand(ns + |nt|, pt), t) == Ok(u)
    requires TB.ApplyEdit(TB.RemoveCommand(ns, nt), t) == Ok(t')
    requires TB.UnapplyEdit(TB.RemoveCommand(ns, nt), t') == Ok(t)
    ensures TB.ApplyEdit(TB.RemoveCommand(ns, nt + pt), u) == Ok(t')
    ensures TB.UnapplyEdit(TB.RemoveCommand(ns, nt + pt), t') == Ok(u)
  {
    assert 0 <= ns <= |t'|;
    assert t == t'[..ns] + nt + t'[ns..];
    assert u == t[..ns + |nt|] + pt + t[ns + |nt|..];
    RemoveBeforeRemove(t', ns, nt, pt);
    DeleteInserted(t', ns, nt + pt);
  }

  /** A merged entry does in one step what `previous` followed by `c` did, and its reverse
      restores the text from before `previous`: merging never changes what undo restores. */
  lemma MergeSound(c: Command, previous: Command, u: string, t: string, t': string)
    requires Combine(c, previous).Some?
    requires Apply(previous, u) == Ok(t) && Unapply(previous, t) == Ok(u)
    requires Apply(c, t) == Ok(t') && Unapply(c, t') == Ok(t)
    ensures Apply(Combine(c, previous).value, u) == Ok(t')
    ensures Unapply(Combine(c, previous).value, t') == Ok(u)
  {
    if c.StyledInsert? {
      StyledInsertMergeSound(c, previous, u, t, t');
    } else if c.StyledRemove? {
      StyledRemoveMergeSound(c, previous, u, t, t');
    } else {
      CollectionMergeSound(previous.children, c.children, u, t, t');
    }
  }

  /** A styled insert or remove acts on the text exactly as the TextBody command it extends. */
  lemma ActsAsBase(c: Command, t: string)
    requires !c.Collection?
    ensures Apply(c, t) == TB.ApplyEdit(Base(c), t)
    ensures Unapply(c, t) == TB.UnapplyEdit(Base(c), t)
  {
  }

  /** The insert merge, stated on the TextBody commands the two styled inserts extend. */
  lemma BaseInsertMerge(c: Command, previous: Command, u: string, t: string, t': string)
    requires c.StyledInsert? && previous.StyledInsert? && c.start == previous.start + |previous.changeStr|
    requires TB.ApplyEdit(Base(previous), u) == Ok(t)
    requires TB.ApplyEdit(Base(c), t) == Ok(t')
    ensures TB.ApplyEdit(TB.InsertCommand(previous.start, previous.changeStr + c.changeStr), u) == Ok(t')
    ensures TB.UnapplyEdit(TB.InsertCommand(previous.start, previous.changeStr + c.changeStr), t') == Ok(u)
  {
    assert Base(previous) == TB.InsertCommand(previous.start, previous.changeStr);
    assert Base(c) == TB.InsertCommand(previous.start + |previous.changeStr|, c.changeStr);
    InsertMergeSound(previous.start, previous.changeStr, c.changeStr, u, t, t');
  }

  /** The remove merge, stated on the TextBody commands the two styled removes extend. */
  lemma BaseRemoveMerge(c: Command, previous: Command, u: string, t: string, t': string)
    requires c.StyledRemove? && previous.StyledRemove? && c.start + |c.changeStr| == previous.start
    requires TB.ApplyEdit(Base(previous), u) == Ok(t) && TB.UnapplyEdit(Base(previous), t) == Ok(u)
    requires TB.ApplyEdit(Base(c), t) == Ok(t') && TB.UnapplyEdit(Base(c), t') == Ok(t)
    ensures TB.ApplyEdit(TB.RemoveCommand(c.start, c.changeStr + previous.changeStr), u) == Ok(t')
    ensures TB.UnapplyEdit(TB.RemoveCommand(c.start, c.changeStr + previous.changeStr), t') == Ok(u)
  {
    assert Base(previous) == TB.RemoveCommand(c.start + |c.changeStr|, previous.changeStr);
    assert Base(c) == TB.RemoveCommand(c.start, c.changeStr);
    RemoveMergeSound(c.start, c.changeStr, previous.changeStr, u, t, t');
  }

  lemma StyledInsertMergeSound(c: Command, previous: Command, u: string, t: string, t': string)
    requires c.StyledInsert? && Combine(c, previous).Some?
    requires Apply(previous, u) == Ok(t)
    requires Apply(c, t) == Ok(t')
    ensures Apply(Combine(c, previous).value, u) == Ok(t')
    ensures Unapply(Combine(c, previous).value, t') == Ok(u)
  {
    var m := Combine(c, previous).value;
    assert previous.StyledInsert? && c.start == previous.start + |previous.changeStr|;
    assert m == StyledInsert(previous.start, previous.changeStr + c.changeStr, None, true);
    ActsAsBase(previous, u);
    ActsAsBase(c, t);
    BaseInsertMerge(c, previous, u, t, t');
    ActsAsBase(m, u);
    ActsAsBase(m, t');
  }

  lemma StyledRemoveMergeSound(c: Command, previous: Command, u: string, t: string, t': string)
    requires c.StyledRemove? && Combine(c, previous).Some?
    requires Apply(previous, u) == Ok(t) && Unapply(previous, t) == Ok(u)
    requires Apply(c, t) == Ok(t') && Unapply(c, t') == Ok(t)
    ensures Apply(Combine(c, previous).value, u) == Ok(t')
    ensures Unapply(Combine(c, previous).value, t') == Ok(u)
  {
    var m := Combine(c, previous).value;
    assert previous.StyledRemove? && c.start + |c.changeStr| == previous.start;
    assert m.StyledRemove? && m.start == c.start && m.changeStr == c.changeStr + previous.changeStr;
    ActsAsBase(previous, u);
    ActsAsBase(previous, t);
    ActsAsBase(c, t);
    ActsAsBase(c, t');
    BaseRemoveMerge(c, previous, u, t, t');
    ActsAsBase(m, u);
    ActsAsBase(m, t');
  }

  /** Two collections merged run the earlier children first and reverse them last. */
  lemma CollectionMergeSound(a: seq<Command>, b: seq<Command>, u: string, t: string, t': string)
    requires ApplyAll(a, u) == Ok(t) && UnapplyAll(a, t) == Ok(u)
    requires ApplyAll(b, t) == Ok(t') && UnapplyAll(b, t') == Ok(t)
    ensures ApplyAll(a + b, u) == Ok(t') && UnapplyAll(a + b, t') == Ok(u)
  {
    ApplyAllAppend(a, b, u);
    UnapplyAllAppend(a, b, t');
  }

  /** A command executed and then reversed gives back the text it started from. */
  predicate RoundTrips(c: Command, t: string) {
    Apply(c, t).Ok? ==> Unapply(c, Apply(c, t).value) == Ok(t)
  }

  /** The commands insertStyledText and forcedMergeInsertStyledText build round-trip. */
  lemma InsertRoundTrips(start: int, text: string, attributeSet: Option<Attr>, t: string)
    ensures RoundTrips(NewInsert(start, text, attributeSet), t)
    ensures RoundTrips(Collection([NewInsert(start, text, attributeSet)]), t)
  {
    var c := NewInsert(start, text, attributeSet);
    if 0 <= start <= |t| {
      TB.InsertRoundTrip(t, start, text);
    }
    SingletonCollection(c, t);
    if Apply(c, t).Ok? {
      SingletonCollection(c, Apply(c, t).value);
    }
  }

  /** The commands removeStyledText and forcedMergeRemoveStyledText build from the current
      text round-trip, because they record exactly the slice they delete. */
  lemma RemoveRoundTrips(t: string, start: int, length: int)
    requires NewRemove(t, start, length).Ok?
    ensures RoundTrips(NewRemove(t, start, length).value, t)
    ensures RoundTrips(Collection([NewRemove(t, start, length).value]), t)
  {
    var c := NewRemove(t, start, length).value;
    TB.RemoveRoundTrip(t, start, c.changeStr);
    SingletonCollection(c, t);
    SingletonCollection(c, Apply(c, t).value);
  }

  /** A listener that mirrors every TextBody notification stays equal to the text, through
      execute and reverseExecution of any command, collections included. */
  lemma {:induction false} CommandNotifiesListener(c: Command, t: string)
    ensures Apply(c, t).Ok? ==> TB.Mirror(t, ExecuteEvents(c)) == Apply(c, t)
    ensures Unapply(c, t).Ok? ==> TB.Mirror(t, ReverseEvents(c)) == Unapply(c, t)
    decreases c
  {
    match c
    case Collection(cs) =>
      CommandsNotifyListener(cs, t);
    case _ =>
      var e := Base(c);
      TB.EditNotifiesListener(e, t);
      var style := ExecuteEvents(c)[|ExecuteEvents(c)| - 1];
      assert ExecuteEvents(c) == TB.ExecuteEvents(e) + [style];
      TB.MirrorAppend(t, TB.ExecuteEvents(e), [style]);
      var restyle := ReverseEvents(c)[|ReverseEvents(c)| - 1];
      assert ReverseEvents(c) == TB.ReverseEvents(e) + [restyle];
      TB.MirrorAppend(t, TB.ReverseEvents(e), [restyle]);
      if Apply(c, t).Ok? {
        assert TB.Mirror(Apply(c, t).value, [style]) == Apply(c, t);
      }
      if Unapply(c, t).Ok? {
        assert TB.Mirror(Unapply(c, t).value, [restyle]) == Unapply(c, t);
      }
  }

  lemma {:induction false} CommandsNotifyListener(cs: seq<Command>, t: string)
    ensures ApplyAll(cs, t).Ok? ==> TB.Mirror(t, ExecuteEventsAll(cs)) == ApplyAll(cs, t)
    ensures UnapplyAll(cs, t).Ok? ==> TB.Mirror(t, ReverseEventsAll(cs)) == UnapplyAll(cs, t)
    decreases cs
  {
    if |cs| > 0 {
      var first, last := cs[0], cs[|cs| - 1];
      CommandNotifiesListener(first, t);
      TB.MirrorAppend(t, ExecuteEvents(first), ExecuteEventsAll(cs[1..]));
      if Apply(first, t).Ok? {
        CommandsNotifyListener(cs[1..], Apply(first, t).value);
      }
      CommandNotifiesListener(last, t);
      TB.MirrorAppend(t, ReverseEvents(last), ReverseEventsAll(cs[..|cs| - 1]));
      if Unapply(last, t).Ok? {
        CommandsNotifyListener(cs[..|cs| - 1], Unapply(last, t).value);
      }
    }
  }

  /** A finished command neither absorbs the next command nor is absorbed by it. */
  lemma FinishedNeverMerges(c: Command, previous: Command)
    ensures !c.Collection? && !c.combinable ==> Combine(c, previous) == None
    ensures !previous.Collection? && !previous.combinable ==> Combine(c, previous) == None
  {
  }

  /** A pasted text (longer than one character) stays one undo step of its own. */
  lemma PasteIsAtomic(start: int, text: string, attributeSet: Option<Attr>, other: Command)
    requires |text| > 1
    ensures Combine(NewInsert(start, text, attributeSet), other) == None
    ensures !other.Collection? ==> Combine(other, NewInsert(start, text, attributeSet)) == None
  {
  }

  /** Removing a selection (more than one character) stays one undo step of its own. */
  lemma SelectionRemovalIsAtomic(t: string, start: int, length: int, other: Command)
    requires length > 1 && NewRemove(t, start, length).Ok?
    ensures Combine(NewRemove(t, start, length).value, other) == None
    ensures !other.Collection? ==> Combine(other, NewRemove(t, start, length).value) == None
  {
  }

  /** Plain inserts and removes never merge with a collection, in either position. */
  lemma CollectionsMergeOnlyWithCollections(c: Command, previous: Command)
    ensures c.Collection? != previous.Collection? ==> Combine(c, previous) == None
    ensures c.Collection? && previous.Collection? ==> Combine(c, previous) == Some(Collection(previous.children + c.children))
  {
  }
}
