/** The bookkeeping shared by TextBody and StyledTextBody: a list of commands and a cursor
    `nowState` (-1 when nothing is applied). The module is generic in the command type; what a
    command does to the text is passed in as `apply` (execute) and `unapply` (reverseExecution).

    `Consistent` is the invariant of a well-used history: replaying the commands from an origin
    text gives a chain of texts, every command is undone by its reverse, and the current text is
    the one after command `nowState`. The lemmas show that commits, undo and redo keep it. */
module History {
  import opened Results

  /** The values nowState takes: it starts at -1, every step back is guarded by
      `nowState != -1`, and every other change adds one, so it never drops below -1. */
  type Cursor = n: int | -1 <= n

  /** The entries a commit keeps: both nextState methods delete, from the back, every entry
      whose index is greater than nowState. */
  function DropRedoTail<C>(commands: seq<C>, nowState: Cursor): (kept: seq<C>)
    ensures |kept| <= |commands| && kept == commands[..|kept|]
    ensures nowState < |commands| ==> |kept| == nowState + 1
    ensures nowState >= |commands| ==> kept == commands
  {
    if nowState < 0 then []
    else if nowState + 1 >= |commands| then commands
    else commands[..nowState + 1]
  }

  /** The texts obtained by executing `commands` one after the other from `origin`:
      element i is the text before command i, the last element the text after all of them. */
  function Replay<C>(apply: (C, string) -> Result<string>, origin: string, commands: seq<C>)
    : (r: Result<seq<string>>)
    ensures r.Ok? ==> |r.value| == |commands| + 1 && r.value[0] == origin
    ensures r.Ok? ==> forall i :: 0 <= i < |commands| ==> apply(commands[i], r.value[i]) == Ok(r.value[i + 1])
    decreases |commands|
  {
    if |commands| == 0 then Ok([origin])
    else
      var before :- Replay(apply, origin, commands[..|commands| - 1]);
      var after :- apply(commands[|commands| - 1], before[|before| - 1]);
      Ok(before + [after])
  }

  /** The invariant of a history reached by commits, undos and redos from `origin`. */
  predicate Consistent<C>(apply: (C, string) -> Result<string>, unapply: (C, string) -> Result<string>,
                          origin: string, commands: seq<C>, nowState: int, text: string)
  {
    && -1 <= nowState < |commands|
    && Replay(apply, origin, commands).Ok?
    && var texts := Replay(apply, origin, commands).value;
       && text == texts[nowState + 1]
       && forall i :: 0 <= i < |commands| ==> unapply(commands[i], texts[i + 1]) == Ok(texts[i])
  }

  /** Replaying a prefix of the commands gives the matching prefix of the texts. */
  lemma {:induction false} ReplayPrefix<C>(apply: (C, string) -> Result<string>, origin: string,
                                           commands: seq<C>, k: nat)
    requires Replay(apply, origin, commands).Ok?
    requires k <= |commands|
    ensures Replay(apply, origin, commands[..k]) == Ok(Replay(apply, origin, commands).value[..k + 1])
    decreases |commands|
  {
    var n := |commands|;
    if k == n {
      assert commands[..k] == commands;
      assert Replay(apply, origin, commands).value[..k + 1] == Replay(apply, origin, commands).value;
    } else {
      var before := Replay(apply, origin, commands[..n - 1]).value;
      assert Replay(apply, origin, commands).value[..n] == before;
      ReplayPrefix(apply, origin, commands[..n - 1], k);
      assert commands[..n - 1][..k] == commands[..k];
      assert before[..k + 1] == Replay(apply, origin, commands).value[..k + 1];
    }
  }

  /** Replaying one more command extends the chain of texts by its result. */
  lemma ReplayExtend<C>(apply: (C, string) -> Result<string>, origin: string, commands: seq<C>,
                        c: C, next: string)
    requires Replay(apply, origin, commands).Ok?
    requires apply(c, Replay(apply, origin, commands).value[|commands|]) == Ok(next)
    ensures Replay(apply, origin, commands + [c]) == Ok(Replay(apply, origin, commands).value + [next])
  {
    assert (commands + [c])[..|commands|] == commands;
  }

  /** A fresh history is consistent with its own text as origin. */
  lemma ConsistentInitial<C>(apply: (C, string) -> Result<string>, unapply: (C, string) -> Result<string>,
                             origin: string)
    ensures Consistent(apply, unapply, origin, [], -1, origin)
  {
  }

  /** Committing a command that is undone by its own reverse, as a new entry after the redo
      tail is dropped, keeps the history consistent. */
  lemma CommitAppend<C>(apply: (C, string) -> Result<string>, unapply: (C, string) -> Result<string>,
                        origin: string, commands: seq<C>, nowState: int, text: string, c: C, next: string)
    requires Consistent(apply, unapply, origin, commands, nowState, text)
    requires apply(c, text) == Ok(next) && unapply(c, next) == Ok(text)
    ensures Consistent(apply, unapply, origin, DropRedoTail(commands, nowState) + [c], nowState + 1, next)
  {
    var texts := Replay(apply, origin, commands).value;
    var kept := DropRedoTail(commands, nowState);
    assert kept == commands[..nowState + 1];
    ReplayPrefix(apply, origin, commands, nowState + 1);
    ReplayExtend(apply, origin, kept, c, next);
    var texts' := texts[..nowState + 2] + [next];
    assert Replay(apply, origin, kept + [c]) == Ok(texts');
    forall i | 0 <= i < |kept + [c]|
      ensures unapply((kept + [c])[i], texts'[i + 1]) == Ok(texts'[i])
    {
      if i < |kept| {
        assert (kept + [c])[i] == commands[i];
        assert texts'[i] == texts[i] && texts'[i + 1] == texts[i + 1];
      }
    }
  }

  /** Replacing the newest applied entry by a command `m` that goes from the text before that
      entry straight to the new text, and back, keeps the history consistent. */
  lemma CommitReplace<C>(apply: (C, string) -> Result<string>, unapply: (C, string) -> Result<string>,
                         origin: string, commands: seq<C>, nowState: int, text: string,
                         m: C, prior: string, next: string)
    requires Consistent(apply, unapply, origin, commands, nowState, text)
    requires 0 <= nowState
    requires unapply(commands[nowState], text) == Ok(prior)
    requires apply(m, prior) == Ok(next) && unapply(m, next) == Ok(prior)
    ensures Consistent(apply, unapply, origin, DropRedoTail(commands, nowState)[..nowState] + [m], nowState, next)
  {
    var texts := Replay(apply, origin, commands).value;
    var kept := DropRedoTail(commands, nowState)[..nowState];
    assert kept == commands[..nowState];
    assert prior == texts[nowState];
    ReplayPrefix(apply, origin, commands, nowState);
    ReplayExtend(apply, origin, kept, m, next);
    var texts' := texts[..nowState + 1] + [next];
    assert Replay(apply, origin, kept + [m]) == Ok(texts');
    forall i | 0 <= i < |kept + [m]|
      ensures unapply((kept + [m])[i], texts'[i + 1]) == Ok(texts'[i])
    {
      if i < |kept| {
        assert (kept + [m])[i] == commands[i];
        assert texts'[i] == texts[i] && texts'[i + 1] == texts[i + 1];
      }
    }
  }

  /** Undo from a consistent history succeeds and lands on the previous text of the chain. */
  lemma UndoStep<C>(apply: (C, string) -> Result<string>, unapply: (C, string) -> Result<string>,
                    origin: string, commands: seq<C>, nowState: int, text: string)
    requires Consistent(apply, unapply, origin, commands, nowState, text)
    requires nowState != -1
    ensures unapply(commands[nowState], text) == Ok(Replay(apply, origin, commands).value[nowState])
    ensures Consistent(apply, unapply, origin, commands, nowState - 1, Replay(apply, origin, commands).value[nowState])
  {
  }

  /** Redo from a consistent history with a redo tail succeeds and lands on the next text. */
  lemma RedoStep<C>(apply: (C, string) -> Result<string>, unapply: (C, string) -> Result<string>,
                    origin: string, commands: seq<C>, nowState: int, text: string)
    requires Consistent(apply, unapply, origin, commands, nowState, text)
    requires nowState + 1 < |commands|
    ensures apply(commands[nowState + 1], text) == Ok(Replay(apply, origin, commands).value[nowState + 2])
    ensures Consistent(apply, unapply, origin, commands, nowState + 1, Replay(apply, origin, commands).value[nowState + 2])
  {
  }
}
