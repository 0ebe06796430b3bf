/** The notifications a text body sends to its two listeners. The listeners themselves are
    not modelled: every notification is appended to an event log instead. */
module Notify {
  import opened Results

  /** An opaque stand-in for a Swing AttributeSet; `None` is a null attribute set. */
  datatype Attr = Attr(id: nat)

  datatype Event =
    // TextBody.TextChangeListener
    | InsertChange(start: int, text: string)
    | RemoveChange(start: int, length: int)
    // StyledTextBody.StyledChangeListener
    | ChangeStyledText(start: int, text: string, attributeSet: Option<Attr>)
    | RemoveStyledText(start: int, text: string)
}
