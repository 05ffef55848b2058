/** The per-message decisions and input guards of
    client/src/Components/MessagePanel.jsx: whose message a row is, what the send
    and edit inputs turn into, and when the actions and the "(edited)" tag show. */
module MessagePanel {
  import opened Wrappers
  import opened Identity
  import opened MessageModel
  import Text

  /** The logged-in user as the panel receives it: the `id`, `_id` and `email`
      fields, each "" when absent. */
  datatype CurrentUser = CurrentUser(id: Id, altId: Id, email: string)

  /** `[currentUser.id, currentUser._id, currentUser.email].filter(Boolean)`. */
  function CurrentIds(cur: CurrentUser): (r: seq<string>)
    ensures forall x :: x in r <==> x != "" && (x == cur.id || x == cur.altId || x == cur.email)
  {
    (if cur.id != "" then [cur.id] else [])
    + (if cur.altId != "" then [cur.altId] else [])
    + (if cur.email != "" then [cur.email] else [])
  }

  /** `isSentByCurrentUser`: the row's sender is one of the current user's present
      identifiers. */
  predicate SentByCurrentUser(m: Message, cur: CurrentUser)
    ensures SentByCurrentUser(m, cur) ==> m.sender != ""
  {
    m.sender in CurrentIds(cur)
  }

  /** A row is the current user's exactly when its sender is non-empty and equals
      the user's `id`, `_id` or `email`. */
  lemma SentByCurrentUserIff(m: Message, cur: CurrentUser)
    ensures SentByCurrentUser(m, cur) <==>
      m.sender != "" && (m.sender == cur.id || m.sender == cur.altId || m.sender == cur.email)
  {
  }

  /** `handleSend`: a blank input, or no open partner, sends nothing; otherwise the
      trimmed text is sent, and it is never blank. */
  function SendInput(text: string, hasPartner: bool): (r: Option<string>)
    ensures r.Some? <==> hasPartner && !Text.IsBlank(text)
    ensures r.Some? ==> r.value == Text.Trim(text) && r.value != ""
  {
    Text.TrimEmptyIffBlank(text);
    if Text.Trim(text) == "" || !hasPartner then None else Some(Text.Trim(text))
  }

  /** `handleEdit`: a cancelled or empty prompt, or an input whose trimmed form is
      the current text, edits nothing; otherwise the trimmed input is sent. */
  function EditInput(input: Option<string>, current: string): (r: Option<string>)
    ensures r.None? <==> input.None? || input.value == "" || Text.Trim(input.value) == current
    ensures r.Some? ==> r.value == Text.Trim(input.value) && r.value != current
  {
    match input
    case None => None
    case Some(s) => if s == "" || Text.Trim(s) == current then None else Some(Text.Trim(s))
  }

  /** As written, a non-empty blank prompt answer passes the edit guard and sends an
      empty text (the send guard checks the trimmed text, the edit guard does not). */
  lemma BlankEditPassesGuard(input: string, current: string)
    requires input != "" && Text.IsBlank(input) && current != ""
    ensures EditInput(Some(input), current) == Some("")
  {
    Text.TrimEmptyIffBlank(input);
  }

  /** The edit and delete buttons show for the current user's rows that are not
      deleted. */
  predicate ShowsActions(m: Message, cur: CurrentUser)
    ensures ShowsActions(m, cur) ==> m.sender != "" && !m.deleted
  {
    SentByCurrentUser(m, cur) && !m.deleted
  }

  /** The "(edited)" tag shows for edited rows that are not deleted. */
  predicate ShowsEditedTag(m: Message)
    ensures ShowsEditedTag(m) ==> m.edited
    ensures m.deleted ==> !ShowsEditedTag(m)
  {
    m.edited && !m.deleted
  }

  /** A deleted row shows neither the actions nor the edited tag, and a row that
      shows actions belongs to someone with a present identifier. */
  lemma DeletedRowsAreInert(m: Message, cur: CurrentUser)
    ensures m.deleted ==> !ShowsActions(m, cur) && !ShowsEditedTag(m)
    ensures ShowsActions(m, cur) ==> m.sender != "" && !m.deleted
  {
  }
}
