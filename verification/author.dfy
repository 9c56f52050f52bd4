/**
 The label shown above each message and the check that singles out the
 site owner's messages for the accented "OFFICIAL" styling.
 */
module Author {
  import opened Wrappers

  /** The placeholder label, "匿名" ("anonymous"). */
  const Anonymous: string := "\U{533F}\U{540D}"

  /** The client id whose messages are styled as the administrator's. */
  const AdminClientId: string := "taiga3537"

  /**
   `message.clientId || "匿名"`: the client id when it is present and non-empty
   (JavaScript's `||` also falls back on the empty string), the placeholder otherwise.
   */
  function AuthorLabel(clientId: Option<string>): (name: string)
    ensures name != ""
    ensures name == Anonymous || clientId == Some(name)
    ensures clientId.Some? && clientId.value != "" ==> name == clientId.value
  {
    match clientId
    case Some(id) => if id != "" then id else Anonymous
    case None => Anonymous
  }

  /**
   `authorName === 'taiga3537'`, decided on the label: a message gets the
   administrator styling exactly when its client id is the administrator's.
   */
  function IsAdmin(clientId: Option<string>): (admin: bool)
    ensures admin <==> clientId == Some(AdminClientId)
  {
    LabelIsAdminExactly(clientId);
    AuthorLabel(clientId) == AdminClientId
  }

  /** The label equals the administrator's id exactly when the client id does; the placeholder never does. */
  lemma LabelIsAdminExactly(clientId: Option<string>)
    ensures AuthorLabel(clientId) == AdminClientId <==> clientId == Some(AdminClientId)
  {
    assert Anonymous != AdminClientId by {
      assert Anonymous[0] != AdminClientId[0];
    }
  }
}
