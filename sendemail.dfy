/**
 * The server action behind the mass-email page: it splits the recipient
 * string back into addresses, builds one Mailgun message addressed to all
 * of them with a per-recipient variables object, and reports how many
 * emails were queued.
 */
module SendEmail {
  import opened Seqs
  import opened Text

  /** The separator the page joins recipients with. */
  const RecipientSeparator: string := ", "

  const Sender: string := "Charles River Tennis Club <info@charlesrivertennisclub.com>"

  /** `recipientString.split(", ").map((email) => email.trim())`. */
  function RecipientList(recipients: string): (list: seq<string>)
    ensures |list| == |Split(recipients, RecipientSeparator)| && |list| > 0
    ensures forall k :: 0 <= k < |list| ==> list[k] == Trim(Split(recipients, RecipientSeparator)[k])
  {
    var parts := Split(recipients, RecipientSeparator);
    seq(|parts|, k requires 0 <= k < |parts| => Trim(parts[k]))
  }

  /**
   * The `reduce` that builds `recipient-variables`: each address in turn is
   * given the object `{id: 1}`, here its `id`.
   */
  function RecipientVariables(list: seq<string>): map<string, int> {
    if |list| == 0 then map[]
    else RecipientVariables(list[..|list| - 1])[list[|list| - 1] := 1]
  }

  /** Its keys are exactly the distinct addresses, each mapped to `{id: 1}`. */
  lemma {:induction false} RecipientVariablesKeys(list: seq<string>)
    ensures forall e :: e in RecipientVariables(list) <==> e in list
    ensures forall e :: e in RecipientVariables(list) ==> RecipientVariables(list)[e] == 1
  {
    if |list| > 0 {
      var init := list[..|list| - 1];
      RecipientVariablesKeys(init);
      assert list == init + [list[|list| - 1]];
    }
  }

  /** The message handed to Mailgun. */
  datatype Message = Message(
    from: string,
    to: seq<string>,
    subject: string,
    html: string,
    variables: map<string, int>)

  function MessageOf(subject: string, body: string, recipients: string): (m: Message)
    ensures m.from == Sender && m.subject == subject && m.html == body
    ensures m.to == RecipientList(recipients)
  {
    var list := RecipientList(recipients);
    Message(Sender, list, subject, body, RecipientVariables(list))
  }

  /** The action's answer: `{success, message}` or `{success: false}`. */
  datatype SendResult = SendResult(success: bool, message: Option<string>)

  /**
   * `sendMassEmail`: `queued` is whether Mailgun accepted the message; a
   * failure is reported in the result rather than thrown.
   */
  function SendMassEmail(subject: string, body: string, recipients: string, queued: bool): (r: SendResult)
    ensures r.success == queued
    ensures !queued ==> r.message.None?
    ensures queued ==> r.message == Some("Successfully queued " + NatToString(|MessageOf(subject, body, recipients).to|) + " emails.")
  {
    var message := MessageOf(subject, body, recipients);
    if queued then SendResult(true, Some("Successfully queued " + NatToString(|message.to|) + " emails."))
    else SendResult(false, None)
  }

  /**
   * The count is of addresses, not of distinct addresses: a repeated address
   * is counted twice but has one variables entry.
   */
  lemma CountIncludesDuplicates(e: string)
    requires |e| > 0 && forall k :: 0 <= k < |e| ==> !IsSpace(e[k]) && e[k] != ','
    ensures RecipientList(e + ", " + e) == [e, e]
    ensures SendMassEmail("", "", e + ", " + e, true).message == Some("Successfully queued 2 emails.")
    ensures RecipientVariables(RecipientList(e + ", " + e)).Keys == {e}
  {
    DoubledList(e);
    QueuedTwo(e + ", " + e);
    DoubledVariables(e);
  }

  lemma QueuedTwo(recipients: string)
    requires |RecipientList(recipients)| == 2
    ensures SendMassEmail("", "", recipients, true).message == Some("Successfully queued 2 emails.")
  {
    assert |MessageOf("", "", recipients).to| == 2;
    assert NatToString(2) == "2";
    assert "Successfully queued " + "2" + " emails." == "Successfully queued 2 emails.";
  }

  lemma DoubledList(e: string)
    requires |e| > 0 && forall k :: 0 <= k < |e| ==> !IsSpace(e[k]) && e[k] != ','
    ensures RecipientList(e + ", " + e) == [e, e]
  {
    NoSepCharSplitsCleanly(e, RecipientSeparator);
    SplitJoin([e, e], RecipientSeparator);
    assert Join([e, e], RecipientSeparator) == e + ", " + e by {
      assert [e, e][1..] == [e];
    }
    TrimmedAlready(e);
  }

  lemma DoubledVariables(e: string)
    ensures RecipientVariables([e, e]) == map[e := 1]
  {
    assert [e, e][..1] == [e];
    assert [e][..0] == [];
    assert RecipientVariables([e]) == map[e := 1];
  }

  /** An empty recipient string still yields one (empty) address. */
  lemma EmptyStringOneRecipient()
    ensures RecipientList("") == [""]
    ensures SendMassEmail("", "", "", true).message == Some("Successfully queued 1 emails.")
  {
    assert IndexOf("", RecipientSeparator).None?;
    assert RecipientList("") == [""];
    assert |MessageOf("", "", "").to| == 1;
    assert NatToString(1) == "1";
    assert "Successfully queued " + "1" + " emails." == "Successfully queued 1 emails.";
  }
}
