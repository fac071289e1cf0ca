/**
 * The admin mass-email page: the administrator ticks recipient groups
 * (active members, the waitlist, and each league's roster), the page works
 * out the distinct addresses of the ticked groups, and sending passes them
 * to the server action as one ", "-joined string.
 */
module MassEmail {
  import opened Seqs
  import opened Text
  import opened Types
  import opened SendEmail

  const ActiveGroup: string := "active"
  const WaitlistGroup: string := "waitlist"

  /** The group id of a league's roster, `league-<id>`. */
  function LeagueGroup(league: League): (id: string)
    ensures |id| == 7 + |league.id| && id[..7] == "league-" && id[7..] == league.id
  {
    "league-" + league.id
  }

  /** The members' addresses, in order. */
  function MemberEmails(members: seq<Member>): (emails: seq<string>)
    ensures |emails| == |members|
    ensures forall k :: 0 <= k < |members| ==> emails[k] == members[k].email
  {
    seq(|members|, k requires 0 <= k < |members| => members[k].email)
  }

  /** `e.members?.email`, when it is present and not empty. */
  function EnrollmentEmail(e: LeagueEnrollment): Option<string> {
    if e.members.Some? && e.members.value.email != "" then Some(e.members.value.email) else None
  }

  /** The roster addresses the page adds: entries without an address are skipped. */
  function RosterEmails(roster: seq<LeagueEnrollment>): seq<string> {
    if |roster| == 0 then []
    else
      var init := RosterEmails(roster[..|roster| - 1]);
      match EnrollmentEmail(roster[|roster| - 1])
      case Some(email) => init + [email]
      case None => init
  }

  lemma {:induction false} RosterEmailsMembers(roster: seq<LeagueEnrollment>, x: string)
    ensures x in RosterEmails(roster) <==> exists k :: 0 <= k < |roster| && EnrollmentEmail(roster[k]) == Some(x)
  {
    if |roster| > 0 {
      var n := |roster| - 1;
      RosterEmailsMembers(roster[..n], x);
      if exists k :: 0 <= k < |roster| && EnrollmentEmail(roster[k]) == Some(x) {
        var k :| 0 <= k < |roster| && EnrollmentEmail(roster[k]) == Some(x);
        if k < n {
          assert roster[..n][k] == roster[k];
        }
      }
      if exists k :: 0 <= k < n && EnrollmentEmail(roster[..n][k]) == Some(x) {
        var k :| 0 <= k < n && EnrollmentEmail(roster[..n][k]) == Some(x);
        assert roster[k] == roster[..n][k];
      }
    }
  }

  /** `leagueRosterResults[i]?.data?.data ?? []`. */
  function RosterAt(rosters: seq<Option<seq<LeagueEnrollment>>>, i: int): seq<LeagueEnrollment> {
    if 0 <= i < |rosters| && rosters[i].Some? then rosters[i].value else []
  }

  /** The addresses the first `n` leagues contribute, in order. */
  function LeagueEmails(selected: seq<string>, leagues: seq<League>,
                        rosters: seq<Option<seq<LeagueEnrollment>>>, n: nat): seq<string>
    requires n <= |leagues|
  {
    if n == 0 then []
    else
      var before := LeagueEmails(selected, leagues, rosters, n - 1);
      if LeagueGroup(leagues[n - 1]) in selected then before + RosterEmails(RosterAt(rosters, n - 1))
      else before
  }

  lemma {:induction false} LeagueEmailsMembers(selected: seq<string>, leagues: seq<League>,
                                               rosters: seq<Option<seq<LeagueEnrollment>>>, n: nat, x: string)
    requires n <= |leagues|
    ensures x in LeagueEmails(selected, leagues, rosters, n) <==>
            exists i :: 0 <= i < n && LeagueGroup(leagues[i]) in selected && x in RosterEmails(RosterAt(rosters, i))
  {
    if n > 0 {
      LeagueEmailsMembers(selected, leagues, rosters, n - 1, x);
    }
  }

  /** The active members' addresses when "active" is ticked. */
  function ActiveEmails(selected: seq<string>, active: seq<Member>): seq<string> {
    if ActiveGroup in selected then MemberEmails(active) else []
  }

  /** The waitlisted members' addresses when "waitlist" is ticked. */
  function WaitlistEmails(selected: seq<string>, waitlist: seq<Member>): seq<string> {
    if WaitlistGroup in selected then MemberEmails(waitlist) else []
  }

  /** The addresses of the ticked member groups: active members first, then the waitlist. */
  function GroupEmails(selected: seq<string>, active: seq<Member>, waitlist: seq<Member>): seq<string> {
    ActiveEmails(selected, active) + WaitlistEmails(selected, waitlist)
  }

  /** One more league appends its roster's addresses when it is ticked, and nothing otherwise. */
  lemma LeagueEmailsStep(groups: seq<string>, selected: seq<string>, leagues: seq<League>,
                         rosters: seq<Option<seq<LeagueEnrollment>>>, i: nat)
    requires i < |leagues|
    ensures LeagueGroup(leagues[i]) in selected ==>
              groups + LeagueEmails(selected, leagues, rosters, i + 1) ==
              groups + LeagueEmails(selected, leagues, rosters, i) + RosterEmails(RosterAt(rosters, i))
    ensures LeagueGroup(leagues[i]) !in selected ==>
              LeagueEmails(selected, leagues, rosters, i + 1) == LeagueEmails(selected, leagues, rosters, i)
  {
  }

  /** Every address the ticked groups contribute, in the order the page adds them. */
  function Candidates(selected: seq<string>, active: seq<Member>, waitlist: seq<Member>,
                      leagues: seq<League>, rosters: seq<Option<seq<LeagueEnrollment>>>): seq<string>
  {
    GroupEmails(selected, active, waitlist) + LeagueEmails(selected, leagues, rosters, |leagues|)
  }

  /** `emails.forEach((e) => emailSet.add(e))` as a value. */
  function AddEach(emailSet: seq<string>, emails: seq<string>): seq<string> {
    if |emails| == 0 then emailSet
    else SetAdd(AddEach(emailSet, emails[..|emails| - 1]), emails[|emails| - 1])
  }

  lemma {:induction false} AddEachAppend(emailSet: seq<string>, a: seq<string>, b: seq<string>)
    ensures AddEach(emailSet, a + b) == AddEach(AddEach(emailSet, a), b)
  {
    if |b| == 0 {
      assert a + b == a;
    } else {
      var n := |b| - 1;
      AddEachAppend(emailSet, a, b[..n]);
      assert (a + b)[..|a + b| - 1] == a + b[..n];
      assert (a + b)[|a + b| - 1] == b[n];
      assert AddEach(emailSet, a + b) == SetAdd(AddEach(emailSet, a + b[..n]), b[n]);
    }
  }

  /** The set stays duplicate-free and ends up holding exactly the old and the added addresses. */
  lemma {:induction false} AddEachMembers(emailSet: seq<string>, emails: seq<string>, x: string)
    requires NoDuplicates(emailSet)
    ensures NoDuplicates(AddEach(emailSet, emails))
    ensures x in AddEach(emailSet, emails) <==> x in emailSet || x in emails
  {
    if |emails| > 0 {
      var n := |emails| - 1;
      AddEachMembers(emailSet, emails[..n], x);
      assert x in emails <==> x in emails[..n] || x == emails[n] by {
        assert emails == emails[..n] + [emails[n]];
      }
    }
  }

  /** The `forEach` loop adding each address to the set. */
  method AddAll(emailSet: seq<string>, emails: seq<string>) returns (result: seq<string>)
    ensures result == AddEach(emailSet, emails)
  {
    result := emailSet;
    var k := 0;
    while k < |emails|
      invariant 0 <= k <= |emails|
      invariant result == AddEach(emailSet, emails[..k])
    {
      assert emails[..k + 1][..k] == emails[..k];
      result := SetAdd(result, emails[k]);
      k := k + 1;
    }
    assert emails[..k] == emails;
  }

  /** The active-members and waitlist part of `recipientEmails`. */
  method AddMemberGroups(selected: seq<string>, active: seq<Member>, waitlist: seq<Member>)
    returns (emails: seq<string>)
    ensures emails == AddEach([], GroupEmails(selected, active, waitlist))
  {
    emails := [];
    if ActiveGroup in selected {
      emails := AddAll(emails, MemberEmails(active));
    }
    assert emails == AddEach([], ActiveEmails(selected, active));
    if WaitlistGroup in selected {
      emails := AddAll(emails, MemberEmails(waitlist));
    }
    assert emails == AddEach(AddEach([], ActiveEmails(selected, active)), WaitlistEmails(selected, waitlist));
    AddEachAppend([], ActiveEmails(selected, active), WaitlistEmails(selected, waitlist));
  }

  /** `recipientEmails`: the ticked groups' addresses, each kept once, in first-seen order. */
  method RecipientEmails(selected: seq<string>, active: seq<Member>, waitlist: seq<Member>,
                         leagues: seq<League>, rosters: seq<Option<seq<LeagueEnrollment>>>)
    returns (emails: seq<string>)
    ensures emails == AddEach([], Candidates(selected, active, waitlist, leagues, rosters))
  {
    emails := AddMemberGroups(selected, active, waitlist);
    ghost var groups := GroupEmails(selected, active, waitlist);
    assert groups + LeagueEmails(selected, leagues, rosters, 0) == groups;
    var i := 0;
    while i < |leagues|
      invariant 0 <= i <= |leagues|
      invariant emails == AddEach([], groups + LeagueEmails(selected, leagues, rosters, i))
    {
      ghost var added := groups + LeagueEmails(selected, leagues, rosters, i);
      LeagueEmailsStep(groups, selected, leagues, rosters, i);
      if LeagueGroup(leagues[i]) in selected {
        var roster := RosterEmails(RosterAt(rosters, i));
        emails := AddAll(emails, roster);
        AddEachAppend([], added, roster);
      }
      i := i + 1;
    }
  }

  /**
   * The recipients are duplicate-free, and an address is one of them exactly
   * when it belongs to an active member with "active" ticked, to a waitlisted
   * member with "waitlist" ticked, or to a roster entry of a ticked league.
   */
  lemma RecipientsMembers(selected: seq<string>, active: seq<Member>, waitlist: seq<Member>,
                          leagues: seq<League>, rosters: seq<Option<seq<LeagueEnrollment>>>, x: string)
    ensures NoDuplicates(AddEach([], Candidates(selected, active, waitlist, leagues, rosters)))
    ensures x in AddEach([], Candidates(selected, active, waitlist, leagues, rosters)) <==>
            (ActiveGroup in selected && exists k :: 0 <= k < |active| && active[k].email == x) ||
            (WaitlistGroup in selected && exists k :: 0 <= k < |waitlist| && waitlist[k].email == x) ||
            (exists i :: 0 <= i < |leagues| && LeagueGroup(leagues[i]) in selected &&
                         exists k :: 0 <= k < |RosterAt(rosters, i)| && EnrollmentEmail(RosterAt(rosters, i)[k]) == Some(x))
  {
    var c := Candidates(selected, active, waitlist, leagues, rosters);
    AddEachMembers([], c, x);
    LeagueEmailsMembers(selected, leagues, rosters, |leagues|, x);
    forall i | 0 <= i < |leagues|
      ensures x in RosterEmails(RosterAt(rosters, i)) <==>
              exists k :: 0 <= k < |RosterAt(rosters, i)| && EnrollmentEmail(RosterAt(rosters, i)[k]) == Some(x)
    {
      RosterEmailsMembers(RosterAt(rosters, i), x);
    }
    assert x in MemberEmails(active) <==> exists k :: 0 <= k < |active| && active[k].email == x by {
      if x in MemberEmails(active) {
        var k :| 0 <= k < |active| && MemberEmails(active)[k] == x;
      }
    }
    assert x in MemberEmails(waitlist) <==> exists k :: 0 <= k < |waitlist| && waitlist[k].email == x by {
      if x in MemberEmails(waitlist) {
        var k :| 0 <= k < |waitlist| && MemberEmails(waitlist)[k] == x;
      }
    }
  }

  /** An entry without an address adds nobody. */
  lemma RosterSkipsMissingEmail(roster: seq<LeagueEnrollment>, e: LeagueEnrollment)
    requires e.members.None? || e.members.value.email == ""
    ensures RosterEmails(roster + [e]) == RosterEmails(roster)
  {
    assert (roster + [e])[..|roster|] == roster;
  }

  /** `toggleGroup`: exactly the one group changes. */
  function ToggleGroup(selected: seq<string>, id: string): (next: seq<string>)
    requires NoDuplicates(selected)
    ensures NoDuplicates(next)
    ensures id in next <==> id !in selected
    ensures forall g :: g != id ==> (g in next <==> g in selected)
  {
    SetToggleFlips(selected, id);
    SetToggle(selected, id)
  }

  /** `recipientEmails.join(", ")`, the form field the server action reads. */
  function RecipientsField(emails: seq<string>): string {
    Join(emails, RecipientSeparator)
  }

  /** An address with no whitespace (and so none of the separator's space). */
  predicate Unspaced(e: string) {
    forall k :: 0 <= k < |e| ==> !IsSpace(e[k])
  }

  /**
   * The server recovers the page's recipients from the joined field, when
   * there is at least one and no address holds whitespace.
   */
  lemma RecipientsRoundTrip(emails: seq<string>)
    requires |emails| > 0
    requires forall k :: 0 <= k < |emails| ==> Unspaced(emails[k])
    ensures RecipientList(RecipientsField(emails)) == emails
  {
    forall k | 0 <= k < |emails|
      ensures SplitsCleanly(emails[k], RecipientSeparator)
      ensures Trim(emails[k]) == emails[k]
    {
      SepCharSplitsCleanly(emails[k], RecipientSeparator, 1);
      TrimmedAlready(emails[k]);
    }
    SplitJoin(emails, RecipientSeparator);
  }

  /**
   * Whether the page treats a send as done, clearing the form and showing
   * "Email sent successfully", as written: the mutation resolves whenever
   * the server action returns (`None` when it throws), and the `success` it
   * returns is never read.
   */
  function SendReportedAsWritten(result: Option<SendResult>): (done: bool)
    ensures done <==> result.Some?
  {
    match result
    case None => false
    case Some(_) => true
  }

  /** A message Mailgun refused is still reported as sent, and the form is still cleared. */
  lemma FailedSendReportedAsSent(subject: string, body: string, recipients: string)
    ensures !SendMassEmail(subject, body, recipients, false).success
    ensures SendReportedAsWritten(Some(SendMassEmail(subject, body, recipients, false)))
  {
  }

  /** The send counts as done only when the server action says it succeeded. */
  function SendSucceeded(result: Option<SendResult>): (done: bool)
    ensures done ==> result.Some?
  {
    result.Some? && result.value.success
  }

  /** With the corrected reading, the form reports a send exactly when Mailgun queued it. */
  lemma SendSucceededIffQueued(subject: string, body: string, recipients: string, queued: bool)
    ensures SendSucceeded(Some(SendMassEmail(subject, body, recipients, queued))) <==> queued
    ensures SendSucceeded(None) == false
  {
  }

  /** What pressing Send does. */
  datatype SendOutcome =
    | NoRecipients                                   // error notification, nothing sent
    | Submitted(body: string, subject: string, recipients: string)

  /** The form's state: the subject, the ticked groups and the editor's content. */
  class EmailForm {
    var subject: string
    var selectedGroups: seq<string>
    var content: string

    ghost predicate Valid()
      reads this
    {
      NoDuplicates(selectedGroups)
    }

    constructor()
      ensures Valid()
      ensures subject == "" && selectedGroups == [] && content == ""
    {
      subject := "";
      selectedGroups := [];
      content := "";
    }

    method Toggle(id: string)
      requires Valid()
      modifies this
      ensures Valid()
      ensures selectedGroups == ToggleGroup(old(selectedGroups), id)
      ensures subject == old(subject) && content == old(content)
    {
      selectedGroups := ToggleGroup(selectedGroups, id);
    }

    /**
     * `handleSend`: the recipients are the memo's addresses for the ticked
     * groups, from the fetched active members, waitlist, leagues and rosters.
     * With none it refuses and changes nothing; otherwise the content,
     * subject and joined recipients are submitted, and `result` is what the
     * server action answered (`None` when the call threw). The subject, the
     * groups and the content are cleared whenever an answer came back, a
     * refused send included.
     */
    method Send(active: seq<Member>, waitlist: seq<Member>, leagues: seq<League>,
                rosters: seq<Option<seq<LeagueEnrollment>>>, result: Option<SendResult>)
      returns (outcome: SendOutcome)
      requires Valid()
      modifies this
      ensures Valid()
      ensures var r := AddEach([], Candidates(old(selectedGroups), active, waitlist, leagues, rosters));
              (|r| == 0 ==> outcome == NoRecipients) &&
              (|r| > 0 ==> outcome == Submitted(old(content), old(subject), RecipientsField(r)))
      ensures var r := AddEach([], Candidates(old(selectedGroups), active, waitlist, leagues, rosters));
              if |r| > 0 && SendReportedAsWritten(result) then
                subject == "" && selectedGroups == [] && content == ""
              else
                subject == old(subject) && selectedGroups == old(selectedGroups) && content == old(content)
    {
      var recipients := RecipientEmails(selectedGroups, active, waitlist, leagues, rosters);
      if |recipients| == 0 {
        return NoRecipients;
      }
      outcome := Submitted(content, subject, RecipientsField(recipients));
      if SendReportedAsWritten(result) {
        subject := "";
        selectedGroups := [];
        content := "";
      }
    }

    /** `handleClear`. */
    method Clear()
      modifies this
      ensures Valid()
      ensures subject == "" && selectedGroups == [] && content == ""
    {
      selectedGroups := [];
      subject := "";
      content := "";
    }
  }
}
