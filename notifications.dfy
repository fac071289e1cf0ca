/**
 * The notifications provider: a list of toasts that pages append to and
 * that the toast component removes by id. A notification sent with the
 * placeholder id "temp" is stored under a fresh id.
 */
module Notifications {
  import opened Seqs

  datatype NotificationStatus = ERROR | SUCCESS | WARNING | INFO

  datatype Notification = Notification(id: string, title: string, expiresIn: Option<int>, status: NotificationStatus)

  /** The placeholder id pages send when they leave the id to the provider. */
  const TempId: string := "temp"

  /** The notification as stored: "temp" is replaced by `freshId`, any other id kept. */
  function WithId(n: Notification, freshId: string): (stored: Notification)
    ensures n.id == TempId ==> stored.id == freshId
    ensures n.id != TempId ==> stored.id == n.id
    ensures stored.title == n.title && stored.expiresIn == n.expiresIn && stored.status == n.status
  {
    if n.id == TempId then n.(id := freshId) else n
  }

  /** `notifications.filter((notif) => notif.id !== id)`. */
  function WithoutId(list: seq<Notification>, id: string): (rest: seq<Notification>)
    ensures |rest| <= |list|
    ensures forall k :: 0 <= k < |rest| ==> rest[k].id != id
  {
    if |list| == 0 then []
    else if list[|list| - 1].id == id then WithoutId(list[..|list| - 1], id)
    else WithoutId(list[..|list| - 1], id) + [list[|list| - 1]]
  }

  /** Every entry with another id is kept, in its order, and only those. */
  lemma {:induction false} WithoutIdInOrder(list: seq<Notification>, id: string)
    ensures forall x :: x in WithoutId(list, id) <==> x in list && x.id != id
    ensures IsSubsequence(WithoutId(list, id), list)
    ensures |WithoutId(list, id)| == |list| - CountId(list, id)
  {
    if |list| > 0 {
      var init := list[..|list| - 1];
      var last := list[|list| - 1];
      var rest := WithoutId(init, id);
      assert init + [last] == list;
      WithoutIdInOrder(init, id);
      SubsequenceSnoc(rest, init, last);
      if last.id == id {
        assert WithoutId(list, id) == rest;
      } else {
        assert WithoutId(list, id) == rest + [last];
      }
    }
  }

  /** How many entries carry `id`. */
  function CountId(list: seq<Notification>, id: string): (n: nat)
    ensures n <= |list|
  {
    if |list| == 0 then 0
    else CountId(list[..|list| - 1], id) + (if list[|list| - 1].id == id then 1 else 0)
  }

  predicate HasId(list: seq<Notification>, id: string) {
    exists k :: 0 <= k < |list| && list[k].id == id
  }

  /** Removing an id nobody has changes nothing. */
  lemma {:induction false} WithoutAbsentId(list: seq<Notification>, id: string)
    requires !HasId(list, id)
    ensures WithoutId(list, id) == list
  {
    if |list| > 0 {
      var n := |list| - 1;
      assert !HasId(list[..n], id) by {
        forall k | 0 <= k < n
          ensures list[..n][k].id != id
        {
          assert list[..n][k] == list[k];
        }
      }
      WithoutAbsentId(list[..n], id);
      assert list[..n] + [list[n]] == list;
    }
  }

  /**
   * Removing works entry by entry over a split list, so every other entry
   * stays, in its order.
   */
  lemma {:induction false} WithoutIdAppend(a: seq<Notification>, b: seq<Notification>, id: string)
    ensures WithoutId(a + b, id) == WithoutId(a, id) + WithoutId(b, id)
  {
    if |b| > 0 {
      var n := |b| - 1;
      WithoutIdAppend(a, b[..n], id);
      assert (a + b)[..|a + b| - 1] == a + b[..n];
      assert (a + b)[|a + b| - 1] == b[n];
      if b[n].id == id {
        assert WithoutId(b, id) == WithoutId(b[..n], id);
        assert WithoutId(a + b, id) == WithoutId(a + b[..n], id);
      } else {
        assert WithoutId(b, id) == WithoutId(b[..n], id) + [b[n]];
        assert WithoutId(a + b, id) == WithoutId(a + b[..n], id) + [b[n]];
      }
    } else {
      assert a + b == a;
    }
  }

  /** Adding a notification under an id no entry has, then removing that id, restores the list. */
  lemma AddThenRemove(list: seq<Notification>, n: Notification, freshId: string)
    requires !HasId(list, WithId(n, freshId).id)
    ensures WithoutId(list + [WithId(n, freshId)], WithId(n, freshId).id) == list
  {
    var stored := WithId(n, freshId);
    WithoutAbsentId(list, stored.id);
    assert (list + [stored])[..|list|] == list;
  }

  /** The fields a caller may pass to `generateNotification`. */
  datatype NotificationArgs = NotificationArgs(
    id: Option<string>, title: Option<string>, expiresIn: Option<int>, status: Option<NotificationStatus>)

  /** `generateNotification`: a fresh id, a test title and INFO, each overridden by a supplied field. */
  function Generate(args: Option<NotificationArgs>, freshId: string): (n: Notification)
    ensures args.None? ==> n == Notification(freshId, "Test notification :D", None, INFO)
    ensures args.Some? ==>
              n.id == (if args.value.id.Some? then args.value.id.value else freshId) &&
              n.title == (if args.value.title.Some? then args.value.title.value else "Test notification :D") &&
              n.expiresIn == args.value.expiresIn &&
              n.status == (if args.value.status.Some? then args.value.status.value else INFO)
  {
    var base := Notification(freshId, "Test notification :D", None, INFO);
    match args
    case None => base
    case Some(a) =>
      Notification(
        if a.id.Some? then a.id.value else base.id,
        if a.title.Some? then a.title.value else base.title,
        a.expiresIn,
        if a.status.Some? then a.status.value else base.status)
  }

  class NotificationsProvider {
    var notifications: seq<Notification>

    constructor()
      ensures notifications == []
    {
      notifications := [];
    }

    /**
     * `addNotification`: the notification goes at the end, under a fresh id
     * if it came as "temp"; the entries already there are untouched. The
     * stored notification is returned, as the caller's object is updated too.
     */
    method AddNotification(notif: Notification, freshId: string) returns (stored: Notification)
      modifies this
      ensures stored == WithId(notif, freshId)
      ensures notifications == old(notifications) + [stored]
    {
      stored := notif;
      if stored.id == TempId {
        stored := stored.(id := freshId);
      }
      var updated := notifications;
      updated := updated + [stored];
      notifications := updated;
    }

    /** `removeNotification`. */
    method RemoveNotification(id: string)
      modifies this
      ensures notifications == WithoutId(old(notifications), id)
      ensures !HasId(notifications, id)
      ensures forall x :: x in notifications <==> x in old(notifications) && x.id != id
      ensures IsSubsequence(notifications, old(notifications))
    {
      WithoutIdInOrder(notifications, id);
      notifications := WithoutId(notifications, id);
    }
  }
}
