/** The notification bell of `NotificationBell.js`: an open/closed flag and a
    list of notifications, each read or unread. The handlers replace the list
    by a mapped copy; the unread count, the badge and the "Mark all as read"
    button are derived from it. */
module Bell {
  import opened Wrappers

  datatype Notification = Notification(id: int, message: string, time: string, read: bool)

  /** The three notifications the bell starts with, the last one already read. */
  function InitialNotifications(): seq<Notification>
  {
    [ Notification(1, "Deployment of \"E-commerce Platform\" completed successfully", "5 minutes ago", false),
      Notification(2, "Deployment of \"Task Management App\" failed", "20 minutes ago", false),
      Notification(3, "New deployment started by @web3_enthusiast", "1 hour ago", true) ]
  }

  /** `notifications.filter(n => !n.read).length`. */
  function UnreadCount(ns: seq<Notification>): (n: nat)
    ensures n <= |ns|
    ensures n == 0 <==> forall i :: 0 <= i < |ns| ==> ns[i].read
  {
    if ns == [] then 0 else (if ns[0].read then 0 else 1) + UnreadCount(ns[1..])
  }

  /** The same notification, read. */
  function Read(n: Notification): Notification
  {
    n.(read := true)
  }

  /** `markAsRead(id)`: every notification with that id becomes read; the
      list keeps its length and order, and every other field and every other
      notification is as it was. */
  function MarkRead(ns: seq<Notification>, id: int): (r: seq<Notification>)
    ensures |r| == |ns|
    ensures forall i :: 0 <= i < |ns| ==>
      && r[i].id == ns[i].id && r[i].message == ns[i].message && r[i].time == ns[i].time
      && (r[i].read <==> ns[i].read || ns[i].id == id)
  {
    seq(|ns|, i requires 0 <= i < |ns| => if ns[i].id == id then Read(ns[i]) else ns[i])
  }

  /** `markAllAsRead`: every notification becomes read, with its id, message
      and time as they were. */
  function MarkAllRead(ns: seq<Notification>): (r: seq<Notification>)
    ensures |r| == |ns|
    ensures forall i :: 0 <= i < |ns| ==>
      r[i].read && r[i].id == ns[i].id && r[i].message == ns[i].message && r[i].time == ns[i].time
  {
    seq(|ns|, i requires 0 <= i < |ns| => Read(ns[i]))
  }

  /** Marking a notification read never raises the unread count, and lowers
      it when an unread notification has that id. */
  lemma {:induction false} MarkReadLowersUnread(ns: seq<Notification>, id: int)
    ensures UnreadCount(MarkRead(ns, id)) <= UnreadCount(ns)
    ensures (exists i :: 0 <= i < |ns| && ns[i].id == id && !ns[i].read) ==>
            UnreadCount(MarkRead(ns, id)) < UnreadCount(ns)
  {
    if ns != [] {
      var r := MarkRead(ns, id);
      assert r[1..] == MarkRead(ns[1..], id);
      MarkReadLowersUnread(ns[1..], id);
      if exists i :: 0 <= i < |ns| && ns[i].id == id && !ns[i].read {
        var i :| 0 <= i < |ns| && ns[i].id == id && !ns[i].read;
        if i > 0 {
          assert ns[1..][i - 1] == ns[i];
        }
      }
    }
  }

  /** Marking an id no notification has changes nothing. */
  lemma MarkUnknownIdChangesNothing(ns: seq<Notification>, id: int)
    requires forall i :: 0 <= i < |ns| ==> ns[i].id != id
    ensures MarkRead(ns, id) == ns
  {
  }

  /** Marking the same id twice is marking it once. */
  lemma MarkReadIdempotent(ns: seq<Notification>, id: int)
    ensures MarkRead(MarkRead(ns, id), id) == MarkRead(ns, id)
  {
  }

  /** After "Mark all as read" nothing is unread. */
  lemma MarkAllClearsUnread(ns: seq<Notification>)
    ensures UnreadCount(MarkAllRead(ns)) == 0
  {
  }

  /** The bell starts with two unread notifications of three. */
  lemma InitialUnread()
    ensures |InitialNotifications()| == 3 && UnreadCount(InitialNotifications()) == 2
  {
    var ns := InitialNotifications();
    assert ns[1..][1..][1..] == [];
  }

  /** The state held by the bell component. */
  class NotificationBell {
    var isOpen: bool
    var notifications: seq<Notification>

    /** The bell starts closed, with the three initial notifications. */
    constructor()
      ensures !isOpen && notifications == InitialNotifications()
      ensures Unread() == 2
    {
      isOpen := false;
      notifications := InitialNotifications();
      InitialUnread();
    }

    function Unread(): nat
      reads this
    {
      UnreadCount(notifications)
    }

    /** The red badge on the bell, with the unread count, shown only when
        something is unread. */
    function Badge(): (b: Option<nat>)
      reads this
      ensures b.Some? <==> exists i :: 0 <= i < |notifications| && !notifications[i].read
      ensures b.Some? ==> b.value == Unread()
    {
      if Unread() > 0 then Some(Unread()) else None
    }

    /** The "Mark all as read" button: inside the open panel, and only when
        something is unread. */
    predicate MarkAllShown()
      reads this
    {
      isOpen && Unread() > 0
    }

    /** `toggleNotifications`: opens a closed panel and closes an open one. */
    method ToggleNotifications()
      modifies this
      ensures isOpen == !old(isOpen) && notifications == old(notifications)
    {
      isOpen := !isOpen;
    }

    /** `markAsRead(id)`, on clicking a notification. */
    method MarkAsRead(id: int)
      modifies this
      ensures notifications == MarkRead(old(notifications), id) && isOpen == old(isOpen)
      ensures Unread() <= old(Unread())
    {
      MarkReadLowersUnread(notifications, id);
      notifications := MarkRead(notifications, id);
    }

    /** `markAllAsRead`: afterwards the badge and the button are gone. */
    method MarkAllAsRead()
      modifies this
      ensures notifications == MarkAllRead(old(notifications)) && isOpen == old(isOpen)
      ensures Badge() == None && !MarkAllShown()
    {
      MarkAllClearsUnread(notifications);
      notifications := MarkAllRead(notifications);
    }
  }

  /** Toggling twice leaves the bell as it was. */
  method ToggleTwice(b: NotificationBell)
    modifies b
    ensures b.isOpen == old(b.isOpen) && b.notifications == old(b.notifications)
  {
    b.ToggleNotifications();
    b.ToggleNotifications();
  }
}
