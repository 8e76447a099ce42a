/** The page header of `components/header.tsx`: the notification bell with
    its unread counter, and the search box with its results. The component's
    state fields are the fields of `HeaderState`; HTTP responses are inputs. */
module Header {
  import opened Common
  import opened Sequences

  datatype Notification = Notification(id: int, read: bool, message: string, createdAt: string)

  datatype ResultKind = UserResult | PostResult

  datatype SearchResult = SearchResult(id: int, kind: ResultKind, name: Option<string>, title: Option<string>)

  /** `data.filter((n) => !n.read)` */
  function Unread(ns: seq<Notification>): (r: seq<Notification>)
    ensures |r| <= |ns|
    ensures forall n :: n in r <==> n in ns && !n.read
  {
    if ns == [] then []
    else
      var rest := Unread(ns[1..]);
      assert forall n :: n in ns <==> n == ns[0] || n in ns[1..];
      if !ns[0].read then [ns[0]] + rest else rest
  }

  /** The unread list is `filter((n) => !n.read)`: the unread
      notifications in order, each as often as it occurs, so its length is
      the count the badge shows. */
  lemma {:induction false} UnreadIsFilter(ns: seq<Notification>)
    ensures Unread(ns) == Filter(ns, (n: Notification) => !n.read)
    ensures SubsequenceOf(Unread(ns), ns)
    ensures forall n :: multiset(Unread(ns))[n] == if n.read then 0 else multiset(ns)[n]
  {
    if ns != [] {
      UnreadIsFilter(ns[1..]);
    }
  }

  /** `notifications.map((n) => n.id === id ? { ...n, read: true } : n)`:
      the entries with that id become read, every other field and every
      other entry stays as it was, and so do the length and the order. */
  function MarkRead(ns: seq<Notification>, id: int): (r: seq<Notification>)
    ensures |r| == |ns|
    ensures forall k :: 0 <= k < |ns| ==> r[k].read == (ns[k].read || ns[k].id == id)
    ensures forall k :: 0 <= k < |ns| ==> r[k].(read := ns[k].read) == ns[k]
  {
    seq(|ns|, k requires 0 <= k < |ns| => if ns[k].id == id then ns[k].(read := true) else ns[k])
  }

  /** Marking twice is marking once; an entry already read stays read. */
  lemma MarkReadIdempotent(ns: seq<Notification>, id: int)
    ensures MarkRead(MarkRead(ns, id), id) == MarkRead(ns, id)
  {
    var once := MarkRead(ns, id);
    var twice := MarkRead(once, id);
    forall k | 0 <= k < |ns|
      ensures twice[k] == once[k]
    {
      assert twice[k].(read := once[k].read) == once[k];
    }
  }

  /** The number of unread entries carrying `id`. */
  function UnreadWithId(ns: seq<Notification>, id: int): nat {
    if ns == [] then 0
    else (if !ns[0].read && ns[0].id == id then 1 else 0) + UnreadWithId(ns[1..], id)
  }

  /** Marking `id` read lowers the number of unread entries by exactly the
      number of unread entries carrying `id`. */
  lemma {:induction false} MarkReadUnread(ns: seq<Notification>, id: int)
    ensures |Unread(MarkRead(ns, id))| + UnreadWithId(ns, id) == |Unread(ns)|
  {
    if ns != [] {
      MarkReadUnread(ns[1..], id);
      assert MarkRead(ns, id)[1..] == MarkRead(ns[1..], id);
      assert MarkRead(ns, id)[0].read == (ns[0].read || ns[0].id == id);
    }
  }

  /** `Math.max(0, c - 1)` */
  function DecrementClamped(c: int): (r: int)
    ensures r >= 0
    ensures c >= 1 ==> r == c - 1
    ensures c < 1 ==> r == 0
  {
    if c - 1 > 0 then c - 1 else 0
  }

  /** How `fetch("/api/search?q=...")` ended: it threw, or it produced a
      payload, `None` standing for a falsy one (`data || []`). */
  datatype SearchOutcome = SearchThrown | SearchData(data: Option<seq<SearchResult>>)

  /** The state fields of the header component. */
  class HeaderState {
    var notifications: seq<Notification>
    var unreadCount: int
    var searchQuery: string
    var searchResults: seq<SearchResult>
    var showSearchResults: bool

    /** The counter is never negative. */
    ghost predicate Valid()
      reads this
    {
      unreadCount >= 0
    }

    /** The counter agrees with the list. */
    ghost predicate Synced()
      reads this
    {
      unreadCount == |Unread(notifications)|
    }

    constructor ()
      ensures Valid() && Synced()
      ensures notifications == [] && unreadCount == 0
      ensures searchQuery == "" && searchResults == [] && !showSearchResults
    {
      notifications := [];
      unreadCount := 0;
      searchQuery := "";
      searchResults := [];
      showSearchResults := false;
    }

    /** `fetchNotifications`: an array payload replaces the list and the
        counter becomes its number of unread entries; anything else (a
        payload that is not an array, or a failed request), given as `None`,
        changes nothing. */
    method FetchNotifications(payload: Option<seq<Notification>>)
      requires Valid()
      modifies this
      ensures Valid()
      ensures payload.Some? ==> notifications == payload.value && Synced()
      ensures payload.None? ==> notifications == old(notifications) && unreadCount == old(unreadCount)
      ensures searchQuery == old(searchQuery) && searchResults == old(searchResults)
      ensures showSearchResults == old(showSearchResults)
    {
      if payload.Some? {
        notifications := payload.value;
        unreadCount := |Unread(payload.value)|;
      }
    }

    /** `markNotificationAsRead` as written: after the `PUT` the entries with
        that id are marked read and the counter goes down by one, clamped at
        zero, whether or not the entry was unread. If the request throws,
        nothing changes. */
    method MarkNotificationAsRead(id: int, putThrows: bool)
      requires Valid()
      modifies this
      ensures Valid()
      ensures !putThrows ==> notifications == MarkRead(old(notifications), id)
      ensures !putThrows ==> unreadCount == DecrementClamped(old(unreadCount))
      ensures putThrows ==> notifications == old(notifications) && unreadCount == old(unreadCount)
      ensures searchQuery == old(searchQuery) && searchResults == old(searchResults)
      ensures showSearchResults == old(showSearchResults)
    {
      if !putThrows {
        notifications := MarkRead(notifications, id);
        unreadCount := DecrementClamped(unreadCount);
      }
    }

    /** `markNotificationAsRead` with the counter re-derived from the list,
        so that it keeps agreeing with the list. */
    method MarkNotificationAsReadFixed(id: int, putThrows: bool)
      requires Valid() && Synced()
      modifies this
      ensures Valid() && Synced()
      ensures !putThrows ==> notifications == MarkRead(old(notifications), id)
      ensures !putThrows ==> unreadCount == old(unreadCount) - UnreadWithId(old(notifications), id)
      ensures putThrows ==> notifications == old(notifications) && unreadCount == old(unreadCount)
      ensures searchQuery == old(searchQuery) && searchResults == old(searchResults)
      ensures showSearchResults == old(showSearchResults)
    {
      if !putThrows {
        MarkReadUnread(notifications, id);
        notifications := MarkRead(notifications, id);
        unreadCount := |Unread(notifications)|;
      }
    }

    /** `handleSearch`: the query is stored; a query that is empty after
        trimming clears and hides the results without a request. Otherwise
        the request is made (`requested`): a payload replaces the results
        (`[]` for a falsy one) and shows them, a thrown request leaves them. */
    method HandleSearch(query: string, outcome: SearchOutcome) returns (requested: bool)
      modifies this
      ensures searchQuery == query
      ensures requested <==> !IsBlank(query)
      ensures !requested ==> searchResults == [] && !showSearchResults
      ensures requested && outcome.SearchData? ==>
                searchResults == (if outcome.data.Some? then outcome.data.value else []) && showSearchResults
      ensures requested && outcome.SearchThrown? ==>
                searchResults == old(searchResults) && showSearchResults == old(showSearchResults)
      ensures notifications == old(notifications) && unreadCount == old(unreadCount)
    {
      searchQuery := query;
      var _, blank := TrimText(query);
      if blank {
        searchResults := [];
        showSearchResults := false;
        return false;
      }
      requested := true;
      if outcome.SearchData? {
        searchResults := if outcome.data.Some? then outcome.data.value else [];
        showSearchResults := true;
      }
    }
  }

  /** As written, clicking an entry that is already read (or whose id is not
      in the list) while some entry is unread takes the counter below the
      number of unread entries. */
  lemma DecrementDrifts(ns: seq<Notification>, id: int)
    requires |Unread(ns)| > 0 && UnreadWithId(ns, id) == 0
    ensures DecrementClamped(|Unread(ns)|) == |Unread(MarkRead(ns, id))| - 1
  {
    MarkReadUnread(ns, id);
  }

  /** The decrement is right exactly when one unread entry carries the id. */
  lemma DecrementAgreesIff(ns: seq<Notification>, id: int)
    ensures DecrementClamped(|Unread(ns)|) == |Unread(MarkRead(ns, id))| <==>
            UnreadWithId(ns, id) == 1 || (|Unread(ns)| == 0 && UnreadWithId(ns, id) == 0)
  {
    MarkReadUnread(ns, id);
  }

  /** One unread and one read notification: clicking the read one leaves one
      unread entry but shows a counter of zero. */
  lemma AlreadyReadClickExample()
    ensures var ns := [Notification(1, false, "a", "t"), Notification(2, true, "b", "t")];
            |Unread(MarkRead(ns, 2))| == 1 && DecrementClamped(|Unread(ns)|) == 0
  {
    var ns := [Notification(1, false, "a", "t"), Notification(2, true, "b", "t")];
    MarkReadUnread(ns, 2);
    assert Unread(ns) == [ns[0]];
    assert UnreadWithId(ns, 2) == 0;
  }
}
