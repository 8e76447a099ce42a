/** The friends panel of `components/FriendsList.tsx`: loading the list (with
    its fixed fallback when the request fails), the online/offline filter
    and the "last seen" label. The clock, the response of `/api/friends`,
    date parsing and the `pt-BR` date format are inputs. */
module FriendsList {
  import opened Common
  import opened Sequences

  datatype Friend = Friend(
    id: int, fullName: string, username: string, avatarUrl: string, isOnline: bool,
    bio: string, lastMessage: string, lastMessageAt: Option<string>, unreadCount: int)

  /** The three values of the `filter` state. */
  datatype FriendFilter = All | Online | Offline

  /** The test the `filteredFriends` callback applies for `filter`. */
  predicate Shown(filter: FriendFilter, f: Friend) {
    match filter
    case Online => f.isOnline
    case Offline => !f.isOnline
    case All => true
  }

  /** `filteredFriends`: "online" keeps exactly the friends online, "offline"
      exactly those offline, "all" everyone; order and repetitions kept. */
  function FilteredFriends(friends: seq<Friend>, filter: FriendFilter): (r: seq<Friend>)
    ensures SubsequenceOf(r, friends)
    ensures forall f :: f in r <==> f in friends && Shown(filter, f)
    ensures filter == All ==> r == friends
  {
    var r := Filter(friends, f => Shown(filter, f));
    if filter == All then
      FilterKeepsAll(friends, f => Shown(filter, f));
      r
    else r
  }

  predicate IsOnline(f: Friend) { f.isOnline }

  predicate IsOffline(f: Friend) { !f.isOnline }

  /** `onlineFriends` */
  function OnlineFriends(friends: seq<Friend>): seq<Friend> {
    Filter(friends, IsOnline)
  }

  /** `offlineFriends` */
  function OfflineFriends(friends: seq<Friend>): seq<Friend> {
    Filter(friends, IsOffline)
  }

  /** The online and offline sections split the list: every friend appears
      in exactly one of them, so their sizes add up to the list's. */
  lemma OnlineOfflinePartition(friends: seq<Friend>)
    ensures multiset(OnlineFriends(friends)) + multiset(OfflineFriends(friends)) == multiset(friends)
    ensures |OnlineFriends(friends)| + |OfflineFriends(friends)| == |friends|
    ensures forall f :: f in OnlineFriends(friends) ==> f.isOnline
    ensures forall f :: f in OfflineFriends(friends) ==> !f.isOnline
  {
    FilterPartition(friends, IsOnline, IsOffline);
  }

  /** The "online" and "offline" filters show the two sections. */
  lemma FilterShowsSection(friends: seq<Friend>)
    ensures FilteredFriends(friends, Online) == OnlineFriends(friends)
    ensures FilteredFriends(friends, Offline) == OfflineFriends(friends)
  {
    FilterSame(friends, f => Shown(Online, f), IsOnline);
    FilterSame(friends, f => Shown(Offline, f), IsOffline);
  }

  /** The label `formatLastSeen` picks for a dated message. */
  datatype LastSeen = JustNow | MinutesAgo(minutes: nat) | HoursAgo(hours: nat) | DaysAgo(days: nat) | OnDate

  /** The bucket for `diffMs` milliseconds since the message; `Math.floor`
      of a quotient by a positive constant is Dafny's `/`. Each bucket covers
      one interval of elapsed time, and the count it shows lies in that
      bucket's range. */
  function Bucket(diffMs: int): (b: LastSeen)
    ensures b == JustNow <==> diffMs < 60000
    ensures b.MinutesAgo? <==> 60000 <= diffMs < 3600000
    ensures b.HoursAgo? <==> 3600000 <= diffMs < 86400000
    ensures b.DaysAgo? <==> 86400000 <= diffMs < 604800000
    ensures b == OnDate <==> 604800000 <= diffMs
    ensures b.MinutesAgo? ==> 1 <= b.minutes < 60 && b.minutes * 60000 <= diffMs
    ensures b.HoursAgo? ==> 1 <= b.hours < 24 && b.hours * 3600000 <= diffMs
    ensures b.DaysAgo? ==> 1 <= b.days < 7 && b.days * 86400000 <= diffMs
  {
    var mins := diffMs / 60000;
    var hours := diffMs / 3600000;
    var days := diffMs / 86400000;
    if mins < 1 then JustNow
    else if mins < 60 then MinutesAgo(mins)
    else if hours < 24 then HoursAgo(hours)
    else if days < 7 then DaysAgo(days)
    else OnDate
  }

  /** The text shown for a bucket. */
  function LastSeenText(b: LastSeen, localeDate: string): string {
    match b
    case JustNow => "Agora mesmo"
    case MinutesAgo(m) => NatToString(m) + " min atrás"
    case HoursAgo(h) => NatToString(h) + " h atrás"
    case DaysAgo(d) => NatToString(d) + " dias atrás"
    case OnDate => localeDate
  }

  /** `formatLastSeen(dateString)`: `parsed` is `new Date(dateString)` in
      milliseconds, `None` for a string no date parses from; `localeDate` is
      `toLocaleDateString('pt-BR')` of that date. An unparsable date makes
      every comparison false and so falls through to the date text. A date
      less than a minute old, or in the future, is "Agora mesmo"; otherwise
      the whole minutes, hours or days elapsed are shown, in the first unit
      whose count stays under 60, 24 or 7 respectively. */
  function FormatLastSeen(dateString: Option<string>, parsed: Option<int>, nowMs: int, localeDate: string): (r: string)
    ensures !TextPresent(dateString) ==> r == "Nunca conversou"
    ensures TextPresent(dateString) && parsed.None? ==> r == localeDate
    ensures TextPresent(dateString) && parsed.Some? ==>
              var diff := nowMs - parsed.value;
              (diff < 60000 ==> r == "Agora mesmo") &&
              (60000 <= diff < 3600000 ==> r == NatToString(diff / 60000) + " min atrás") &&
              (3600000 <= diff < 86400000 ==> r == NatToString(diff / 3600000) + " h atrás") &&
              (86400000 <= diff < 604800000 ==> r == NatToString(diff / 86400000) + " dias atrás") &&
              (604800000 <= diff ==> r == localeDate)
  {
    if !TextPresent(dateString) then "Nunca conversou"
    else if parsed.None? then localeDate
    else LastSeenText(Bucket(nowMs - parsed.value), localeDate)
  }

  /** `fetchFriends`' fallback list; `nowIso` and `dayBeforeIso` are the ISO
      strings of the clock reading and of one day earlier. */
  function FallbackFriends(nowIso: string, dayBeforeIso: string): seq<Friend> {
    [ Friend(2, AmigoName, "amigo", AmigoAvatar, true, AmigoBio, AmigoMessage, Some(nowIso), 2),
      Friend(3, MariaName, "maria", MariaAvatar, true, MariaBio, "", None, 0),
      Friend(4, CarlosName, "carlos", CarlosAvatar, false, CarlosBio, CarlosMessage, Some(dayBeforeIso), 0) ]
  }

  const AmigoName := "Amigo Teste"
  const AmigoAvatar := "https://ui-avatars.com/api/?name=Amigo+Teste&background=random"
  const AmigoBio := "Desenvolvedor web"
  const AmigoMessage := "Olá! Como você está?"
  const MariaName := "Maria Silva"
  const MariaAvatar := "https://ui-avatars.com/api/?name=Maria+Silva&background=FFC0CB"
  const MariaBio := "Designer UX/UI"
  const CarlosName := "Carlos Santos"
  const CarlosAvatar := "https://ui-avatars.com/api/?name=Carlos+Santos&background=87CEEB"
  const CarlosBio := "Gerente de Projetos"
  const CarlosMessage := "Até amanhã!"

  /** The fallback lists friends 2 and 3 online and friend 4 offline. */
  lemma FallbackShape(nowIso: string, dayBeforeIso: string)
    ensures var r := FallbackFriends(nowIso, dayBeforeIso);
            |r| == 3 && r[0].id == 2 && r[1].id == 3 && r[2].id == 4 &&
            |OnlineFriends(r)| == 2 && OfflineFriends(r) == [r[2]]
  {
    var r := FallbackFriends(nowIso, dayBeforeIso);
    var t1, t2 := r[1..], r[2..];
    assert t1[1..] == t2 && t2[1..] == [];
    assert Filter(t2, IsOnline) == [];
    assert Filter(t2, IsOffline) == [r[2]];
    assert Filter(t1, IsOnline) == [r[1]];
    assert Filter(t1, IsOffline) == [r[2]];
  }

  const LoadError := "Falha ao carregar amigos. Tente novamente."

  /** How `fetch("/api/friends?userId=...")` ended: it threw or answered with
      a non-ok status (`FriendsFailed`), or gave a payload, `None` standing
      for one that is not an array. */
  datatype FriendsResponse = FriendsFailed | FriendsPayload(data: Option<seq<Friend>>)

  /** The state fields of the component. */
  class FriendsPanel {
    var friends: seq<Friend>
    var isLoading: bool
    var error: Option<string>

    /** The "Erro ao carregar" screen: an error and no friends. */
    predicate ShowsErrorScreen()
      reads this
    {
      error.Some? && |friends| == 0
    }

    /** Every error comes with the fallback list. */
    ghost predicate Valid()
      reads this
    {
      error.Some? ==> |friends| == 3
    }

    constructor ()
      ensures Valid()
      ensures friends == [] && isLoading && error == None
    {
      friends := [];
      isLoading := true;
      error := None;
    }

    /** `fetchFriends`: an array payload becomes the list and clears the
        error, any other payload empties the list; a failure sets the error
        and installs the fallback list. Loading ends either way, and the
        error screen is never reached. */
    method FetchFriends(response: FriendsResponse, nowIso: string, dayBeforeIso: string)
      modifies this
      ensures Valid() && !ShowsErrorScreen()
      ensures !isLoading
      ensures response.FriendsFailed? ==>
                error == Some(LoadError) && friends == FallbackFriends(nowIso, dayBeforeIso)
      ensures response.FriendsPayload? ==>
                error == None && friends == (if response.data.Some? then response.data.value else [])
    {
      isLoading := true;
      error := None;
      match response {
        case FriendsFailed =>
          error := Some(LoadError);
          friends := FallbackFriends(nowIso, dayBeforeIso);
          FallbackShape(nowIso, dayBeforeIso);
        case FriendsPayload(data) =>
          friends := if data.Some? then data.value else [];
      }
      isLoading := false;
    }
  }
}
