/** The four tables of the store and the values its operations return.
    Every key is the integer the store derives from a name (the event, theme or team
    name); member rows have no key of their own and are found by
    (event key, team key, member id). */
module Records {
  import opened Rows

  /** A row of the event table. */
  datatype Event = Event(name: string, organizerId: int, alias: string, maxMembers: int, key: int)

  /** A row of the theme table: the nine columns of the imported sheet, then the keys. */
  datatype Theme = Theme(theme: string, company: string, maxTeams: int, responsible: string,
                         email: string, description: string, background: string, problem: string,
                         expectedResult: string, eventKey: int, key: int)

  /** A row of the team table. */
  datatype Team = Team(eventKey: int, themeKey: int, name: string, leaderId: int,
                       leaderAlias: string, isOpen: bool, needs: string, key: int)

  /** A row of the member table: a pending join request or an accepted membership. */
  datatype Member = Member(memberId: int, alias: string, eventKey: int, teamKey: int, accepted: bool)

  /** A (name, key) record as the listing queries return it. */
  datatype NamedKey = NamedKey(name: string, key: int)

  /** A (member id, alias) record as the member listings return it. */
  datatype IdAlias = IdAlias(id: int, alias: string)

  /** A theme row with its event key replaced by the event's name. */
  datatype ThemeInfo = ThemeInfo(theme: Theme, event: string)

  /** Result of a listing that first refuses callers already accepted in the event. */
  datatype Listing<T> = AlreadyInEvent | EventMissing | Items(items: seq<T>)

  /** Result of a join request. */
  datatype Request = AlreadyJoined | LookupFailed | Unavailable
                   | Sent(leaderId: int, leaderAlias: string, teamName: string)

  /** Result of accepting a join request. */
  datatype Acceptance = EventUnknown | TeamFull | RequestGone | Accepted(maxMembers: int, current: int)

  function EventRef(ev: Event): NamedKey { NamedKey(ev.name, ev.key) }
  function ThemeRef(th: Theme): NamedKey { NamedKey(th.theme, th.key) }
  function TeamRef(tm: Team): NamedKey { NamedKey(tm.name, tm.key) }
  function MemberRef(r: Member): IdAlias { IdAlias(r.memberId, r.alias) }
  function MemberIdOf(r: Member): int { r.memberId }

  // Row selectors: each is the boolean mask of one pandas selection in the store.

  function EventKeyed(e: int): Event -> bool { (ev: Event) => ev.key == e }
  function ThemeOfEvent(e: int): Theme -> bool { (th: Theme) => th.eventKey == e }
  function ThemeKeyed(e: int, th: int): Theme -> bool { (r: Theme) => r.eventKey == e && r.key == th }
  function TeamOfEvent(e: int): Team -> bool { (tm: Team) => tm.eventKey == e }
  function TeamKeyed(e: int, t: int): Team -> bool { (tm: Team) => tm.eventKey == e && tm.key == t }
  function TeamOnTheme(e: int, th: int): Team -> bool { (tm: Team) => tm.eventKey == e && tm.themeKey == th }
  function MemberOfEvent(e: int): Member -> bool { (r: Member) => r.eventKey == e }
  function MemberOfTeam(e: int, t: int): Member -> bool { (r: Member) => r.eventKey == e && r.teamKey == t }
  function RequestRow(e: int, t: int, m: int): Member -> bool
  {
    (r: Member) => r.eventKey == e && r.teamKey == t && r.memberId == m
  }
  function AcceptedOfTeam(e: int, t: int): Member -> bool
  {
    (r: Member) => r.eventKey == e && r.teamKey == t && r.accepted
  }
  function PendingOfTeam(e: int, t: int): Member -> bool
  {
    (r: Member) => r.eventKey == e && r.teamKey == t && !r.accepted
  }
  function AcceptedInEvent(m: int, e: int): Member -> bool
  {
    (r: Member) => r.memberId == m && r.accepted && r.eventKey == e
  }
  function PendingInEvent(e: int, m: int): Member -> bool
  {
    (r: Member) => r.eventKey == e && r.memberId == m && !r.accepted
  }

  /** Member `m` holds an accepted membership in event `e` ("already joined"). */
  predicate AcceptedIn(ms: seq<Member>, m: int, e: int)
  {
    exists r :: r in ms && r.memberId == m && r.eventKey == e && r.accepted
  }

  /** Number of teams of event `e` on theme `th`. */
  function TeamCount(teams: seq<Team>, e: int, th: int): nat
  {
    Count(teams, TeamOnTheme(e, th))
  }

  /** Number of accepted members of team `t` in event `e`. */
  function AcceptedCount(ms: seq<Member>, e: int, t: int): nat
  {
    Count(ms, AcceptedOfTeam(e, t))
  }

  /** All accepted memberships of one member within one event are in one team. */
  predicate OneTeamPerEvent(ms: seq<Member>)
  {
    forall a, b ::
      (a in ms && b in ms && a.accepted && b.accepted &&
       a.memberId == b.memberId && a.eventKey == b.eventKey) ==> a.teamKey == b.teamKey
  }
}
