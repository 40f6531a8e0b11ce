/** The store object: four tables held as fields, queries that read them and
    mutators that replace them. Keys come from a caller-supplied `hash`, the
    stand-in for the runtime's string hash. */
module Store {
  import opened Rows
  import opened Records
  import opened ImportValidator
  import opened Tables

  /** A team some member may ask to join through the theme listing: open, holding at
      least one and fewer than `cap` accepted members of event `e`, and not a team the
      member has any row for (in whatever event). */
  predicate JoinableTeam(ms: seq<Member>, tm: Team, m: int, e: int, cap: int)
  {
    tm.isOpen && 0 < AcceptedCount(ms, e, tm.key) < cap &&
    forall r :: r in ms && r.memberId == m ==> r.teamKey != tm.key
  }

  /** A team of (e, th) offered by the team listing: open, with at least one and fewer
      than `cap` rows of any status for it in event `e`. */
  predicate OfferedTeam(ms: seq<Member>, tm: Team, e: int, th: int, cap: int)
  {
    tm.eventKey == e && tm.themeKey == th && tm.isOpen &&
    0 < Count(ms, MemberOfTeam(e, tm.key)) < cap
  }

  function MemberTeamKey(r: Member): int { r.teamKey }
  function MemberEventKey(r: Member): int { r.eventKey }
  function TeamThemeKey(tm: Team): int { tm.themeKey }

  class Reader {
    var events: seq<Event>
    var themes: seq<Theme>
    var teams: seq<Team>
    var members: seq<Member>

    /** The store over four tables as they were loaded. */
    constructor (events: seq<Event>, themes: seq<Theme>, teams: seq<Team>, members: seq<Member>)
      ensures this.events == events && this.themes == themes
      ensures this.teams == teams && this.members == members
    {
      this.events := events;
      this.themes := themes;
      this.teams := teams;
      this.members := members;
    }

    // ---------------------------------------------------------------- queries

    /** No event carries the name yet. */
    function IsEventNameUnique(name: string): (unique: bool)
      reads this
      ensures unique <==> forall ev :: ev in events ==> ev.name != name
    {
      name !in Map(events, (ev: Event) => ev.name)
    }

    /** No team of the event carries the name yet. */
    function IsTeamNameUnique(e: int, name: string): (unique: bool)
      reads this
      ensures unique <==> forall tm :: tm in teams ==> tm.eventKey != e || tm.name != name
    {
      Count(teams, (tm: Team) => tm.eventKey == e && tm.name == name) == 0
    }

    /** Every event, as (name, key). */
    function GetEvents(): (r: seq<NamedKey>)
      reads this
      ensures |r| == |events|
      ensures forall i :: 0 <= i < |events| ==> r[i].name == events[i].name && r[i].key == events[i].key
    {
      Map(events, EventRef)
    }

    /** The name of event `e`; no value when there is no such event. */
    function GetEventName(e: int): (r: Option<string>)
      reads this
      ensures r.None? <==> forall ev :: ev in events ==> ev.key != e
      ensures r.Some? ==> exists ev :: ev in events && ev.key == e && ev.name == r.value
    {
      match First(events, EventKeyed(e))
      case None => None
      case Some(ev) => Some(ev.name)
    }

    /** The themes of event `e` on which another team may still be created, or the
        "already in the event" refusal for a caller accepted in `e`. */
    function GetThemesToCreate(leader: int, e: int): (r: Listing<NamedKey>)
      reads this
      ensures r.AlreadyInEvent? <==> AcceptedIn(members, leader, e)
      ensures !r.EventMissing?
      ensures r.Items? ==> forall nk :: nk in r.items <==>
                exists th :: th in themes && th.eventKey == e && TeamCount(teams, e, th.key) < th.maxTeams &&
                             nk == ThemeRef(th)
    {
      if AcceptedIn(members, leader, e) then AlreadyInEvent
      else
        var tms := teams;
        Items(Map(Filter(themes, (th: Theme) => th.eventKey == e && TeamCount(tms, e, th.key) < th.maxTeams),
                  ThemeRef))
    }

    /** The theme row (e, th) with the event's name in place of its key; no value when
        either the event or the theme row is missing. */
    function GetThemeInfo(e: int, th: int): (r: Option<ThemeInfo>)
      reads this
      ensures r.None? <==> (forall ev :: ev in events ==> ev.key != e) ||
                           (forall x :: x in themes ==> !ThemeKeyed(e, th)(x))
      ensures r.Some? ==> r.value.theme in themes && ThemeKeyed(e, th)(r.value.theme) &&
                          GetEventName(e) == Some(r.value.event)
    {
      match GetEventName(e)
      case None => None
      case Some(name) =>
        match First(themes, ThemeKeyed(e, th))
        case None => None
        case Some(row) => Some(ThemeInfo(row, name))
    }

    /** Whether the caller may create a team on theme (e, th): never when already
        accepted in the event, otherwise when the theme has fewer teams than its cap.
        No value when the theme row is missing. */
    function IsCreateThemeAvailable(leader: int, e: int, th: int): (r: Option<bool>)
      reads this
      ensures AcceptedIn(members, leader, e) ==> r == Some(false)
      ensures r.None? <==> !AcceptedIn(members, leader, e) && forall x :: x in themes ==> !ThemeKeyed(e, th)(x)
      ensures r == Some(true) ==>
                !AcceptedIn(members, leader, e) &&
                exists x :: x in themes && ThemeKeyed(e, th)(x) && TeamCount(teams, e, th) < x.maxTeams
    {
      if AcceptedIn(members, leader, e) then Some(false)
      else
        match First(themes, ThemeKeyed(e, th))
        case None => None
        case Some(row) => Some(TeamCount(teams, e, th) < row.maxTeams)
    }

    /** The name of theme (e, th); no value when there is no such row. */
    function GetThemeName(e: int, th: int): (r: Option<string>)
      reads this
      ensures r.None? <==> forall x :: x in themes ==> !ThemeKeyed(e, th)(x)
      ensures r.Some? ==> exists x :: x in themes && ThemeKeyed(e, th)(x) && x.theme == r.value
    {
      match First(themes, ThemeKeyed(e, th))
      case None => None
      case Some(row) => Some(row.theme)
    }

    /** The themes (of any event) that have a team the member may ask to join: see
        JoinableTeam, with the cap of event `e`. */
    function GetThemesToJoin(m: int, e: int): (r: Listing<NamedKey>)
      reads this
      ensures r.AlreadyInEvent? <==> AcceptedIn(members, m, e)
      ensures r.EventMissing? <==> !AcceptedIn(members, m, e) && forall ev :: ev in events ==> ev.key != e
      ensures r.Items? ==>
                First(events, EventKeyed(e)).Some? &&
                forall nk :: nk in r.items <==>
                  exists th, tm :: th in themes && tm in teams && tm.themeKey == th.key && nk == ThemeRef(th) &&
                                   JoinableTeam(members, tm, m, e, First(events, EventKeyed(e)).value.maxMembers)
    {
      if AcceptedIn(members, m, e) then AlreadyInEvent
      else
        match First(events, EventKeyed(e))
        case None => EventMissing
        case Some(ev) =>
          var ms := members;
          var cap := ev.maxMembers;
          var mine := Map(Filter(ms, (r: Member) => r.memberId == m), MemberTeamKey);
          var open := Filter(teams, (tm: Team) => tm.isOpen && 0 < AcceptedCount(ms, e, tm.key) < cap && tm.key !in mine);
          assert forall tm :: tm in open <==> tm in teams && JoinableTeam(ms, tm, m, e, cap);
          var themeKeys := Map(open, TeamThemeKey);
          Items(Map(Filter(themes, (th: Theme) => th.key in themeKeys), ThemeRef))
    }

    /** The teams of theme (e, th) offered for joining: see OfferedTeam, with the cap
        of event `e`. */
    function GetTeamsToJoin(m: int, e: int, th: int): (r: Listing<NamedKey>)
      reads this
      ensures r.AlreadyInEvent? <==> AcceptedIn(members, m, e)
      ensures r.EventMissing? <==> !AcceptedIn(members, m, e) && forall ev :: ev in events ==> ev.key != e
      ensures r.Items? ==>
                First(events, EventKeyed(e)).Some? &&
                forall nk :: nk in r.items <==>
                  exists tm :: tm in teams && nk == TeamRef(tm) &&
                               OfferedTeam(members, tm, e, th, First(events, EventKeyed(e)).value.maxMembers)
    {
      if AcceptedIn(members, m, e) then AlreadyInEvent
      else
        match First(events, EventKeyed(e))
        case None => EventMissing
        case Some(ev) =>
          var ms := members;
          var cap := ev.maxMembers;
          Items(Map(Filter(teams, (tm: Team) => OfferedTeam(ms, tm, e, th, cap)), TeamRef))
    }

    /** The "needs" text of team (e, t); no value when there is no such row. */
    function GetTeamDescription(e: int, t: int): (r: Option<string>)
      reads this
      ensures r.None? <==> forall tm :: tm in teams ==> !TeamKeyed(e, t)(tm)
      ensures r.Some? ==> exists tm :: tm in teams && TeamKeyed(e, t)(tm) && tm.needs == r.value
    {
      match First(teams, TeamKeyed(e, t))
      case None => None
      case Some(tm) => Some(tm.needs)
    }

    /** The name of team (e, t); no value when there is no such row. */
    function GetTeamName(e: int, t: int): (r: Option<string>)
      reads this
      ensures r.None? <==> forall tm :: tm in teams ==> !TeamKeyed(e, t)(tm)
      ensures r.Some? ==> exists tm :: tm in teams && TeamKeyed(e, t)(tm) && tm.name == r.value
    {
      match First(teams, TeamKeyed(e, t))
      case None => None
      case Some(tm) => Some(tm.name)
    }

    /** The events in which the member holds an accepted membership. */
    function GetMemberEvents(m: int): (r: seq<NamedKey>)
      reads this
      ensures forall nk :: nk in r <==> exists ev :: ev in events && AcceptedIn(members, m, ev.key) && nk == EventRef(ev)
    {
      var joined := Map(Filter(members, (r: Member) => r.memberId == m && r.accepted), MemberEventKey);
      Map(Filter(events, (ev: Event) => ev.key in joined), EventRef)
    }

    /** The team row of the member's first accepted membership in event `e`; no value
        when the member is accepted nowhere in `e` or that team has no row. */
    function GetTeamInfo(m: int, e: int): (r: Option<Team>)
      reads this
      ensures r.None? <==>
                !AcceptedIn(members, m, e) ||
                forall tm :: tm in teams ==> !TeamKeyed(e, First(members, AcceptedInEvent(m, e)).value.teamKey)(tm)
      ensures r.Some? ==> r.value in teams && r.value.eventKey == e &&
                          exists row :: row in members && AcceptedInEvent(m, e)(row) && row.teamKey == r.value.key
      ensures r.Some? && OneTeamPerEvent(members) ==>
                forall row :: row in members && AcceptedInEvent(m, e)(row) ==> row.teamKey == r.value.key
    {
      match First(members, AcceptedInEvent(m, e))
      case None => None
      case Some(row) => First(teams, TeamKeyed(e, row.teamKey))
    }

    /** The member cap of event `e`; no value when there is no such event. */
    function GetMaxMembers(e: int): (r: Option<int>)
      reads this
      ensures r.None? <==> forall ev :: ev in events ==> ev.key != e
      ensures r.Some? ==> exists ev :: ev in events && ev.key == e && ev.maxMembers == r.value
    {
      match First(events, EventKeyed(e))
      case None => None
      case Some(ev) => Some(ev.maxMembers)
    }

    /** The number of accepted members of team (e, t). */
    function GetCurrentMembers(e: int, t: int): (n: nat)
      reads this
      ensures n <= |members|
      ensures n == 0 <==> forall r :: r in members ==> !(r.eventKey == e && r.teamKey == t && r.accepted)
    {
      AcceptedCount(members, e, t)
    }

    /** The pending requests to team (e, t), as (member id, alias), in table order. */
    function GetNotAcceptedMembers(e: int, t: int): (r: seq<IdAlias>)
      reads this
      ensures |r| == Count(members, PendingOfTeam(e, t))
      ensures forall x :: x in r <==>
                exists row :: row in members && row.eventKey == e && row.teamKey == t && !row.accepted &&
                              x == MemberRef(row)
    {
      Map(Filter(members, PendingOfTeam(e, t)), MemberRef)
    }

    /** The alias of the member's first row; no value when the member has none. */
    function GetUserAlias(m: int): (r: Option<string>)
      reads this
      ensures r.None? <==> forall row :: row in members ==> row.memberId != m
      ensures r.Some? ==> exists row :: row in members && row.memberId == m && row.alias == r.value
    {
      match First(members, (row: Member) => row.memberId == m)
      case None => None
      case Some(row) => Some(row.alias)
    }

    /** The accepted members of team (e, t) other than `leader`. */
    function GetTeamMembers(leader: int, e: int, t: int): (r: seq<IdAlias>)
      reads this
      ensures forall x :: x in r ==> x.id != leader
      ensures forall x :: x in r <==>
                exists row :: row in members && AcceptedOfTeam(e, t)(row) && row.memberId != leader &&
                              x == MemberRef(row)
    {
      Map(Filter(members, (row: Member) => AcceptedOfTeam(e, t)(row) && row.memberId != leader), MemberRef)
    }

    /** The leader of team (e, t); no value when there is no such row. */
    function GetLeaderId(e: int, t: int): (r: Option<int>)
      reads this
      ensures r.None? <==> forall tm :: tm in teams ==> !TeamKeyed(e, t)(tm)
      ensures r.Some? ==> exists tm :: tm in teams && TeamKeyed(e, t)(tm) && tm.leaderId == r.value
    {
      match First(teams, TeamKeyed(e, t))
      case None => None
      case Some(tm) => Some(tm.leaderId)
    }

    /** Every theme of event `e`, as (name, key). */
    function GetAllThemes(e: int): (r: seq<NamedKey>)
      reads this
      ensures forall nk :: nk in r <==> exists th :: th in themes && th.eventKey == e && nk == ThemeRef(th)
    {
      Map(Filter(themes, ThemeOfEvent(e)), ThemeRef)
    }

    /** The events the user organises, as (name, key). */
    function GetUserEvents(organizer: int): (r: seq<NamedKey>)
      reads this
      ensures forall nk :: nk in r <==> exists ev :: ev in events && ev.organizerId == organizer && nk == EventRef(ev)
    {
      Map(Filter(events, (ev: Event) => ev.organizerId == organizer), EventRef)
    }

    // -------------------------------------------------------------- mutators

    /** Imports an event and its theme sheet: on any validation error the tables stay
        as they were; otherwise one event row and one theme row per sheet row, keyed by
        the event, are appended. */
    method AddEventTheme(name: string, organizer: int, alias: string, maxMembers: int,
                         sheet: Sheet, hash: string -> int) returns (errors: seq<ImportError>)
      modifies this
      ensures errors == SheetErrors(sheet)
      ensures errors != [] ==> events == old(events) && themes == old(themes)
      ensures errors == [] ==>
                events == old(events) + [Event(name, organizer, alias, maxMembers, hash(name))] &&
                (forall i :: 0 <= i < |sheet.rows| ==> AllDigits(sheet.rows[i].maxTeams)) &&
                themes == old(themes) + ThemeRows(sheet.rows, hash(name), hash)
      ensures errors == [] ==> !IsEventNameUnique(name)
      ensures teams == old(teams) && members == old(members)
    {
      var accepted;
      errors, accepted := Validate(sheet);
      if errors == [] {
        AdmittedCaps(sheet);
        var key := hash(name);
        var event := Event(name, organizer, alias, maxMembers, key);
        themes := themes + ThemeRows(accepted, key, hash);
        events := events + [event];
        assert event in events;
      }
    }

    /** Creates a team, open, with its leader as an accepted member. The caller first
        checks that the leader is accepted nowhere in the event; under that check one
        team per member and event still holds. */
    method AddTeam(e: int, th: int, name: string, leader: int, alias: string, needs: string,
                   hash: string -> int)
      modifies this
      ensures teams == old(teams) + [Team(e, th, name, leader, alias, true, needs, hash(name))]
      ensures members == old(members) + [Member(leader, alias, e, hash(name), true)]
      ensures events == old(events) && themes == old(themes)
      ensures TeamCount(teams, e, th) == TeamCount(old(teams), e, th) + 1
      ensures !IsTeamNameUnique(e, name)
      ensures AcceptedIn(members, leader, e)
      ensures OneTeamPerEvent(old(members)) && !AcceptedIn(old(members), leader, e) ==> OneTeamPerEvent(members)
    {
      var key := hash(name);
      var team := Team(e, th, name, leader, alias, true, needs, key);
      CountAppend(teams, team, TeamOnTheme(e, th));
      teams := teams + [team];
      assert team in teams;
      if OneTeamPerEvent(members) && !AcceptedIn(members, leader, e) {
        AddLeaderKeepsOneTeam(members, leader, alias, e, key);
      }
      members := members + [Member(leader, alias, e, key, true)];
      assert members[|members| - 1] in members;
    }

    /** A join request to team (e, t): refused without change when the member is
        already accepted in the event, a row is missing, or the team is closed or full;
        otherwise one pending row is appended and the leader's details returned. */
    method AddMemberToTeam(m: int, alias: string, e: int, t: int) returns (r: Request)
      modifies this
      ensures (r, members) == RequestJoin(old(events), old(teams), old(members), m, alias, e, t)
      ensures events == old(events) && themes == old(themes) && teams == old(teams)
    {
      if AcceptedIn(members, m, e) {
        return AlreadyJoined;
      }
      var ev := First(events, EventKeyed(e));
      if ev.None? {
        return LookupFailed;
      }
      var tm := First(teams, TeamKeyed(e, t));
      if tm.None? {
        return LookupFailed;
      }
      if !tm.value.isOpen || AcceptedCount(members, e, t) >= ev.value.maxMembers {
        return Unavailable;
      }
      members := members + [Member(m, alias, e, t, false)];
      r := Sent(tm.value.leaderId, tm.value.leaderAlias, tm.value.name);
    }

    /** Accepts member m's request to team (e, t), exclusively within the event: see
        Tables.Accept for the refusals and the new member table. */
    method AcceptMember(e: int, t: int, m: int) returns (r: Acceptance)
      modifies this
      ensures r == Accept(old(events), old(members), e, t, m).0
      ensures members == Accept(old(events), old(members), e, t, m).1
      ensures events == old(events) && themes == old(themes) && teams == old(teams)
    {
      var ev := First(events, EventKeyed(e));
      if ev.None? {
        return EventUnknown;
      }
      var cap := ev.value.maxMembers;
      var current := AcceptedCount(members, e, t);
      if cap == current {
        return TeamFull;
      }
      if Count(members, RequestRow(e, t, m)) == 0 || AcceptedIn(members, m, e) {
        return RequestGone;
      }
      members := AcceptRows(members, e, t, m);
      r := Accepted(cap, current + 1);
    }

    /** Deletes exactly the rows of member m in team (e, t). */
    method RemoveMember(e: int, t: int, m: int)
      modifies this
      ensures members == Drop(old(members), RequestRow(e, t, m))
      ensures forall r :: r in members ==> !RequestRow(e, t, m)(r)
      ensures forall r :: r in old(members) && !RequestRow(e, t, m)(r) ==> r in members
      ensures OneTeamPerEvent(old(members)) ==> OneTeamPerEvent(members)
      ensures events == old(events) && themes == old(themes) && teams == old(teams)
    {
      members := Drop(members, RequestRow(e, t, m));
    }

    /** Negates the open flag of team (e, t); `found` is false, and nothing changes,
        when there is no such row. */
    method FlipTeamOpened(e: int, t: int) returns (found: bool)
      modifies this
      ensures (found, teams) == FlipOpen(old(teams), e, t)
      ensures events == old(events) && themes == old(themes) && members == old(members)
    {
      var first := First(teams, TeamKeyed(e, t));
      if first.None? {
        return false;
      }
      teams := SetOpen(teams, e, t, !first.value.isOpen);
      found := true;
    }

    /** Replaces the "needs" text of team (e, t). */
    method ChangeTeamNeeds(e: int, t: int, needs: string)
      modifies this
      ensures teams == SetNeeds(old(teams), e, t, needs)
      ensures events == old(events) && themes == old(themes) && members == old(members)
    {
      teams := SetNeeds(teams, e, t, needs);
    }

    /** Deletes team (e, t) with every member row of it, returning the ids of its
        accepted members other than the leader. */
    method DeleteTeam(e: int, t: int, leader: int) returns (removed: seq<int>)
      modifies this
      ensures removed == RemovedMembers(old(members), e, t, leader)
      ensures members == Drop(old(members), MemberOfTeam(e, t))
      ensures teams == Drop(old(teams), TeamKeyed(e, t))
      ensures forall r :: r in members ==> !MemberOfTeam(e, t)(r)
      ensures forall tm :: tm in teams ==> !TeamKeyed(e, t)(tm)
      ensures OneTeamPerEvent(old(members)) ==> OneTeamPerEvent(members)
      ensures events == old(events) && themes == old(themes)
    {
      removed := RemovedMembers(members, e, t, leader);
      members := Drop(members, MemberOfTeam(e, t));
      teams := Drop(teams, TeamKeyed(e, t));
    }

    /** Deletes event `e` with all its themes, teams and member rows; rows of other
        events stay. */
    method DeleteEvent(e: int)
      modifies this
      ensures members == Drop(old(members), MemberOfEvent(e))
      ensures teams == Drop(old(teams), TeamOfEvent(e))
      ensures themes == Drop(old(themes), ThemeOfEvent(e))
      ensures events == Drop(old(events), EventKeyed(e))
      ensures (forall r :: r in members ==> r.eventKey != e) && (forall tm :: tm in teams ==> tm.eventKey != e) &&
              (forall th :: th in themes ==> th.eventKey != e) && (forall ev :: ev in events ==> ev.key != e)
      ensures (forall r :: r in old(members) && r.eventKey != e ==> r in members) &&
              (forall tm :: tm in old(teams) && tm.eventKey != e ==> tm in teams) &&
              (forall th :: th in old(themes) && th.eventKey != e ==> th in themes) &&
              (forall ev :: ev in old(events) && ev.key != e ==> ev in events)
    {
      members := Drop(members, MemberOfEvent(e));
      teams := Drop(teams, TeamOfEvent(e));
      themes := Drop(themes, ThemeOfEvent(e));
      events := Drop(events, EventKeyed(e));
    }
  }

  // ---------------------------------------------------------------- lemmas

  /** A theme the listing offers passes the single-theme availability check, when the
      rows of theme (e, th) agree on its team cap. */
  lemma ListedIsAvailable(db: Reader, leader: int, e: int, th: int, nk: NamedKey)
    requires forall a, b :: a in db.themes && b in db.themes && ThemeKeyed(e, th)(a) && ThemeKeyed(e, th)(b) ==>
                            a.maxTeams == b.maxTeams
    requires db.GetThemesToCreate(leader, e).Items?
    requires nk in db.GetThemesToCreate(leader, e).items && nk.key == th
    ensures db.IsCreateThemeAvailable(leader, e, th) == Some(true)
  {
    var row :| row in db.themes && row.eventKey == e && TeamCount(db.teams, e, row.key) < row.maxTeams &&
               nk == ThemeRef(row);
    assert ThemeKeyed(e, th)(row);
    var first := First(db.themes, ThemeKeyed(e, th));
    var i :| 0 <= i < |db.themes| && db.themes[i] == first.value && ThemeKeyed(e, th)(db.themes[i]);
    assert db.themes[i] in db.themes;
  }

  /** A theme that passes the single-theme availability check is offered by the listing. */
  lemma AvailableIsListed(db: Reader, leader: int, e: int, th: int)
    requires db.IsCreateThemeAvailable(leader, e, th) == Some(true)
    ensures db.GetThemesToCreate(leader, e).Items?
    ensures exists nk :: nk in db.GetThemesToCreate(leader, e).items && nk.key == th
  {
    var x :| x in db.themes && ThemeKeyed(e, th)(x) && TeamCount(db.teams, e, th) < x.maxTeams;
    assert ThemeRef(x) in db.GetThemesToCreate(leader, e).items;
  }

  /** Creating a team on a theme the availability check allowed keeps the theme within
      its team cap. */
  lemma CreateStaysWithinThemeCap(db: Reader, leader: int, e: int, th: int, team: Team)
    requires db.IsCreateThemeAvailable(leader, e, th) == Some(true)
    requires team.eventKey == e && team.themeKey == th
    ensures TeamCount(db.teams + [team], e, th) <= First(db.themes, ThemeKeyed(e, th)).value.maxTeams
  {
    CountAppend(db.teams, team, TeamOnTheme(e, th));
  }

  /** A team offered by the team listing has room: its accepted count is below the
      event's cap, so a request to it is sent when its rows agree on the open flag. */
  lemma OfferedTeamAcceptsRequest(db: Reader, m: int, alias: string, e: int, th: int, t: int)
    requires db.GetTeamsToJoin(m, e, th).Items?
    requires exists nk :: nk in db.GetTeamsToJoin(m, e, th).items && nk.key == t
    requires forall a, b :: a in db.teams && b in db.teams && TeamKeyed(e, t)(a) && TeamKeyed(e, t)(b) ==>
                            a.isOpen == b.isOpen
    ensures AcceptedCount(db.members, e, t) < db.GetMaxMembers(e).value
    ensures RequestJoin(db.events, db.teams, db.members, m, alias, e, t).0.Sent?
  {
    var cap := First(db.events, EventKeyed(e)).value.maxMembers;
    var nk :| nk in db.GetTeamsToJoin(m, e, th).items && nk.key == t;
    var tm :| tm in db.teams && nk == TeamRef(tm) && OfferedTeam(db.members, tm, e, th, cap);
    CountMono(db.members, AcceptedOfTeam(e, t), MemberOfTeam(e, t));
    var first := First(db.teams, TeamKeyed(e, t)).value;
    assert first in db.teams;
  }
}
