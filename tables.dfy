/** The table transitions behind the store's mutators, as functions of the old tables,
    and what they keep: exclusive acceptance, team capacity, one team per member and
    event, and "nothing else changes". */
module Tables {
  import opened Rows
  import opened Records

  /** The member table with every row of request (e, t, m) marked accepted. */
  function MarkAccepted(ms: seq<Member>, e: int, t: int, m: int): (r: seq<Member>)
    ensures |r| == |ms|
    ensures forall i :: 0 <= i < |ms| ==>
              r[i] == if RequestRow(e, t, m)(ms[i]) then ms[i].(accepted := true) else ms[i]
  {
    if ms == [] then []
    else
      var x := ms[0];
      [if RequestRow(e, t, m)(x) then x.(accepted := true) else x] + MarkAccepted(ms[1..], e, t, m)
  }

  /** The rows of member m in event e are the only ones acceptance touches. */
  function OtherThan(e: int, m: int): Member -> bool
  {
    (r: Member) => r.eventKey != e || r.memberId != m
  }

  /** Acceptance of request (e, t, m): its rows become accepted, then every pending row
      of member m in event e is deleted. */
  function AcceptRows(ms: seq<Member>, e: int, t: int, m: int): (r: seq<Member>)
    ensures forall x :: x in r ==> !PendingInEvent(e, m)(x)
    ensures forall y :: y in ms && RequestRow(e, t, m)(y) ==> y.(accepted := true) in r
    ensures forall x :: x in ms && OtherThan(e, m)(x) ==> x in r
    ensures forall x :: x in ms && x.accepted ==> x in r
    ensures forall x :: x in r ==>
              x in ms || (x.accepted && RequestRow(e, t, m)(x) && x.(accepted := false) in ms)
  {
    var marked := MarkAccepted(ms, e, t, m);
    assert forall y :: y in ms ==> exists i :: 0 <= i < |ms| && ms[i] == y;
    assert forall x :: x in marked ==> exists i :: 0 <= i < |ms| && marked[i] == x;
    Drop(marked, PendingInEvent(e, m))
  }

  /** Acceptance leaves every row of another member or another event where it was:
      the sub-table of those rows is the same sequence before and after. */
  lemma {:induction false} AcceptKeepsOthers(ms: seq<Member>, e: int, t: int, m: int)
    ensures Filter(AcceptRows(ms, e, t, m), OtherThan(e, m)) == Filter(ms, OtherThan(e, m))
  {
    var marked := MarkAccepted(ms, e, t, m);
    DropThenFilter(marked, PendingInEvent(e, m), OtherThan(e, m));
    MarkKeepsOthers(ms, e, t, m);
  }

  lemma {:induction false} MarkKeepsOthers(ms: seq<Member>, e: int, t: int, m: int)
    ensures Filter(MarkAccepted(ms, e, t, m), OtherThan(e, m)) == Filter(ms, OtherThan(e, m))
  {
    if ms != [] {
      var marked := MarkAccepted(ms, e, t, m);
      assert marked[1..] == MarkAccepted(ms[1..], e, t, m);
      MarkKeepsOthers(ms[1..], e, t, m);
    }
  }

  /** Marking a request accepted adds its rows to the team's accepted count, provided
      none of them was accepted already. */
  lemma {:induction false} MarkCount(ms: seq<Member>, e: int, t: int, m: int)
    requires forall x :: x in ms && RequestRow(e, t, m)(x) ==> !x.accepted
    ensures AcceptedCount(MarkAccepted(ms, e, t, m), e, t) ==
            AcceptedCount(ms, e, t) + Count(ms, RequestRow(e, t, m))
  {
    if ms != [] {
      var marked := MarkAccepted(ms, e, t, m);
      assert marked[1..] == MarkAccepted(ms[1..], e, t, m);
      assert forall x :: x in ms[1..] ==> x in ms;
      MarkCount(ms[1..], e, t, m);
    }
  }

  /** Accepting a request of a member who is accepted nowhere in the event raises the
      team's accepted count by the number of the request's rows. */
  lemma AcceptCount(ms: seq<Member>, e: int, t: int, m: int)
    requires !AcceptedIn(ms, m, e)
    ensures AcceptedCount(AcceptRows(ms, e, t, m), e, t) ==
            AcceptedCount(ms, e, t) + Count(ms, RequestRow(e, t, m))
  {
    var marked := MarkAccepted(ms, e, t, m);
    DropThenFilter(marked, PendingInEvent(e, m), AcceptedOfTeam(e, t));
    MarkCount(ms, e, t, m);
  }

  /** accept_member as written: refuses when the event is unknown (the lookup raises),
      when the accepted count equals the cap, or when no row matches the request. */
  function AcceptAsWritten(events: seq<Event>, ms: seq<Member>, e: int, t: int, m: int)
    : (out: (Acceptance, seq<Member>))
    ensures out.0.EventUnknown? <==> forall ev :: ev in events ==> ev.key != e
    ensures out.0.TeamFull? <==>
              First(events, EventKeyed(e)).Some? &&
              First(events, EventKeyed(e)).value.maxMembers == AcceptedCount(ms, e, t)
    ensures out.0.RequestGone? <==>
              First(events, EventKeyed(e)).Some? &&
              First(events, EventKeyed(e)).value.maxMembers != AcceptedCount(ms, e, t) &&
              Count(ms, RequestRow(e, t, m)) == 0
    ensures !out.0.Accepted? ==> out.1 == ms
    ensures out.0.Accepted? ==>
              out.0 == Accepted(First(events, EventKeyed(e)).value.maxMembers, AcceptedCount(ms, e, t) + 1) &&
              out.1 == AcceptRows(ms, e, t, m) && Count(ms, RequestRow(e, t, m)) > 0
  {
    match First(events, EventKeyed(e))
    case None => (EventUnknown, ms)
    case Some(ev) =>
      var cur := AcceptedCount(ms, e, t);
      if ev.maxMembers == cur then (TeamFull, ms)
      else if Count(ms, RequestRow(e, t, m)) == 0 then (RequestGone, ms)
      else (Accepted(ev.maxMembers, cur + 1), AcceptRows(ms, e, t, m))
  }

  /** accept_member with the refusal its callers expect: a member already accepted in
      the event is reported as gone (accepted elsewhere) instead of being accepted twice. */
  function Accept(events: seq<Event>, ms: seq<Member>, e: int, t: int, m: int)
    : (out: (Acceptance, seq<Member>))
    ensures out.0.EventUnknown? <==> forall ev :: ev in events ==> ev.key != e
    ensures out.0.TeamFull? <==>
              First(events, EventKeyed(e)).Some? &&
              First(events, EventKeyed(e)).value.maxMembers == AcceptedCount(ms, e, t)
    ensures out.0.RequestGone? <==>
              First(events, EventKeyed(e)).Some? &&
              First(events, EventKeyed(e)).value.maxMembers != AcceptedCount(ms, e, t) &&
              (Count(ms, RequestRow(e, t, m)) == 0 || AcceptedIn(ms, m, e))
    ensures !out.0.Accepted? ==> out.1 == ms
    ensures out.0.Accepted? ==>
              First(events, EventKeyed(e)).Some? &&
              out.0.maxMembers == First(events, EventKeyed(e)).value.maxMembers &&
              out.0.maxMembers != AcceptedCount(ms, e, t) &&
              out.0.current == AcceptedCount(ms, e, t) + 1 &&
              Count(ms, RequestRow(e, t, m)) > 0 && !AcceptedIn(ms, m, e) &&
              out.1 == AcceptRows(ms, e, t, m)
    ensures OneTeamPerEvent(ms) ==> OneTeamPerEvent(out.1)
  {
    match First(events, EventKeyed(e))
    case None => (EventUnknown, ms)
    case Some(ev) =>
      var cur := AcceptedCount(ms, e, t);
      if ev.maxMembers == cur then (TeamFull, ms)
      else if Count(ms, RequestRow(e, t, m)) == 0 || AcceptedIn(ms, m, e) then (RequestGone, ms)
      else
        assert OneTeamPerEvent(ms) ==> OneTeamPerEvent(AcceptRows(ms, e, t, m)) by {
          if OneTeamPerEvent(ms) { AcceptKeepsOneTeam(ms, e, t, m); }
        }
        (Accepted(ev.maxMembers, cur + 1), AcceptRows(ms, e, t, m))
  }

  /** Outside the case the correction adds, the corrected acceptance is the acceptance
      as written: same reply, same member table. */
  lemma AcceptAgrees(events: seq<Event>, ms: seq<Member>, e: int, t: int, m: int)
    requires !AcceptedIn(ms, m, e)
    ensures Accept(events, ms, e, t, m) == AcceptAsWritten(events, ms, e, t, m)
  {
  }

  /** Accepting a member who holds no accepted membership in the event keeps every
      member's accepted memberships of one event within one team. */
  lemma AcceptKeepsOneTeam(ms: seq<Member>, e: int, t: int, m: int)
    requires OneTeamPerEvent(ms) && !AcceptedIn(ms, m, e)
    ensures OneTeamPerEvent(AcceptRows(ms, e, t, m))
  {
    var r := AcceptRows(ms, e, t, m);
    forall a, b | a in r && b in r && a.accepted && b.accepted &&
                  a.memberId == b.memberId && a.eventKey == b.eventKey
      ensures a.teamKey == b.teamKey
    {
      if a.memberId == m && a.eventKey == e {
        assert a !in ms && b !in ms;
      }
    }
  }

  /** Capacity: when the team was within its cap and the request has one row, the
      accepted count after acceptance is the reported count, and still within the cap. */
  lemma AcceptWithinCapacity(events: seq<Event>, ms: seq<Member>, e: int, t: int, m: int)
    requires Accept(events, ms, e, t, m).0.Accepted?
    requires AcceptedCount(ms, e, t) <= Accept(events, ms, e, t, m).0.maxMembers
    requires Count(ms, RequestRow(e, t, m)) <= 1
    ensures AcceptedCount(Accept(events, ms, e, t, m).1, e, t) == Accept(events, ms, e, t, m).0.current
    ensures Accept(events, ms, e, t, m).0.current <= Accept(events, ms, e, t, m).0.maxMembers
  {
    AcceptCount(ms, e, t, m);
  }

  /** The as-written acceptance admits a second accepted membership in one event.
      Member 5 leads team 10 of event 100; member 7 asks to join team 10, then creates
      team 20 there (which inserts 7 as the accepted leader and leaves the request in
      place); member 5 then accepts the request. */
  lemma AcceptAsWrittenAcceptsTwice()
    ensures var led := [Member(5, "l", 100, 10, true), Member(7, "m", 100, 10, false), Member(7, "m", 100, 20, true)];
            var out := AcceptAsWritten([Event("Hackathon", 1, "org", 4, 100)], led, 100, 10, 7);
            OneTeamPerEvent(led) && out.0 == Accepted(4, 2) && !OneTeamPerEvent(out.1)
  {
    var events := [Event("Hackathon", 1, "org", 4, 100)];
    var led := [Member(5, "l", 100, 10, true), Member(7, "m", 100, 10, false), Member(7, "m", 100, 20, true)];
    assert OneTeamPerEvent(led) by {
      forall a, b | a in led && b in led && a.accepted && b.accepted &&
                    a.memberId == b.memberId && a.eventKey == b.eventKey
        ensures a.teamKey == b.teamKey
      {
        assert a == led[0] || a == led[2];
        assert b == led[0] || b == led[2];
      }
    }
    assert First(events, EventKeyed(100)) == Some(events[0]);
    assert AcceptedCount(led, 100, 10) == 1 by {
      CountSingle(led, AcceptedOfTeam(100, 10), 0);
    }
    assert Count(led, RequestRow(100, 10, 7)) > 0 by {
      assert led[1] in led && RequestRow(100, 10, 7)(led[1]);
    }
    var out := AcceptAsWritten(events, led, 100, 10, 7);
    assert out.0 == Accepted(4, 2);
    assert led[1].(accepted := true) in out.1;
    assert led[2] in out.1;
  }

  /** The scenario above is the one the corrected acceptance refuses: the member who
      created team 20 is already accepted in the event. */
  lemma AcceptRefusesSecondTeam()
    ensures var led := [Member(5, "l", 100, 10, true), Member(7, "m", 100, 10, false), Member(7, "m", 100, 20, true)];
            Accept([Event("Hackathon", 1, "org", 4, 100)], led, 100, 10, 7).0 == RequestGone
  {
    var events := [Event("Hackathon", 1, "org", 4, 100)];
    var led := [Member(5, "l", 100, 10, true), Member(7, "m", 100, 10, false), Member(7, "m", 100, 20, true)];
    assert First(events, EventKeyed(100)) == Some(events[0]);
    assert AcceptedCount(led, 100, 10) == 1 by {
      CountSingle(led, AcceptedOfTeam(100, 10), 0);
    }
    assert led[2] in led;
    assert AcceptedIn(led, 7, 100);
  }

  /** A join request: refused when the member is already accepted in the event, when
      the event or team row is missing (the lookups raise), or when the team is closed
      or full; otherwise one pending row is appended and the leader's details returned. */
  function RequestJoin(events: seq<Event>, teams: seq<Team>, ms: seq<Member>,
                       m: int, alias: string, e: int, t: int): (out: (Request, seq<Member>))
    ensures out.0.AlreadyJoined? <==> AcceptedIn(ms, m, e)
    ensures out.0.LookupFailed? <==>
              !AcceptedIn(ms, m, e) &&
              ((forall ev :: ev in events ==> ev.key != e) || (forall tm :: tm in teams ==> !TeamKeyed(e, t)(tm)))
    ensures out.0.Unavailable? <==>
              !AcceptedIn(ms, m, e) &&
              First(events, EventKeyed(e)).Some? && First(teams, TeamKeyed(e, t)).Some? &&
              (!First(teams, TeamKeyed(e, t)).value.isOpen ||
               AcceptedCount(ms, e, t) >= First(events, EventKeyed(e)).value.maxMembers)
    ensures out.0.Sent? ==>
              First(events, EventKeyed(e)).Some? && First(teams, TeamKeyed(e, t)).Some? &&
              AcceptedCount(ms, e, t) < First(events, EventKeyed(e)).value.maxMembers &&
              First(teams, TeamKeyed(e, t)).value.isOpen &&
              out.0 == Sent(First(teams, TeamKeyed(e, t)).value.leaderId,
                            First(teams, TeamKeyed(e, t)).value.leaderAlias,
                            First(teams, TeamKeyed(e, t)).value.name)
    ensures !out.0.Sent? ==> out.1 == ms
    ensures out.0.Sent? ==> out.1 == ms + [Member(m, alias, e, t, false)]
    ensures OneTeamPerEvent(ms) ==> OneTeamPerEvent(out.1)
  {
    if AcceptedIn(ms, m, e) then (AlreadyJoined, ms)
    else
      match First(events, EventKeyed(e))
      case None => (LookupFailed, ms)
      case Some(ev) =>
        match First(teams, TeamKeyed(e, t))
        case None => (LookupFailed, ms)
        case Some(tm) =>
          if !tm.isOpen || AcceptedCount(ms, e, t) >= ev.maxMembers then (Unavailable, ms)
          else (Sent(tm.leaderId, tm.leaderAlias, tm.name), ms + [Member(m, alias, e, t, false)])
  }

  /** A request by a member accepted nowhere in the event that is not refused is what
      acceptance later counts: one more pending row for (e, t, m). */
  lemma RequestThenAccept(events: seq<Event>, teams: seq<Team>, ms: seq<Member>,
                          m: int, alias: string, e: int, t: int)
    requires RequestJoin(events, teams, ms, m, alias, e, t).0.Sent?
    ensures var ms' := RequestJoin(events, teams, ms, m, alias, e, t).1;
            Count(ms', RequestRow(e, t, m)) == Count(ms, RequestRow(e, t, m)) + 1 &&
            AcceptedCount(ms', e, t) == AcceptedCount(ms, e, t) &&
            !AcceptedIn(ms', m, e)
  {
    var row := Member(m, alias, e, t, false);
    CountAppend(ms, row, RequestRow(e, t, m));
    CountAppend(ms, row, AcceptedOfTeam(e, t));
  }

  /** create_team inserts the leader as an accepted member; when the leader is accepted
      nowhere else in the event (what the caller checks first) one team per member and
      event still holds. */
  lemma AddLeaderKeepsOneTeam(ms: seq<Member>, leader: int, alias: string, e: int, key: int)
    requires OneTeamPerEvent(ms) && !AcceptedIn(ms, leader, e)
    ensures OneTeamPerEvent(ms + [Member(leader, alias, e, key, true)])
    ensures AcceptedIn(ms + [Member(leader, alias, e, key, true)], leader, e)
  {
    assert Member(leader, alias, e, key, true) in ms + [Member(leader, alias, e, key, true)];
  }

  /** Deleting rows never breaks one team per member and event. */
  lemma DropKeepsOneTeam(ms: seq<Member>, doomed: Member -> bool)
    requires OneTeamPerEvent(ms)
    ensures OneTeamPerEvent(Drop(ms, doomed))
  {
  }

  /** The team table with the open flag of every row of team (e, t) set to `open`. */
  function SetOpen(teams: seq<Team>, e: int, t: int, open: bool): (r: seq<Team>)
    ensures |r| == |teams|
    ensures forall i :: 0 <= i < |teams| ==>
              r[i] == if TeamKeyed(e, t)(teams[i]) then teams[i].(isOpen := open) else teams[i]
  {
    Map(teams, (tm: Team) => if TeamKeyed(e, t)(tm) then tm.(isOpen := open) else tm)
  }

  /** flip_team_opened: every row of team (e, t) takes the negation of the first such
      row's flag. Without such a row the source raises; here nothing changes and the
      flag `found` is false. */
  function FlipOpen(teams: seq<Team>, e: int, t: int): (out: (bool, seq<Team>))
    ensures out.0 <==> exists tm :: tm in teams && TeamKeyed(e, t)(tm)
    ensures !out.0 ==> out.1 == teams
    ensures out.0 ==> out.1 == SetOpen(teams, e, t, !First(teams, TeamKeyed(e, t)).value.isOpen)
  {
    match First(teams, TeamKeyed(e, t))
    case None => (false, teams)
    case Some(tm) => (true, SetOpen(teams, e, t, !tm.isOpen))
  }

  /** Setting the flag twice is setting it to the second value. */
  lemma SetOpenTwice(teams: seq<Team>, e: int, t: int, a: bool, b: bool)
    ensures SetOpen(SetOpen(teams, e, t, a), e, t, b) == SetOpen(teams, e, t, b)
  {
  }

  /** Setting the flag a team's rows already have changes nothing. */
  lemma SetOpenSame(teams: seq<Team>, e: int, t: int, v: bool)
    requires forall i :: 0 <= i < |teams| && TeamKeyed(e, t)(teams[i]) ==> teams[i].isOpen == v
    ensures SetOpen(teams, e, t, v) == teams
  {
  }

  /** After the flag of a team is set, the team's first row carries the new flag. */
  lemma FirstAfterSetOpen(teams: seq<Team>, e: int, t: int, b: bool)
    requires exists tm :: tm in teams && TeamKeyed(e, t)(tm)
    ensures First(SetOpen(teams, e, t, b), TeamKeyed(e, t)).Some?
    ensures First(SetOpen(teams, e, t, b), TeamKeyed(e, t)).value.isOpen == b
  {
    var after := SetOpen(teams, e, t, b);
    var tm :| tm in teams && TeamKeyed(e, t)(tm);
    var j :| 0 <= j < |teams| && teams[j] == tm;
    assert after[j] in after && TeamKeyed(e, t)(after[j]);
    var k :| 0 <= k < |after| && after[k] == First(after, TeamKeyed(e, t)).value && TeamKeyed(e, t)(after[k]);
    assert TeamKeyed(e, t)(teams[k]);
  }

  /** Flipping a team twice restores the team table when its rows agree on the flag
      (as they do when the team has a single row). */
  lemma FlipTwice(teams: seq<Team>, e: int, t: int)
    requires forall a, b :: a in teams && b in teams && TeamKeyed(e, t)(a) && TeamKeyed(e, t)(b) ==>
                            a.isOpen == b.isOpen
    ensures FlipOpen(FlipOpen(teams, e, t).1, e, t).1 == teams
  {
    var first := First(teams, TeamKeyed(e, t));
    if first.Some? {
      var v := first.value.isOpen;
      assert first.value in teams;
      FirstAfterSetOpen(teams, e, t, !v);
      SetOpenTwice(teams, e, t, !v, v);
      assert forall i :: 0 <= i < |teams| && TeamKeyed(e, t)(teams[i]) ==> teams[i].isOpen == v by {
        forall i | 0 <= i < |teams| && TeamKeyed(e, t)(teams[i]) ensures teams[i].isOpen == v {
          assert teams[i] in teams;
        }
      }
      SetOpenSame(teams, e, t, v);
    }
  }

  /** change_team_needs: every row of team (e, t) gets the new "needs" text. */
  function SetNeeds(teams: seq<Team>, e: int, t: int, needs: string): (r: seq<Team>)
    ensures |r| == |teams|
    ensures forall i :: 0 <= i < |teams| ==>
              r[i] == if TeamKeyed(e, t)(teams[i]) then teams[i].(needs := needs) else teams[i]
  {
    Map(teams, (tm: Team) => if TeamKeyed(e, t)(tm) then tm.(needs := needs) else tm)
  }

  /** The last "needs" update of a team wins. */
  lemma SetNeedsTwice(teams: seq<Team>, e: int, t: int, first: string, second: string)
    ensures SetNeeds(SetNeeds(teams, e, t, first), e, t, second) == SetNeeds(teams, e, t, second)
  {
  }

  /** The ids delete_team reports: accepted members of team (e, t) other than `leader`,
      in table order. */
  function RemovedMembers(ms: seq<Member>, e: int, t: int, leader: int): (ids: seq<int>)
    ensures leader !in ids
    ensures forall id :: id in ids <==>
              exists r :: r in ms && AcceptedOfTeam(e, t)(r) && r.memberId == id && id != leader
    ensures |ids| <= AcceptedCount(ms, e, t)
  {
    var rows := Filter(ms, (r: Member) => AcceptedOfTeam(e, t)(r) && r.memberId != leader);
    FilterOfFilter(ms, AcceptedOfTeam(e, t), (r: Member) => AcceptedOfTeam(e, t)(r) && r.memberId != leader);
    Map(rows, MemberIdOf)
  }
}
