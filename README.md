# Team-seeker store in Dafny

This project models the store behind a team-seeking bot for hackathon-style events. The
store keeps four tables as fields of one `Reader` object:

- events: name, organiser, alias, member cap, key;
- themes: the nine columns of an imported theme sheet, plus the event key and the theme key;
- teams: event, theme, name, leader, open flag, "needs" text, key;
- members: a pending join request or an accepted membership of a member in a team.

The object answers queries over these tables and mutates them. The mutators import an
event with its theme sheet, create a team together with its leader, send, accept and
remove join requests, open or close a team, edit its needs, and delete a team or a whole
event with everything under it.

Layout:

- `rows.dfy` (module `Rows`) has the row selection the store uses on every table: filter,
  drop, count, first match and column projection over sequences.
- `records.dfy` (module `Records`) has the row types, the result types and the row
  selectors. It also defines the store invariant `OneTeamPerEvent`: a member's accepted
  memberships within one event all lie in one team.
- `import_validator.dfy` (module `ImportValidator`) covers the theme-sheet check of the
  event import:
  - an empty sheet;
  - missing headers;
  - non-numeric team caps;
  - duplicate theme names.

  It also builds the theme rows that a clean sheet commits.
- `tables.dfy` (module `Tables`) has each mutator's effect as a function of the old
  tables, with the lemmas about these functions.
- `reader.dfy` (module `Store`) has the class `Reader`. Its queries are functions that
  read the object. Its mutators are methods that replace the tables, each proved equal to
  the matching `Tables` function or stated outright.

Keys are integers. The source derives them with the runtime's string hash. Here that
hash is a function parameter `hash: string -> int`. A lookup of a row that is not there
raises an index error in the source. Here it is an explicit outcome: `None`,
`LookupFailed`, `EventUnknown`, `EventMissing`, or `found == false`.

## Model

| member | source | states |
|---|---|---|
| Store.Reader.constructor | data_manage.py:24-29 | the store holds exactly the four tables it was loaded with |
| Store.Reader.IsEventNameUnique | data_manage.py:32-33 | true iff no event row carries the name |
| ImportValidator.IsDigit | data_manage.py:36-38 | a cell passes the digit check iff it is non-empty and every character is one of the ten ASCII digits |
| ImportValidator.DigitString | data_manage.py:36-38 | a string is all digits iff each of its characters is one of the ten digit characters |
| ImportValidator.IntegerCellAccepted | data_manage.py:36-38 | the decimal text of every natural number passes the digit check and parses back to that number |
| ImportValidator.MissingErrors | data_manage.py:61-63 | a missing-column error names a header iff that header is required and absent from the sheet; no other error appears |
| ImportValidator.MissingErrorsCount | data_manage.py:61-63 | there are exactly as many missing-column errors as required headers absent from the sheet, one per header |
| ImportValidator.CheckHeader | data_manage.py:61-63 | the header loop produces exactly the missing-column errors, in column order |
| ImportValidator.DuplicateTest | data_manage.py:72-73 | the number of rows matching a row's theme name differs from one iff the name is empty (a blank cell, equal to nothing) or another row carries the same name |
| ImportValidator.RowError | data_manage.py:69-74 | a sheet row is reported, under line index+2, iff its team cap is not all digits, its theme cell is blank, or another row carries its theme name; a non-digit cap is reported as not a number (with the cell), otherwise the fault is reported as a duplicate (with the name) |
| ImportValidator.RowErrors | data_manage.py:68-75 | the row pass yields only number or duplicate errors, no more than the rows checked, each naming a line of a checked row, in strictly increasing line order, so at most one per row |
| ImportValidator.RowErrorsLine | data_manage.py:68-74 | line i+2 is reported after n rows iff i < n and row i is faulty |
| ImportValidator.RowReported | data_manage.py:68-74 | line i+2 is reported iff row i's cap is not a digit string, its theme cell is blank or another row carries its theme name |
| ImportValidator.ReportsAppend | data_manage.py:68-75 | a line is reported by the concatenated error lists iff it is reported by one of them |
| ImportValidator.NoErrorsAllPass | data_manage.py:68-76 | every row either yields an error or is kept; no errors iff every row is kept, in order |
| ImportValidator.SheetErrors | data_manage.py:55-75 | an empty sheet gives exactly the no-data error; any missing header gives exactly the missing-header errors with no row checks; otherwise only row errors |
| ImportValidator.MissingHeadersCount | data_manage.py:61-66 | a non-empty sheet with a missing header gets one error per absent required header |
| ImportValidator.AdmittedSheet | data_manage.py:55-76 | a sheet with no errors is non-empty, has every header, has digit-only caps, has no blank theme cell and has pairwise distinct theme names |
| ImportValidator.AdmittedCaps | data_manage.py:55-90 | every row of a sheet with no errors has a cap that parses as a number |
| ImportValidator.CleanSheetAdmitted | data_manage.py:55-76 | conversely, a non-empty sheet with every header, digit-only caps, no blank theme cell and pairwise distinct theme names has no errors |
| ImportValidator.CleanRowsNoErrors | data_manage.py:68-75 | when no row is faulty the row pass yields no error |
| ImportValidator.Validate | data_manage.py:55-75 | the header loop and the row loop produce exactly the sheet's errors; with none, every sheet row is accepted |
| ImportValidator.CheckRows | data_manage.py:68-75 | the row loop produces exactly the row errors; with none, every row is kept |
| ImportValidator.ThemeRows | data_manage.py:83-90 | one theme row per sheet row, in order; each carries its sheet row's name, company, responsible, email, description, background, problem and expected result, the parsed cap, the event's key and the hash of the theme name as key |
| Store.Reader.AddEventTheme | data_manage.py:41-92 | the returned errors are the sheet's errors; with errors no table changes; otherwise exactly one event row (key = hash of the name) and the sheet's theme rows are appended, and the name is no longer unique |
| Store.Reader.GetEvents | data_manage.py:95-96 | every event as (name, key), in table order |
| Store.Reader.GetEventName | data_manage.py:99-100 | the name of an event row with the key; none iff there is no such row |
| Store.Reader.GetThemesToCreate | data_manage.py:103-111 | refused iff the caller is accepted in the event; otherwise exactly the event's themes with fewer teams than their cap |
| Store.Reader.GetThemeInfo | data_manage.py:114-118 | a theme row of (event, theme) with the event's name; none iff the event or the theme row is missing |
| Store.Reader.IsCreateThemeAvailable | data_manage.py:121-129 | false for a caller accepted in the event; none iff no theme row (and not accepted); true only if the theme's team count is below its cap |
| Store.ListedIsAvailable | data_manage.py:103-129 | a theme the listing offers passes the availability check |
| Store.AvailableIsListed | data_manage.py:103-129 | a theme that passes the availability check is offered by the listing |
| Store.CreateStaysWithinThemeCap | data_manage.py:121-169 | a team created on a theme the check allowed leaves the theme within its team cap |
| Store.Reader.GetThemeName | data_manage.py:132-133 | the name of a theme row (event, theme); none iff there is no such row |
| Store.Reader.IsTeamNameUnique | data_manage.py:136-137 | true iff no team of the event carries the name |
| Store.Reader.AddTeam | data_manage.py:140-169 | exactly one open team row and one accepted leader row with the same event and team keys are appended; nothing else changes; the theme's team count rises by one; one team per member and event is kept when the leader was accepted nowhere in the event |
| Tables.AddLeaderKeepsOneTeam | data_manage.py:158-169 | inserting the leader as accepted keeps one team per member and event when the leader held no accepted membership there |
| Store.Reader.GetThemesToJoin | data_manage.py:172-187 | refused iff the member is accepted in the event; missing event reported; otherwise exactly the themes of teams that are open, have between one and cap-1 accepted members and hold no row of the member |
| Store.Reader.GetTeamsToJoin | data_manage.py:190-204 | refused iff the member is accepted in the event; missing event reported; otherwise exactly the open teams of (event, theme) with between one and cap-1 rows of any status |
| Store.OfferedTeamAcceptsRequest | data_manage.py:190-245 | a team the team listing offers has fewer accepted members than the cap, and a request to it is sent |
| Store.Reader.GetTeamDescription | data_manage.py:207-209 | the needs text of a team row (event, team); none iff there is no such row |
| Store.Reader.GetTeamName | data_manage.py:212-214 | the name of a team row (event, team); none iff there is no such row |
| Tables.RequestJoin | data_manage.py:217-245 | "already joined" iff accepted in the event; lookup failure iff the event or team row is missing; "unavailable" iff the first team row is closed or the team is full; otherwise exactly one pending row is appended and the first team row's leader, leader alias and name returned; refusals change nothing; one team per member and event is kept |
| Store.Reader.AddMemberToTeam | data_manage.py:217-245 | the outcome and the new member table are those of the join request; the other tables do not change |
| Tables.RequestThenAccept | data_manage.py:231-242 | a sent request adds one pending row for (event, team, member), leaves the team's accepted count alone and does not make the member accepted |
| Store.Reader.GetMemberEvents | data_manage.py:248-251 | exactly the events in which the member holds an accepted membership |
| Store.Reader.GetTeamInfo | data_manage.py:254-258 | none iff the member is accepted nowhere in the event or the team of its first accepted row there has no team row; otherwise a team row of the event holding one of the member's accepted memberships, and under one team per member and event the team of every such membership |
| Store.Reader.GetMaxMembers | data_manage.py:261-262 | the cap of an event row with the key; none iff there is no such row |
| Store.Reader.GetCurrentMembers | data_manage.py:265-268 | the number of accepted members of the team; zero iff there are none |
| Store.Reader.GetNotAcceptedMembers | data_manage.py:271-275 | exactly the pending requests to the team, one entry per row |
| Store.Reader.GetUserAlias | data_manage.py:278-279 | the alias of a row of the member; none iff the member has no row |
| Tables.MarkAccepted | data_manage.py:293 | every row of the request is marked accepted and every other row is kept, position by position |
| Tables.AcceptRows | data_manage.py:293-298 | afterwards no pending row of the member in the event remains, the request's rows are accepted, rows of others and accepted rows are kept, and no other row appears |
| Tables.AcceptKeepsOthers | data_manage.py:293-298 | the rows of other members or other events are the same sequence before and after acceptance |
| Tables.AcceptCount | data_manage.py:283-300 | for a member accepted nowhere in the event, acceptance raises the team's accepted count by the number of request rows |
| Tables.AcceptAsWritten | data_manage.py:282-300 | the acceptance as written: unknown event iff no event row; "team full" iff the accepted count equals the cap; "request gone" iff not full and no request row exists; refusals change nothing; otherwise returns [cap, count+1] and applies the acceptance rows |
| Tables.Accept | data_manage.py:282-300 | unknown event iff no event row; "team full" iff the accepted count equals the cap; "request gone" iff not full and no request row exists or the member is already accepted in the event; otherwise returns [cap, count+1] and applies the acceptance; one team per member and event is kept |
| Tables.AcceptAgrees | data_manage.py:282-300 | for a member accepted nowhere in the event the corrected acceptance is exactly the acceptance as written |
| Tables.AcceptKeepsOneTeam | data_manage.py:282-300 | accepting a member with no accepted membership in the event keeps one team per member and event |
| Tables.AcceptWithinCapacity | data_manage.py:283-300 | with a single request row, the accepted count afterwards equals the reported count and stays within the cap |
| Tables.AcceptAsWrittenAcceptsTwice | data_manage.py:282-300 | a concrete state (team 10 led by member 5, member 7 pending in team 10 and leading team 20) on which the acceptance as written returns [4, 2] and gives member 7 accepted memberships in two teams of one event |
| Tables.AcceptRefusesSecondTeam | data_manage.py:282-300 | on that state the corrected acceptance reports the request as gone |
| Store.Reader.AcceptMember | data_manage.py:282-300 | the outcome and the new member table are those of the corrected acceptance; the other tables do not change |
| Store.Reader.RemoveMember | data_manage.py:303-307 | exactly the rows of (event, team, member) are deleted; every other row stays; one team per member and event is kept |
| Tables.DropKeepsOneTeam | data_manage.py:303-307 | deleting rows keeps one team per member and event |
| Tables.SetOpen | data_manage.py:312 | every row of the team gets the flag; every other row is unchanged |
| Tables.FlipOpen | data_manage.py:310-312 | found iff the team has a row; then all its rows take the negation of the first row's flag; otherwise nothing changes |
| Tables.FirstAfterSetOpen | data_manage.py:310-312 | after the flag is set, the team's first row carries it |
| Tables.FlipTwice | data_manage.py:310-312 | flipping a team twice restores the team table when its rows agree on the flag |
| Store.Reader.FlipTeamOpened | data_manage.py:310-312 | the found flag and the new team table are those of the flip; the other tables do not change |
| Store.Reader.GetTeamMembers | data_manage.py:315-319 | exactly the accepted members of the team other than the leader |
| Tables.SetNeeds | data_manage.py:322-324 | every row of the team gets the new needs text; every other row is unchanged |
| Tables.SetNeedsTwice | data_manage.py:322-324 | the last needs update wins |
| Store.Reader.ChangeTeamNeeds | data_manage.py:322-324 | the team table is the needs update of the old one; the other tables do not change |
| Tables.RemovedMembers | data_manage.py:328-331 | exactly the ids of the team's accepted members other than the leader; never the leader; no more than the accepted count |
| Store.Reader.DeleteTeam | data_manage.py:327-341 | returns the removed members; afterwards no member row and no team row of (event, team) remains, every other row stays, and one team per member and event is kept |
| Store.Reader.GetLeaderId | data_manage.py:344-346 | the leader of a team row (event, team); none iff there is no such row |
| Store.Reader.GetAllThemes | data_manage.py:349-350 | exactly the themes of the event |
| Store.Reader.GetUserEvents | data_manage.py:353-354 | exactly the events the user organises |
| Store.Reader.DeleteEvent | data_manage.py:357-368 | afterwards no member, team, theme or event row carries the event's key, and every row of another event stays |

## Left out

- Persistence is not modelled: the Excel load (`get_dfs`, data_manage.py:24-29), `save_data` and the hourly saver thread of the bot. The constructor takes the four tables as values.
- The singleton plumbing in `__new__` and `__init__` is left out.
- Reading the upload and deleting the file afterwards are file I/O. The sheet is an input value: a set of column names and a sequence of rows whose cells are already text.
- main.py is not part of this model. It is the chat front end: handlers, keyboards and message text.
- The runtime's string hash and its per-process salting are not modelled. The key function is a parameter.
- ImportValidator.IsDigit accepts only the ASCII digits 0-9. The runtime's digit test also accepts other Unicode digit characters. A blank theme cell is modelled as the empty name: the spreadsheet reader turns it into NaN, which equals no cell, so the row is reported as a duplicate. A blank team cap is read as NaN, whose text "nan" is not a digit string; the model takes it as that text. Other non-text cells (floats) are modelled only through their text form. In particular, one blank `max_teams` cell makes the spreadsheet reader read the whole column as floats, so every other cap reads as text such as "5.0" and the source reports every row as not a number; the model takes each row's cap text as given and reports only the blank row.
- ImportValidator.ThemeRows keeps the nine named columns. Extra sheet columns, which the source would carry into the theme table, are dropped.
- The numeric conversion of key columns after each import is left out. Keys are integers throughout.
- Store.Reader.GetThemeInfo does not model the replacement of missing cells by `None`.
- Store.Reader.GetThemesToCreate returns the themes in table order. The source's outer merge may order them by theme key instead. Membership is modelled exactly.
- Store.Reader.IsCreateThemeAvailable reads the team cap from the theme's `maxTeams` field. The source reads it by position (column 3), which is `responsible` in the sheet's column order.
- Tables.RequestJoin selects the team row by (event, team). The source mixes a member-table mask into the team-table filter (data_manage.py:224-225).
- Store.Reader.GetThemesToJoin keeps the source's selections as they are:
  - team rows and theme rows are not restricted to the event;
  - a team with no accepted member is never offered, because a value count lists only keys that occur.
- Store.Reader.GetTeamsToJoin keeps the source's count of pending rows together with accepted ones.
- Tables.AcceptWithinCapacity assumes the request has a single row. Nothing in the source stops a member from sending two requests to the same team: the team listing does not exclude teams already requested. Accepting such a request marks both rows accepted. The count then rises by two while the reply says one more.
- Concurrency is not modelled. The source has no locking, and the model is sequential.

## Findings

| source | as written | input that shows it | evidently intended | confidence | as-written member | corrected member |
|---|---|---|---|---|---|---|
| data_manage.py:282-300 | the member to accept is not checked for an accepted membership elsewhere in the event | team 10 of event 100 is led by member 5; member 7 requests team 10, then creates team 20 there (add_team inserts 7 as accepted and keeps the request), then team 10's leader accepts 7 | refuse with code 2 ("accepted into another team" in the front end), keeping one accepted team per member and event | high, not executed | Tables.AcceptAsWrittenAcceptsTwice | Tables.AcceptKeepsOneTeam |
