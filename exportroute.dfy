/** `GET /api/admin/results/export`: scores every candidate of an event,
    ranks each group by weighted score, orders all rows by group name and
    then score, and answers with a byte-order mark followed by the CSV
    text of the rows. */
module ExportRoute {
  import opened Common
  import opened JsText
  import opened Utils
  import opened CsvReader
  import opened Collation
  import opened StableSort
  import opened Schema
  import opened Database

  /** A candidate's result before ranking. */
  datatype Tally = Tally(group: string, name: string, voteCount: nat, weightedScore: nat)

  /** One exported row: `{ rank: i + 1, ...tally }`. */
  datatype ResultRow = ResultRow(rank: nat, group: string, name: string, voteCount: nat, weightedScore: nat)

  // ---------------------------------------------------------------------
  // Scoring
  // ---------------------------------------------------------------------

  /** `votes.reduce((sum, vote) => sum + getRoleWeight(vote.ballot.role), 0)`,
      over the roles of the ballots of the votes. */
  function WeightedScore(roles: seq<string>): nat {
    if roles == [] then 0
    else WeightedScore(roles[..|roles| - 1]) + RoleWeight(roles[|roles| - 1])
  }

  function CountRole(roles: seq<string>, role: string): (n: nat)
    ensures n <= |roles|
  {
    if roles == [] then 0
    else CountRole(roles[..|roles| - 1], role) + (if roles[|roles| - 1] == role then 1 else 0)
  }

  /** Each vote counts one, and a vote from an instructor's ballot two
      more: the score is learners + 3 × instructors. */
  lemma {:induction false} WeightedScoreCounts(roles: seq<string>)
    ensures WeightedScore(roles) == |roles| + 2 * CountRole(roles, "instructor")
  {
    if roles != [] {
      WeightedScoreCounts(roles[..|roles| - 1]);
    }
  }

  /** The score lies between the vote count and three times it; no votes
      score zero. */
  lemma WeightedScoreBounds(roles: seq<string>)
    ensures |roles| <= WeightedScore(roles) <= 3 * |roles|
    ensures roles == [] ==> WeightedScore(roles) == 0
  {
    WeightedScoreCounts(roles);
  }

  // ---------------------------------------------------------------------
  // What the nested query loads
  // ---------------------------------------------------------------------

  function InEvent(eventId: Id): Group -> bool {
    (g: Group) => g.eventId == eventId
  }

  function InGroupTable(groupId: Id): Candidate -> bool {
    (c: Candidate) => c.groupId == groupId
  }

  function ForCandidate(candidateId: Id): Vote -> bool {
    (v: Vote) => v.candidateId == candidateId
  }

  /** `event.groups`, in table order. */
  function EventGroups(d: Db, eventId: Id): seq<Group> {
    Filter(d.groups, InEvent(eventId))
  }

  /** `group.candidates`, in table order. */
  function GroupCandidates(d: Db, groupId: Id): seq<Candidate> {
    Filter(d.candidates, InGroupTable(groupId))
  }

  /** `candidate.votes`, in table order. */
  function CandidateVotes(d: Db, candidateId: Id): seq<Vote> {
    Filter(d.votes, ForCandidate(candidateId))
  }

  /** `vote.ballot.role`. In a well-formed database every vote has its
      ballot, so the empty fallback is never used. */
  function BallotRole(d: Db, ballotId: Id): string {
    match FindBallot(d, ballotId)
    case None => ""
    case Some(b) => b.role
  }

  function VoteRoles(d: Db, candidateId: Id): (roles: seq<string>)
    ensures |roles| == |CandidateVotes(d, candidateId)|
  {
    var vs := CandidateVotes(d, candidateId);
    seq(|vs|, i requires 0 <= i < |vs| => BallotRole(d, vs[i].ballotId))
  }

  /** The result object the handler builds for one candidate. */
  function TallyOf(d: Db, g: Group, c: Candidate): Tally {
    Tally(g.name, c.name, |CandidateVotes(d, c.id)|, WeightedScore(VoteRoles(d, c.id)))
  }

  /** `group.candidates.map(...)`. */
  function GroupTallies(d: Db, g: Group): (ts: seq<Tally>)
    ensures |ts| == |GroupCandidates(d, g.id)|
  {
    var cs := GroupCandidates(d, g.id);
    seq(|cs|, i requires 0 <= i < |cs| => TallyOf(d, g, cs[i]))
  }

  /** A tally's count is the candidate's number of votes and its score is
      learners + 3 × instructors over those votes, so it lies between the
      count and three times the count. */
  lemma TallySpec(d: Db, g: Group, c: Candidate)
    ensures var t := TallyOf(d, g, c);
      && t.group == g.name && t.name == c.name
      && t.voteCount == |CandidateVotes(d, c.id)|
      && t.weightedScore == t.voteCount + 2 * CountRole(VoteRoles(d, c.id), "instructor")
      && t.voteCount <= t.weightedScore <= 3 * t.voteCount
  {
    WeightedScoreCounts(VoteRoles(d, c.id));
  }

  // ---------------------------------------------------------------------
  // Ranking
  // ---------------------------------------------------------------------

  /** The in-group comparator `(a, b) => b.weightedScore - a.weightedScore`. */
  function ScoreCompare(a: Tally, b: Tally): int {
    b.weightedScore - a.weightedScore
  }

  predicate ScoreBefore(a: Tally, b: Tally) {
    ScoreCompare(a, b) < 0
  }

  /** The in-group comparator is a strict weak order. */
  lemma ScoreOrder()
    ensures StrictWeakOrder(ScoreBefore)
  {
  }

  /** `groupResults.forEach((r, i) => results.push({ rank: i + 1, ...r }))`. */
  function Ranked(ts: seq<Tally>): (rows: seq<ResultRow>)
    ensures |rows| == |ts|
  {
    seq(|ts|, i requires 0 <= i < |ts| =>
      ResultRow(i + 1, ts[i].group, ts[i].name, ts[i].voteCount, ts[i].weightedScore))
  }

  function Unranked(r: ResultRow): Tally {
    Tally(r.group, r.name, r.voteCount, r.weightedScore)
  }

  /** The ranked rows of one group. */
  function RankedGroup(d: Db, g: Group): seq<ResultRow> {
    Ranked(Sort(GroupTallies(d, g), ScoreBefore))
  }

  /** One group's ranked rows: one per candidate of the group, the group's
      tallies reordered, ranks 1, 2, … in order, and scores that never rise
      as the rank grows. */
  lemma RankedGroupSpec(d: Db, g: Group)
    ensures var rows := RankedGroup(d, g);
      && |rows| == |GroupCandidates(d, g.id)|
      && multiset(seq(|rows|, i requires 0 <= i < |rows| => Unranked(rows[i]))) == multiset(GroupTallies(d, g))
      && (forall i | 0 <= i < |rows| :: rows[i].rank == i + 1 && rows[i].group == g.name)
      && (forall i, j | 0 <= i < j < |rows| :: rows[i].weightedScore >= rows[j].weightedScore)
  {
    var ts := GroupTallies(d, g);
    var sorted := Sort(ts, ScoreBefore);
    var rows := RankedGroup(d, g);
    SortPerm(ts, ScoreBefore);
    ScoreOrder();
    SortSorted(ts, ScoreBefore);
    assert seq(|rows|, i requires 0 <= i < |rows| => Unranked(rows[i])) == sorted;
    forall i | 0 <= i < |rows| ensures rows[i].group == g.name {
      assert sorted[i] in multiset(ts);
    }
    forall i, j | 0 <= i < j < |rows| ensures rows[i].weightedScore >= rows[j].weightedScore {
      assert !ScoreBefore(sorted[j], sorted[i]);
    }
  }

  /** `results` after the loop over the groups: each group's ranked rows,
      group after group. */
  function AllRows(d: Db, groups: seq<Group>): seq<ResultRow> {
    if groups == [] then []
    else AllRows(d, groups[..|groups| - 1]) + RankedGroup(d, groups[|groups| - 1])
  }

  /** The number of candidates in the groups. */
  function CandidateTotal(d: Db, groups: seq<Group>): nat {
    if groups == [] then 0
    else CandidateTotal(d, groups[..|groups| - 1]) + |GroupCandidates(d, groups[|groups| - 1].id)|
  }

  /** One row per candidate of the groups. */
  lemma {:induction false} AllRowsCount(d: Db, groups: seq<Group>)
    ensures |AllRows(d, groups)| == CandidateTotal(d, groups)
  {
    if groups != [] {
      AllRowsCount(d, groups[..|groups| - 1]);
      RankedGroupSpec(d, groups[|groups| - 1]);
    }
  }

  /** The global comparator: group names by `localeCompare`, then score
      descending within a group. */
  function RowCompare(a: ResultRow, b: ResultRow): int {
    if a.group != b.group then LocaleCompare(a.group, b.group)
    else b.weightedScore - a.weightedScore
  }

  predicate RowBefore(a: ResultRow, b: ResultRow) {
    RowCompare(a, b) < 0
  }

  lemma RowTransitive(a: ResultRow, b: ResultRow, c: ResultRow)
    requires RowBefore(a, b) && RowBefore(b, c)
    ensures RowBefore(a, c)
  {
    if a.group != b.group && b.group != c.group {
      PrecedesTransitive(a.group, b.group, c.group);
      PrecedesTotal(a.group, b.group);
    }
  }

  lemma RowNegTransitive(a: ResultRow, b: ResultRow, c: ResultRow)
    requires !RowBefore(a, b) && !RowBefore(b, c)
    ensures !RowBefore(a, c)
  {
    PrecedesTotal(a.group, b.group);
    PrecedesTotal(b.group, c.group);
    PrecedesTotal(a.group, c.group);
    if a.group != b.group && b.group != c.group && a.group != c.group {
      PrecedesTransitive(c.group, b.group, a.group);
    }
  }

  /** The global comparator is a strict weak order. */
  lemma RowOrder()
    ensures StrictWeakOrder(RowBefore)
  {
    forall a: ResultRow ensures !RowBefore(a, a) {
    }
    forall a: ResultRow, b: ResultRow, c: ResultRow | RowBefore(a, b) && RowBefore(b, c)
      ensures RowBefore(a, c)
    {
      RowTransitive(a, b, c);
    }
    forall a: ResultRow, b: ResultRow, c: ResultRow | !RowBefore(a, b) && !RowBefore(b, c)
      ensures !RowBefore(a, c)
    {
      RowNegTransitive(a, b, c);
    }
  }

  /** The rows of the export, after the global sort. */
  function FinalRows(d: Db, eventId: Id): seq<ResultRow> {
    Sort(AllRows(d, EventGroups(d, eventId)), RowBefore)
  }

  /** The export has one row per candidate of the event's groups, is a
      reordering of the ranked rows, and is ordered by group name and,
      within a group, by score descending. */
  lemma FinalRowsSpec(d: Db, eventId: Id)
    ensures var rows := FinalRows(d, eventId);
      && |rows| == CandidateTotal(d, EventGroups(d, eventId))
      && multiset(rows) == multiset(AllRows(d, EventGroups(d, eventId)))
      && (forall i, j | 0 <= i < j < |rows| ::
            if rows[i].group == rows[j].group then rows[i].weightedScore >= rows[j].weightedScore
            else Precedes(rows[i].group, rows[j].group))
  {
    var all := AllRows(d, EventGroups(d, eventId));
    var rows := FinalRows(d, eventId);
    AllRowsCount(d, EventGroups(d, eventId));
    SortPerm(all, RowBefore);
    RowOrder();
    SortSorted(all, RowBefore);
    forall i, j | 0 <= i < j < |rows|
      ensures if rows[i].group == rows[j].group then rows[i].weightedScore >= rows[j].weightedScore
              else Precedes(rows[i].group, rows[j].group)
    {
      assert !RowBefore(rows[j], rows[i]);
      PrecedesTotal(rows[i].group, rows[j].group);
    }
  }

  /** Rows that belong to the group named `name`. */
  function InGroup(name: string): ResultRow -> bool {
    (r: ResultRow) => r.group == name
  }

  predicate DistinctNames(groups: seq<Group>) {
    forall i, j | 0 <= i < j < |groups| :: groups[i].name != groups[j].name
  }

  /** Groups with other names contribute no row to a name's rows. */
  lemma {:induction false} OtherGroupsFiltered(d: Db, groups: seq<Group>, name: string)
    requires forall k | 0 <= k < |groups| :: groups[k].name != name
    ensures Filter(AllRows(d, groups), InGroup(name)) == []
  {
    if groups != [] {
      var last := groups[|groups| - 1];
      OtherGroupsFiltered(d, groups[..|groups| - 1], name);
      FilterAppend(AllRows(d, groups[..|groups| - 1]), RankedGroup(d, last), InGroup(name));
      RankedGroupSpec(d, last);
      FilterNone(RankedGroup(d, last), InGroup(name));
    }
  }

  /** With distinct group names, the rows named after a group are that
      group's ranked rows. */
  lemma {:induction false} GroupRowsFiltered(d: Db, groups: seq<Group>, k: nat)
    requires k < |groups| && DistinctNames(groups)
    ensures Filter(AllRows(d, groups), InGroup(groups[k].name)) == RankedGroup(d, groups[k])
  {
    var n := |groups| - 1;
    var init, last := groups[..n], groups[n];
    var name := groups[k].name;
    FilterAppend(AllRows(d, init), RankedGroup(d, last), InGroup(name));
    RankedGroupSpec(d, last);
    if k == n {
      OtherGroupsFiltered(d, init, name);
      FilterAll(RankedGroup(d, last), InGroup(name));
    } else {
      assert init[k] == groups[k];
      assert DistinctNames(init);
      GroupRowsFiltered(d, init, k);
      FilterNone(RankedGroup(d, last), InGroup(name));
      assert Filter(AllRows(d, init), InGroup(name)) + [] == RankedGroup(d, groups[k]);
    }
  }

  /** A group's ranked rows are in order for the global comparator. */
  lemma RankedGroupSorted(d: Db, g: Group)
    ensures Sorted(RankedGroup(d, g), RowBefore)
  {
    RankedGroupSpec(d, g);
  }

  /** The global sort is stable, so when the event's group names are
      distinct, the rows of each group come out exactly as ranked: ranks
      1, 2, … in ascending order. */
  lemma GroupOrderKept(d: Db, eventId: Id, k: nat)
    requires k < |EventGroups(d, eventId)| && DistinctNames(EventGroups(d, eventId))
    ensures var g := EventGroups(d, eventId)[k];
      Filter(FinalRows(d, eventId), InGroup(g.name)) == RankedGroup(d, g)
  {
    var groups := EventGroups(d, eventId);
    var g := groups[k];
    GroupRowsFiltered(d, groups, k);
    RankedGroupSorted(d, g);
    RowOrder();
    SortKeepsSortedFilter(AllRows(d, groups), RowBefore, InGroup(g.name));
  }

  // ---------------------------------------------------------------------
  // The response
  // ---------------------------------------------------------------------

  const ExportHeaders: seq<string> := ["rank", "group", "name", "voteCount", "weightedScore"]

  /** The byte-order mark put in front of the CSV text. */
  const Bom: char := '\U{FEFF}'

  function RowRecord(r: ResultRow): Record {
    map["rank" := Number(r.rank), "group" := Text(r.group), "name" := Text(r.name),
        "voteCount" := Number(r.voteCount), "weightedScore" := Number(r.weightedScore)]
  }

  function RowRecords(rows: seq<ResultRow>): seq<Record> {
    seq(|rows|, i requires 0 <= i < |rows| => RowRecord(rows[i]))
  }

  /** The response body for an existing event. */
  function ExportBody(d: Db, eventId: Id): string {
    [Bom] + GenerateCSV(RowRecords(FinalRows(d, eventId)), ExportHeaders)
  }

  /** The field texts of one exported row. */
  function RowTexts(r: ResultRow): seq<string> {
    [NatToString(r.rank), r.group, r.name, NatToString(r.voteCount), NatToString(r.weightedScore)]
  }

  /** After the byte-order mark, reading the body as CSV gives the header
      row and then, row by row, the rank, group, name, vote count and
      score of every exported row. */
  lemma ExportBodyRoundTrip(d: Db, eventId: Id)
    ensures var body := ExportBody(d, eventId);
      var rows := FinalRows(d, eventId);
      && body[0] == Bom
      && ReadRecords(body[1..]) == [ExportHeaders] + seq(|rows|, i requires 0 <= i < |rows| => RowTexts(rows[i]))
  {
    var rows := FinalRows(d, eventId);
    var csv := GenerateCSV(RowRecords(rows), ExportHeaders);
    assert ExportBody(d, eventId)[1..] == csv by {
      assert ([Bom] + csv)[1..] == csv;
    }
    RowsRoundTrip(rows);
  }

  /** Reading the CSV text of any result rows gives the header row and the
      field texts of each row. */
  lemma RowsRoundTrip(rows: seq<ResultRow>)
    ensures ReadRecords(GenerateCSV(RowRecords(rows), ExportHeaders))
      == [ExportHeaders] + seq(|rows|, i requires 0 <= i < |rows| => RowTexts(rows[i]))
  {
    var data := RowRecords(rows);
    HeadersPlain();
    GenerateCSVRoundTrip(data, ExportHeaders);
    forall i | 0 <= i < |rows| ensures FieldTexts(data[i], ExportHeaders) == RowTexts(rows[i]) {
      RowRecordTexts(rows[i]);
    }
    assert seq(|data|, i requires 0 <= i < |data| => FieldTexts(data[i], ExportHeaders))
        == seq(|rows|, i requires 0 <= i < |rows| => RowTexts(rows[i]));
  }

  lemma HeadersPlain()
    ensures |ExportHeaders| >= 1
    ensures forall j | 0 <= j < |ExportHeaders| :: !NeedsQuotes(ExportHeaders[j])
  {
    forall j | 0 <= j < |ExportHeaders| ensures !NeedsQuotes(ExportHeaders[j]) {
      var h := ExportHeaders[j];
      assert forall k | 0 <= k < |h| :: 'A' <= h[k] <= 'z';
    }
  }

  lemma RowRecordTexts(r: ResultRow)
    ensures FieldTexts(RowRecord(r), ExportHeaders) == RowTexts(r)
  {
    var rec := RowRecord(r);
    assert FieldText(rec, "rank") == NatToString(r.rank);
    assert FieldText(rec, "group") == r.group;
    assert FieldText(rec, "name") == r.name;
    assert FieldText(rec, "voteCount") == NatToString(r.voteCount);
    assert FieldText(rec, "weightedScore") == NatToString(r.weightedScore);
  }

  // ---------------------------------------------------------------------
  // The Content-Disposition header
  // ---------------------------------------------------------------------

  /** Whether `Headers.set` accepts a header value. The Fetch standard
      converts the value to a ByteString, which throws on a code unit above
      0xFF (a character beyond the Basic Multilingual Plane is two code
      units, both above 0xFF), and a header value may hold no NUL, CR or LF. */
  predicate HeaderSafe(s: string) {
    forall i | 0 <= i < |s| :: s[i] <= '\U{00FF}' && s[i] != '\U{0000}' && s[i] != '\r' && s[i] != '\n'
  }

  lemma HeaderSafeConcat(a: string, b: string)
    ensures HeaderSafe(a + b) <==> HeaderSafe(a) && HeaderSafe(b)
  {
    forall i | 0 <= i < |a| ensures (a + b)[i] == a[i] { }
    forall i | 0 <= i < |b| ensures (a + b)[|a| + i] == b[i] { }
  }

  /** The `Content-Disposition` value the handler sets: the event name and
      the date text go into the quoted file name as they are. */
  function DispositionValue(name: string, today: string): string {
    "attachment; filename=\"results-" + name + "-" + today + ".csv\""
  }

  /** The header is accepted exactly when the event name and the date text
      are; `toISOString` writes the date in ASCII digits and dashes. */
  lemma DispositionSafe(name: string, today: string)
    ensures HeaderSafe(DispositionValue(name, today)) <==> HeaderSafe(name) && HeaderSafe(today)
  {
    var pre, mid, post := "attachment; filename=\"results-", "-", ".csv\"";
    assert HeaderSafe(pre) && HeaderSafe(mid) && HeaderSafe(post);
    HeaderSafeConcat(pre, name);
    HeaderSafeConcat(pre + name, mid);
    HeaderSafeConcat(pre + name + mid, today);
    HeaderSafeConcat(pre + name + mid + today, post);
  }

  /** The name of the event the seed script creates. */
  const SeededEventName: string := "114年度師資班分組報告票選"

  /** The seeded event cannot be exported: its fourth character, 年
      (U+5E74), is beyond 0xFF, so setting the header throws and the
      handler answers 500, whatever the date. */
  lemma SeededEventRefused(today: string)
    ensures !HeaderSafe(DispositionValue(SeededEventName, today))
  {
    DispositionSafe(SeededEventName, today);
    assert SeededEventName[3] == '\U{5E74}';
  }

  /** The characters that percent-encoding leaves as they are. */
  predicate Unreserved(c: char) {
    'A' <= c <= 'Z' || 'a' <= c <= 'z' || '0' <= c <= '9' || c == '-' || c == '.' || c == '_' || c == '~'
  }

  /** Text made of unreserved characters and percent signs. */
  predicate UrlText(s: string) {
    forall i | 0 <= i < |s| :: Unreserved(s[i]) || s[i] == '%'
  }

  lemma UrlTextSafe(s: string)
    requires UrlText(s)
    ensures HeaderSafe(s)
  {
  }

  /** An upper-case hexadecimal digit. */
  function HexDigit(n: nat): (c: char)
    requires n < 16
    ensures Unreserved(c)
  {
    if n < 10 then ('0' as int + n) as char else ('A' as int + n - 10) as char
  }

  /** The UTF-8 encoding of a character: one byte for ASCII, otherwise a
      lead byte and continuation bytes of six bits each. */
  function Utf8(c: char): (bytes: seq<nat>)
    ensures 1 <= |bytes| <= 4
    ensures |bytes| == 1 <==> c as int < 0x80
    ensures c as int < 0x80 ==> bytes == [c as int]
    ensures forall k | 0 <= k < |bytes| :: bytes[k] < 256
    ensures forall k | 1 <= k < |bytes| :: 0x80 <= bytes[k] < 0xC0
  {
    var n := c as int;
    if n < 0x80 then [n]
    else if n < 0x800 then [0xC0 + n / 64, 0x80 + n % 64]
    else if n < 0x10000 then [0xE0 + n / 4096, 0x80 + (n / 64) % 64, 0x80 + n % 64]
    else [0xF0 + n / 262144, 0x80 + (n / 4096) % 64, 0x80 + (n / 64) % 64, 0x80 + n % 64]
  }

  /** `%XY` for every byte. */
  function PercentBytes(bytes: seq<nat>): (r: string)
    requires forall k | 0 <= k < |bytes| :: bytes[k] < 256
    ensures |r| == 3 * |bytes|
    ensures UrlText(r)
  {
    if bytes == [] then []
    else ['%', HexDigit(bytes[0] / 16), HexDigit(bytes[0] % 16)] + PercentBytes(bytes[1..])
  }

  /** Percent-encoding of text in UTF-8, as section 3.2 of RFC 8187 writes
      an extended parameter value: unreserved characters stay, every other
      character becomes the `%XY` of its bytes. */
  function PercentEncode(s: string): (r: string)
    ensures UrlText(r)
    ensures (forall i | 0 <= i < |s| :: Unreserved(s[i])) ==> r == s
    ensures |s| <= |r|
  {
    if s == [] then []
    else
      var head := if Unreserved(s[0]) then [s[0]] else PercentBytes(Utf8(s[0]));
      var r := head + PercentEncode(s[1..]);
      assert UrlText(r) by {
        forall i | |head| <= i < |r| ensures r[i] == PercentEncode(s[1..])[i - |head|] { }
      }
      r
  }

  /** The header the handler evidently means to send: the file name as the
      `filename*` parameter of section 4.3 of RFC 6266, percent-encoded, so
      `Headers.set` accepts it for every event name and every date text. */
  function EncodedDisposition(name: string, today: string): (v: string)
    ensures HeaderSafe(v)
  {
    var pre := "attachment; filename*=UTF-8''";
    var enc := PercentEncode("results-" + name + "-" + today + ".csv");
    assert HeaderSafe(pre);
    UrlTextSafe(enc);
    HeaderSafeConcat(pre, enc);
    pre + enc
  }

  // ---------------------------------------------------------------------
  // The handler
  // ---------------------------------------------------------------------

  datatype ExportResponse =
    | Unauthorized
    | MissingEventId
    | EventNotFound
    | ServerError
    | CsvFile(body: string)

  /** The HTTP status of a response. */
  function Status(r: ExportResponse): (code: nat)
    ensures code == 200 <==> r.CsvFile?
    ensures code == 400 <==> r == MissingEventId
    ensures code == 401 <==> r == Unauthorized
    ensures code == 404 <==> r == EventNotFound
    ensures code == 500 <==> r == ServerError
  {
    match r
    case Unauthorized => 401
    case MissingEventId => 400
    case EventNotFound => 404
    case ServerError => 500
    case CsvFile(_) => 200
  }

  /** The `forEach` that pushes a sorted group's rows with their ranks. */
  method PushRanked(results: seq<ResultRow>, groupResults: seq<Tally>) returns (out: seq<ResultRow>)
    ensures out == results + Ranked(groupResults)
  {
    out := results;
    for i := 0 to |groupResults|
      invariant out == results + Ranked(groupResults[..i])
    {
      var t := groupResults[i];
      var row := ResultRow(i + 1, t.group, t.name, t.voteCount, t.weightedScore);
      assert Ranked(groupResults[..i + 1]) == Ranked(groupResults[..i]) + [row];
      out := out + [row];
    }
    assert groupResults[..|groupResults|] == groupResults;
  }

  /** The handler; `today` is the date text of `new Date().toISOString()`.
      The gates come first: no session, no event id, no such event.
      Otherwise the rows are computed group by group, sorted and written
      out, and the body is sent when `Headers.set` accepts the
      `Content-Disposition` value; when it throws, the catch answers 500. */
  method ExportResults(db: Store, authenticated: bool, eventId: Option<Id>, today: string) returns (r: ExportResponse)
    ensures !authenticated ==> r == Unauthorized
    ensures authenticated && eventId.None? ==> r == MissingEventId
    ensures authenticated && eventId.Some? && FindEvent(db.Snapshot(), eventId.value).None? ==> r == EventNotFound
    ensures authenticated && eventId.Some? && FindEvent(db.Snapshot(), eventId.value).Some? ==>
      var name := FindEvent(db.Snapshot(), eventId.value).value.name;
      r == (if HeaderSafe(DispositionValue(name, today)) then CsvFile(ExportBody(db.Snapshot(), eventId.value))
            else ServerError)
  {
    if !authenticated {
      return Unauthorized;
    }
    if eventId.None? {
      return MissingEventId;
    }
    var d := db.Snapshot();
    if FindEvent(d, eventId.value).None? {
      return EventNotFound;
    }
    var groups := EventGroups(d, eventId.value);
    var results: seq<ResultRow> := [];
    for gi := 0 to |groups|
      invariant results == AllRows(d, groups[..gi])
    {
      var group := groups[gi];
      var groupResults := GroupTallies(d, group);
      groupResults := Sort(groupResults, ScoreBefore);
      results := PushRanked(results, groupResults);
      assert groups[..gi + 1][..gi] == groups[..gi];
    }
    assert groups[..|groups|] == groups;
    results := Sort(results, RowBefore);
    var csv := GenerateCSV(RowRecords(results), ExportHeaders);
    var disposition := DispositionValue(FindEvent(d, eventId.value).value.name, today);
    if !HeaderSafe(disposition) {
      return ServerError;
    }
    r := CsvFile([Bom] + csv);
  }
}
