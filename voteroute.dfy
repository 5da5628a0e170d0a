/** `POST /api/vote`: a chain of guards, the first failing one deciding
    the answer, then one write, a ballot with one vote per chosen
    candidate. */
module VoteRoute {
  import opened Common
  import opened JsText
  import opened Schema
  import opened Database

  /** The JSON body. A field that is absent, or falsy in the JavaScript
      sense (`null`, the empty string), is `None`; `candidateIds` is also
      `None` when it is not an array. An empty array is present. */
  datatype VoteRequest = VoteRequest(eventId: Option<Id>, role: Option<string>, candidateIds: Option<seq<Id>>)

  datatype VoteError =
    | BadParams
    | InvalidRole
    | EventNotFound
    | VotingClosed
    | WrongCount(maxVotes: int)
    | InvalidCandidate
    | DuplicateCandidate

  datatype Outcome =
    | Accepted(eventId: Id, role: string, candidateIds: seq<Id>)
    | Rejected(error: VoteError)

  /** The HTTP status of an outcome. */
  function Status(o: Outcome): (code: nat)
    ensures code == 200 <==> o.Accepted?
    ensures code == 404 <==> o == Rejected(EventNotFound)
    ensures code == 400 <==> o.Rejected? && o != Rejected(EventNotFound)
  {
    match o
    case Accepted(_, _, _) => 200
    case Rejected(EventNotFound) => 404
    case Rejected(_) => 400
  }

  /** The error text of a rejection; the count error names the event's
      `maxVotes`. */
  function Message(e: VoteError): (text: string)
    ensures |text| >= 1
    ensures e.WrongCount? ==> "請選擇 " + IntToString(e.maxVotes) <= text
  {
    match e
    case BadParams => "參數錯誤"
    case InvalidRole => "無效的身份"
    case EventNotFound => "活動不存在"
    case VotingClosed => "投票尚未開放或已結束"
    case WrongCount(m) => "請選擇 " + IntToString(m) + " 位候選人"
    case InvalidCandidate => "候選人無效"
    case DuplicateCandidate => "不可重複選擇同一候選人"
  }

  /** Different rejections have different texts, so a client can tell
      them apart, and two count errors differ exactly in their limit. */
  lemma {:induction false} MessageInjective(e1: VoteError, e2: VoteError)
    ensures Message(e1) == Message(e2) <==> e1 == e2
  {
    var t1, t2 := Message(e1), Message(e2);
    if t1 == t2 {
      assert t1[0] == t2[0];
      if e1.WrongCount? && e2.WrongCount? {
        var pre, post := "請選擇 ", " 位候選人";
        var d1, d2 := IntToString(e1.maxVotes), IntToString(e2.maxVotes);
        assert t1 == pre + d1 + post && t2 == pre + d2 + post;
        assert d1 == t1[|pre|..|t1| - |post|] && d2 == t2[|pre|..|t2| - |post|];
        IntToStringInjective(e1.maxVotes, e2.maxVotes);
      }
    }
  }

  /** `['learner', 'instructor'].includes(role)`. */
  predicate ValidRole(role: string) {
    role == "learner" || role == "instructor"
  }

  /** The event of a group. */
  function GroupEvent(d: Db, groupId: Id): Option<Id> {
    match FindGroup(d, groupId)
    case None => None
    case Some(g) => Some(g.eventId)
  }

  /** The rows of `s` that `candidate.findMany({ where: { id: { in: ids },
      group: { eventId } } })` returns: each candidate row at most once,
      however often its id occurs in `ids`. */
  function Matching(d: Db, s: seq<Candidate>, eventId: Id, ids: seq<Id>): (r: seq<Candidate>)
    ensures |r| <= |s|
  {
    if s == [] then []
    else
      (if s[0].id in ids && GroupEvent(d, s[0].groupId) == Some(eventId) then [s[0]] else [])
      + Matching(d, s[1..], eventId, ids)
  }

  /** The ids of the rows of `s` whose group is in the event. */
  function Owned(d: Db, s: seq<Candidate>, eventId: Id): set<Id> {
    if s == [] then {}
    else (if GroupEvent(d, s[0].groupId) == Some(eventId) then {s[0].id} else {}) + Owned(d, s[1..], eventId)
  }

  /** The guard chain of the handler, in source order. */
  function Validate(d: Db, req: VoteRequest): Outcome {
    if req.eventId.None? || req.role.None? || req.role.value == [] || req.candidateIds.None? then
      Rejected(BadParams)
    else
      var eventId, role, ids := req.eventId.value, req.role.value, req.candidateIds.value;
      if !ValidRole(role) then Rejected(InvalidRole)
      else
        match FindEvent(d, eventId)
        case None => Rejected(EventNotFound)
        case Some(event) =>
          if !event.isActive then Rejected(VotingClosed)
          else if |ids| != event.maxVotes then Rejected(WrongCount(event.maxVotes))
          else if |Matching(d, d.candidates, eventId, ids)| != |ids| then Rejected(InvalidCandidate)
          else if |Elems(ids)| != |ids| then Rejected(DuplicateCandidate)
          else Accepted(eventId, role, ids)
  }

  /** The lookup counts each matching row once. */
  lemma {:induction false} MatchingCount(d: Db, s: seq<Candidate>, eventId: Id, ids: seq<Id>)
    requires UniqueKeys(s, CandidateKey)
    ensures |Matching(d, s, eventId, ids)| == |Elems(ids) * Owned(d, s, eventId)|
  {
    if s != [] {
      var t := s[1..];
      UniqueTail(s);
      MatchingCount(d, t, eventId, ids);
      HeadNotOwnedLater(d, s, eventId);
      if GroupEvent(d, s[0].groupId) == Some(eventId) {
        InterAdd(Elems(ids), Owned(d, t, eventId), s[0].id);
      }
    }
  }

  lemma UniqueTail(s: seq<Candidate>)
    requires s != [] && UniqueKeys(s, CandidateKey)
    ensures UniqueKeys(s[1..], CandidateKey)
  {
    var t := s[1..];
    forall i, j | 0 <= i < j < |t| ensures t[i].id != t[j].id {
      assert t[i] == s[i + 1] && t[j] == s[j + 1];
    }
  }

  lemma HeadNotOwnedLater(d: Db, s: seq<Candidate>, eventId: Id)
    requires s != [] && UniqueKeys(s, CandidateKey)
    ensures s[0].id !in Owned(d, s[1..], eventId)
  {
    OwnedMembers(d, s[1..], eventId);
  }

  /** Adding a new element to one side of an intersection adds one to its
      size exactly when the element is on the other side too. */
  lemma InterAdd(e: set<Id>, b: set<Id>, x: Id)
    requires x !in b
    ensures |e * ({x} + b)| == |e * b| + (if x in e then 1 else 0)
  {
    if x in e {
      assert e * ({x} + b) == (e * b) + {x};
    } else {
      assert e * ({x} + b) == e * b;
    }
  }

  /** Every owned id belongs to some row. */
  lemma {:induction false} OwnedMembers(d: Db, s: seq<Candidate>, eventId: Id)
    ensures forall x | x in Owned(d, s, eventId) :: exists k | 0 <= k < |s| :: s[k].id == x
  {
    if s != [] {
      OwnedMembers(d, s[1..], eventId);
      forall x | x in Owned(d, s[1..], eventId) ensures exists k | 0 <= k < |s| :: s[k].id == x {
        var k :| 0 <= k < |s[1..]| && s[1..][k].id == x;
        assert s[k + 1].id == x;
      }
    }
  }

  /** An id is owned by the event exactly when the candidate it names
      belongs to a group of the event. */
  lemma {:induction false} OwnedIff(d: Db, s: seq<Candidate>, eventId: Id, id: Id)
    requires UniqueKeys(s, CandidateKey)
    ensures id in Owned(d, s, eventId) <==>
      (Find(s, CandidateKey, id).Some? && GroupEvent(d, Find(s, CandidateKey, id).value.groupId) == Some(eventId))
  {
    if s != [] {
      UniqueTail(s);
      OwnedIff(d, s[1..], eventId, id);
    }
  }

  /** Every listed id names a candidate of the event. */
  predicate AllOwned(d: Db, eventId: Id, ids: seq<Id>) {
    forall i | 0 <= i < |ids| :: CandidateEvent(d, ids[i]) == Some(eventId)
  }

  /** The ownership check passes exactly when every id names a candidate
      of the event and no id is repeated. */
  lemma OwnershipCheck(d: Db, eventId: Id, ids: seq<Id>)
    requires Wellformed(d)
    ensures |Matching(d, d.candidates, eventId, ids)| == |ids| <==> (AllOwned(d, eventId, ids) && Distinct(ids))
  {
    var own := Owned(d, d.candidates, eventId);
    assert UniqueKeys(d.candidates, CandidateKey);
    MatchingCount(d, d.candidates, eventId, ids);
    forall i | 0 <= i < |ids| ensures ids[i] in own <==> CandidateEvent(d, ids[i]) == Some(eventId) {
      OwnedIff(d, d.candidates, eventId, ids[i]);
    }
    CoverCount(ids, own);
  }

  /** The listed ids meet a set in as many elements as the list is long
      exactly when all of them are in the set and none repeats. */
  lemma CoverCount(ids: seq<Id>, own: set<Id>)
    ensures |Elems(ids) * own| == |ids| <==> ((forall i | 0 <= i < |ids| :: ids[i] in own) && Distinct(ids))
  {
    var a := Elems(ids) * own;
    ElemsCard(ids);
    SubsetCard(a, Elems(ids));
    if |a| == |ids| {
      SubsetSameSize(a, Elems(ids));
      assert forall i | 0 <= i < |ids| :: ids[i] in a;
    }
    if (forall i | 0 <= i < |ids| :: ids[i] in own) && Distinct(ids) {
      assert a == Elems(ids);
    }
  }

  /** The handler accepts exactly the requests whose fields are present,
      whose role is valid, whose event exists and is open, that name
      `maxVotes` distinct candidates, all of that event. */
  lemma ValidateAcceptsIff(d: Db, req: VoteRequest)
    requires Wellformed(d)
    ensures Validate(d, req).Accepted? <==>
      && req.eventId.Some? && req.role.Some? && req.candidateIds.Some?
      && ValidRole(req.role.value)
      && FindEvent(d, req.eventId.value).Some?
      && FindEvent(d, req.eventId.value).value.isActive
      && |req.candidateIds.value| == FindEvent(d, req.eventId.value).value.maxVotes
      && Distinct(req.candidateIds.value)
      && AllOwned(d, req.eventId.value, req.candidateIds.value)
    ensures Validate(d, req).Accepted? ==>
      Validate(d, req) == Accepted(req.eventId.value, req.role.value, req.candidateIds.value)
  {
    if req.eventId.Some? && req.candidateIds.Some? {
      OwnershipCheck(d, req.eventId.value, req.candidateIds.value);
      ElemsCard(req.candidateIds.value);
    }
  }

  /** The duplicate check can never fire: the lookup returns each candidate
      row once, so a repeated id has already failed the ownership check. */
  lemma DuplicateNeverReported(d: Db, req: VoteRequest)
    requires Wellformed(d)
    ensures Validate(d, req) != Rejected(DuplicateCandidate)
  {
    if req.eventId.Some? && req.candidateIds.Some? {
      OwnershipCheck(d, req.eventId.value, req.candidateIds.value);
      ElemsCard(req.candidateIds.value);
    }
  }

  /** A list with a repeated id is rejected, and when it gets as far as the
      candidate lookup, it is rejected there as invalid. */
  lemma RepeatedIdRejected(d: Db, req: VoteRequest)
    requires Wellformed(d) && req.eventId.Some? && req.candidateIds.Some?
    requires !Distinct(req.candidateIds.value)
    ensures Validate(d, req).Rejected? && Validate(d, req) != Rejected(DuplicateCandidate)
    ensures req.role.Some? && ValidRole(req.role.value)
      && FindEvent(d, req.eventId.value).Some?
      && FindEvent(d, req.eventId.value).value.isActive
      && |req.candidateIds.value| == FindEvent(d, req.eventId.value).value.maxVotes
      ==> Validate(d, req) == Rejected(InvalidCandidate)
  {
    OwnershipCheck(d, req.eventId.value, req.candidateIds.value);
  }

  /** Missing fields and an invalid role are rejected before the database
      is consulted: the answer is the same whatever the database holds. */
  lemma GuardsBeforeLookup(d: Db, e: Db, req: VoteRequest)
    requires Validate(d, req) in {Rejected(BadParams), Rejected(InvalidRole)}
    ensures Validate(e, req) == Validate(d, req)
  {
  }

  /** On acceptance the write adds exactly one ballot, for the request's
      event and role, and exactly `maxVotes` votes of that ballot, one per
      chosen candidate in list order; nothing else changes and the database
      stays well formed. */
  lemma AcceptedWrite(d: Db, req: VoteRequest)
    requires Wellformed(d) && Validate(d, req).Accepted?
    ensures var o := Validate(d, req);
      var e := AddBallot(d, o.eventId, o.role, o.candidateIds);
      && Wellformed(e)
      && e.events == d.events && e.groups == d.groups && e.candidates == d.candidates
      && e.ballots == d.ballots + [Ballot(d.nextId, o.eventId, o.role)]
      && FindBallot(d, d.nextId).None?
      && |e.votes| == |d.votes| + FindEvent(d, o.eventId).value.maxVotes
      && e.votes[..|d.votes|] == d.votes
      && (forall i | 0 <= i < |o.candidateIds| ::
            e.votes[|d.votes| + i].ballotId == d.nextId && e.votes[|d.votes| + i].candidateId == o.candidateIds[i])
  {
    var o := Validate(d, req);
    ValidateAcceptsIff(d, req);
    AddBallotWellformed(d, o.eventId, o.role, o.candidateIds);
    FreshNotFound(d.ballots, BallotKey, d.nextId, d.nextId);
    var e := AddBallot(d, o.eventId, o.role, o.candidateIds);
    assert e.votes[..|d.votes|] == d.votes;
  }

  /** The handler: runs the guards on the current database and, if they
      pass, creates the ballot. A rejection leaves the database as it was. */
  method SubmitVote(db: Store, req: VoteRequest) returns (o: Outcome)
    requires db.Valid()
    modifies db
    ensures o == Validate(old(db.Snapshot()), req)
    ensures o.Accepted? ==> db.Snapshot() == AddBallot(old(db.Snapshot()), o.eventId, o.role, o.candidateIds)
    ensures o.Rejected? ==> db.Snapshot() == old(db.Snapshot())
    ensures db.Valid()
  {
    o := Validate(db.Snapshot(), req);
    if o.Accepted? {
      ValidateAcceptsIff(db.Snapshot(), req);
      var _ := db.CreateBallot(o.eventId, o.role, o.candidateIds);
    }
  }
}
