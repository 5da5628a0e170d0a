/** The database the route handlers work on: the five tables of the voting
    app (events, their groups, the candidates of each group, ballots and
    the votes of each ballot) as sequences in insertion order, with the
    referential integrity the database enforces, and the three writes the
    core performs as functions from the old tables to the new. Identifiers
    are handed out from a counter, standing in for generated unique ids. */
module Schema {
  import opened Common

  type Id = nat

  /** A voting event: `isActive` opens the ballot box, `maxVotes` is the
      exact number of candidates a ballot must name. */
  datatype Event = Event(id: Id, name: string, isActive: bool, maxVotes: int)

  datatype Group = Group(id: Id, eventId: Id, name: string)

  datatype Candidate = Candidate(id: Id, groupId: Id, name: string, description: Option<string>)

  /** A ballot records the role of its voter, which decides the weight of
      its votes. */
  datatype Ballot = Ballot(id: Id, eventId: Id, role: string)

  datatype Vote = Vote(id: Id, ballotId: Id, candidateId: Id)

  /** A candidate as an import describes it, before it has an id. */
  datatype Draft = Draft(name: string, description: Option<string>)

  datatype Db = Db(
    events: seq<Event>,
    groups: seq<Group>,
    candidates: seq<Candidate>,
    ballots: seq<Ballot>,
    votes: seq<Vote>,
    nextId: nat)

  function EventKey(e: Event): Id { e.id }
  function GroupKey(g: Group): Id { g.id }
  function CandidateKey(c: Candidate): Id { c.id }
  function BallotKey(b: Ballot): Id { b.id }
  function VoteKey(v: Vote): Id { v.id }

  /** The first row whose key is `id` (`findUnique` by primary key). */
  function Find<T>(s: seq<T>, key: T -> Id, id: Id): (r: Option<T>)
    ensures r.Some? ==> r.value in s && key(r.value) == id
    ensures r.None? <==> forall k | 0 <= k < |s| :: key(s[k]) != id
  {
    if s == [] then None
    else if key(s[0]) == id then Some(s[0])
    else
      var r := Find(s[1..], key, id);
      assert forall k | 1 <= k < |s| :: s[k] == s[1..][k - 1];
      r
  }

  /** Appending rows does not change what an earlier row's key finds. */
  lemma {:induction false} FindAppend<T>(s: seq<T>, t: seq<T>, key: T -> Id, id: Id)
    ensures Find(s + t, key, id) == if Find(s, key, id).Some? then Find(s, key, id) else Find(t, key, id)
  {
    if s == [] {
      assert s + t == t;
    } else {
      assert (s + t)[1..] == s[1..] + t;
      FindAppend(s[1..], t, key, id);
    }
  }

  /** With unique keys, looking up a row's key finds that row. */
  lemma {:induction false} FindUnique<T>(s: seq<T>, key: T -> Id, k: nat)
    requires k < |s| && UniqueKeys(s, key)
    ensures Find(s, key, key(s[k])) == Some(s[k])
  {
    if k > 0 {
      assert key(s[0]) != key(s[k]);
      assert UniqueKeys(s[1..], key) by {
        forall i, j | 0 <= i < j < |s| - 1 ensures key(s[1..][i]) != key(s[1..][j]) {
          assert s[1..][i] == s[i + 1] && s[1..][j] == s[j + 1];
        }
      }
      FindUnique(s[1..], key, k - 1);
    }
  }

  predicate UniqueKeys<T>(s: seq<T>, key: T -> Id) {
    forall i, j | 0 <= i < j < |s| :: key(s[i]) != key(s[j])
  }

  predicate KeysBelow<T>(s: seq<T>, key: T -> Id, n: nat) {
    forall k | 0 <= k < |s| :: key(s[k]) < n
  }

  function FindEvent(d: Db, id: Id): Option<Event> { Find(d.events, EventKey, id) }
  function FindGroup(d: Db, id: Id): Option<Group> { Find(d.groups, GroupKey, id) }
  function FindCandidate(d: Db, id: Id): Option<Candidate> { Find(d.candidates, CandidateKey, id) }
  function FindBallot(d: Db, id: Id): Option<Ballot> { Find(d.ballots, BallotKey, id) }

  /** The event a candidate belongs to, through its group. */
  function CandidateEvent(d: Db, id: Id): Option<Id> {
    match FindCandidate(d, id)
    case None => None
    case Some(c) =>
      match FindGroup(d, c.groupId)
      case None => None
      case Some(g) => Some(g.eventId)
  }

  /** A vote is for a candidate of the event its ballot was cast in. */
  predicate VoteConsistent(d: Db, v: Vote) {
    match FindBallot(d, v.ballotId)
    case None => false
    case Some(b) => CandidateEvent(d, v.candidateId) == Some(b.eventId)
  }

  predicate FreshIds(d: Db) {
    && KeysBelow(d.events, EventKey, d.nextId)
    && KeysBelow(d.groups, GroupKey, d.nextId)
    && KeysBelow(d.candidates, CandidateKey, d.nextId)
    && KeysBelow(d.ballots, BallotKey, d.nextId)
    && KeysBelow(d.votes, VoteKey, d.nextId)
  }

  predicate UniqueIds(d: Db) {
    && UniqueKeys(d.events, EventKey)
    && UniqueKeys(d.groups, GroupKey)
    && UniqueKeys(d.candidates, CandidateKey)
    && UniqueKeys(d.ballots, BallotKey)
    && UniqueKeys(d.votes, VoteKey)
  }

  /** Every foreign key resolves. */
  predicate References(d: Db) {
    && (forall k | 0 <= k < |d.groups| :: FindEvent(d, d.groups[k].eventId).Some?)
    && (forall k | 0 <= k < |d.candidates| :: FindGroup(d, d.candidates[k].groupId).Some?)
    && (forall k | 0 <= k < |d.ballots| :: FindEvent(d, d.ballots[k].eventId).Some?)
    && (forall k | 0 <= k < |d.votes| :: VoteConsistent(d, d.votes[k]))
  }

  /** The integrity the database keeps: unique primary keys, every id
      below the counter, resolving foreign keys, and no vote that crosses
      from one event into another. */
  predicate Wellformed(d: Db) {
    FreshIds(d) && UniqueIds(d) && References(d)
  }

  /** The votes of a new ballot, one per candidate id in list order. */
  function NewVotes(ballotId: Id, candidateIds: seq<Id>): (r: seq<Vote>)
    ensures |r| == |candidateIds|
  {
    seq(|candidateIds|, i requires 0 <= i < |candidateIds| => Vote(ballotId + 1 + i, ballotId, candidateIds[i]))
  }

  /** `ballot.create` with nested `votes.create`: one ballot, then one vote
      per candidate id. */
  function AddBallot(d: Db, eventId: Id, role: string, candidateIds: seq<Id>): Db {
    d.(ballots := d.ballots + [Ballot(d.nextId, eventId, role)],
       votes := d.votes + NewVotes(d.nextId, candidateIds),
       nextId := d.nextId + 1 + |candidateIds|)
  }

  /** `group.create`. */
  function AddGroup(d: Db, eventId: Id, name: string): Db {
    d.(groups := d.groups + [Group(d.nextId, eventId, name)], nextId := d.nextId + 1)
  }

  /** The candidates `candidate.createMany` inserts for one group. */
  function NewCandidates(firstId: Id, groupId: Id, drafts: seq<Draft>): (r: seq<Candidate>)
    ensures |r| == |drafts|
  {
    seq(|drafts|, i requires 0 <= i < |drafts| => Candidate(firstId + i, groupId, drafts[i].name, drafts[i].description))
  }

  /** `candidate.createMany`. */
  function AddCandidates(d: Db, groupId: Id, drafts: seq<Draft>): Db {
    d.(candidates := d.candidates + NewCandidates(d.nextId, groupId, drafts),
       nextId := d.nextId + |drafts|)
  }

  /** An id at or above the counter is in no table. */
  lemma FreshNotFound<T>(s: seq<T>, key: T -> Id, n: nat, id: Id)
    requires KeysBelow(s, key, n) && id >= n
    ensures Find(s, key, id).None?
  {
  }

  /** Appending rows with fresh, distinct keys keeps keys unique and below
      the new counter. */
  lemma AppendFresh<T>(s: seq<T>, t: seq<T>, key: T -> Id, n: nat, m: nat)
    requires UniqueKeys(s, key) && KeysBelow(s, key, n) && n <= m
    requires UniqueKeys(t, key) && forall k | 0 <= k < |t| :: n <= key(t[k]) < m
    ensures UniqueKeys(s + t, key) && KeysBelow(s + t, key, m)
  {
    var u := s + t;
    forall i, j | 0 <= i < j < |u| ensures key(u[i]) != key(u[j]) {
      if j < |s| {
        assert u[i] == s[i] && u[j] == s[j];
      } else if i < |s| {
        assert u[i] == s[i] && u[j] == t[j - |s|];
      } else {
        assert u[i] == t[i - |s|] && u[j] == t[j - |s|];
      }
    }
  }

  lemma KeysBelowMono<T>(s: seq<T>, key: T -> Id, n: nat, m: nat)
    requires KeysBelow(s, key, n) && n <= m
    ensures KeysBelow(s, key, m)
  {
  }

  /** Looking up an id in a table that gained rows with fresh keys gives
      the same answer as before, for an id that was already present. */
  lemma FindOld<T>(s: seq<T>, t: seq<T>, key: T -> Id, id: Id)
    requires Find(s, key, id).Some?
    ensures Find(s + t, key, id) == Find(s, key, id)
  {
    FindAppend(s, t, key, id);
  }

  /** The new ballot's id finds the new ballot. */
  lemma FindNewBallot(d: Db, eventId: Id, role: string, candidateIds: seq<Id>)
    requires FreshIds(d)
    ensures FindBallot(AddBallot(d, eventId, role, candidateIds), d.nextId) == Some(Ballot(d.nextId, eventId, role))
  {
    var b := Ballot(d.nextId, eventId, role);
    FreshNotFound(d.ballots, BallotKey, d.nextId, d.nextId);
    FindAppend(d.ballots, [b], BallotKey, d.nextId);
  }

  /** A ballot may be added when its event exists and every candidate id
      names a candidate of that event. */
  predicate BallotAllowed(d: Db, eventId: Id, candidateIds: seq<Id>) {
    FindEvent(d, eventId).Some? &&
    forall i | 0 <= i < |candidateIds| :: CandidateEvent(d, candidateIds[i]) == Some(eventId)
  }

  /** Casting a permitted ballot keeps the database well formed: in
      particular every new vote stays within the ballot's event. */
  lemma AddBallotWellformed(d: Db, eventId: Id, role: string, candidateIds: seq<Id>)
    requires Wellformed(d) && BallotAllowed(d, eventId, candidateIds)
    ensures Wellformed(AddBallot(d, eventId, role, candidateIds))
  {
    AddBallotKeys(d, eventId, role, candidateIds);
    AddBallotBallots(d, eventId, role, candidateIds);
    AddBallotVotes(d, eventId, role, candidateIds);
  }

  lemma AddBallotKeys(d: Db, eventId: Id, role: string, candidateIds: seq<Id>)
    requires FreshIds(d) && UniqueIds(d)
    ensures FreshIds(AddBallot(d, eventId, role, candidateIds))
    ensures UniqueIds(AddBallot(d, eventId, role, candidateIds))
  {
    var r := AddBallot(d, eventId, role, candidateIds);
    AppendFresh(d.ballots, [Ballot(d.nextId, eventId, role)], BallotKey, d.nextId, r.nextId);
    AppendFresh(d.votes, NewVotes(d.nextId, candidateIds), VoteKey, d.nextId, r.nextId);
    KeysBelowMono(d.events, EventKey, d.nextId, r.nextId);
    KeysBelowMono(d.groups, GroupKey, d.nextId, r.nextId);
    KeysBelowMono(d.candidates, CandidateKey, d.nextId, r.nextId);
  }

  lemma AddBallotBallots(d: Db, eventId: Id, role: string, candidateIds: seq<Id>)
    requires References(d) && FindEvent(d, eventId).Some?
    ensures var r := AddBallot(d, eventId, role, candidateIds);
      forall k | 0 <= k < |r.ballots| :: FindEvent(r, r.ballots[k].eventId).Some?
  {
    var r := AddBallot(d, eventId, role, candidateIds);
    forall k | 0 <= k < |r.ballots| ensures FindEvent(r, r.ballots[k].eventId).Some? {
      if k < |d.ballots| {
        assert r.ballots[k] == d.ballots[k];
      }
    }
  }

  lemma AddBallotVotes(d: Db, eventId: Id, role: string, candidateIds: seq<Id>)
    requires FreshIds(d) && References(d) && BallotAllowed(d, eventId, candidateIds)
    ensures var r := AddBallot(d, eventId, role, candidateIds);
      forall k | 0 <= k < |r.votes| :: VoteConsistent(r, r.votes[k])
  {
    var r := AddBallot(d, eventId, role, candidateIds);
    var b := Ballot(d.nextId, eventId, role);
    var nv := NewVotes(d.nextId, candidateIds);
    FindNewBallot(d, eventId, role, candidateIds);
    forall k | 0 <= k < |r.votes| ensures VoteConsistent(r, r.votes[k]) {
      if k < |d.votes| {
        var v := d.votes[k];
        assert r.votes[k] == v;
        assert VoteConsistent(d, v);
        FindOld(d.ballots, [b], BallotKey, v.ballotId);
      } else {
        assert r.votes[k] == nv[k - |d.votes|];
      }
    }
  }

  /** Adding a group to an existing event keeps the database well formed. */
  lemma AddGroupWellformed(d: Db, eventId: Id, name: string)
    requires Wellformed(d) && FindEvent(d, eventId).Some?
    ensures Wellformed(AddGroup(d, eventId, name))
  {
    AddGroupKeys(d, eventId, name);
    AddGroupGroups(d, eventId, name);
    AddGroupCandidates(d, eventId, name);
    AddGroupVotes(d, eventId, name);
  }

  lemma AddGroupKeys(d: Db, eventId: Id, name: string)
    requires FreshIds(d) && UniqueIds(d)
    ensures FreshIds(AddGroup(d, eventId, name)) && UniqueIds(AddGroup(d, eventId, name))
  {
    var r := AddGroup(d, eventId, name);
    AppendFresh(d.groups, [Group(d.nextId, eventId, name)], GroupKey, d.nextId, r.nextId);
    KeysBelowMono(d.events, EventKey, d.nextId, r.nextId);
    KeysBelowMono(d.candidates, CandidateKey, d.nextId, r.nextId);
    KeysBelowMono(d.ballots, BallotKey, d.nextId, r.nextId);
    KeysBelowMono(d.votes, VoteKey, d.nextId, r.nextId);
  }

  lemma AddGroupGroups(d: Db, eventId: Id, name: string)
    requires References(d) && FindEvent(d, eventId).Some?
    ensures var r := AddGroup(d, eventId, name);
      forall k | 0 <= k < |r.groups| :: FindEvent(r, r.groups[k].eventId).Some?
  {
    var r := AddGroup(d, eventId, name);
    forall k | 0 <= k < |r.groups| ensures FindEvent(r, r.groups[k].eventId).Some? {
      if k < |d.groups| {
        assert r.groups[k] == d.groups[k];
      }
    }
  }

  lemma AddGroupCandidates(d: Db, eventId: Id, name: string)
    requires References(d)
    ensures var r := AddGroup(d, eventId, name);
      forall k | 0 <= k < |r.candidates| :: FindGroup(r, r.candidates[k].groupId).Some?
  {
    var r := AddGroup(d, eventId, name);
    var g := Group(d.nextId, eventId, name);
    forall k | 0 <= k < |r.candidates| ensures FindGroup(r, r.candidates[k].groupId).Some? {
      assert FindGroup(d, d.candidates[k].groupId).Some?;
      FindOld(d.groups, [g], GroupKey, d.candidates[k].groupId);
    }
  }

  lemma AddGroupVotes(d: Db, eventId: Id, name: string)
    requires References(d)
    ensures var r := AddGroup(d, eventId, name);
      forall k | 0 <= k < |r.votes| :: VoteConsistent(r, r.votes[k])
  {
    var r := AddGroup(d, eventId, name);
    var g := Group(d.nextId, eventId, name);
    forall k | 0 <= k < |r.votes| ensures VoteConsistent(r, r.votes[k]) {
      var v := d.votes[k];
      assert VoteConsistent(d, v);
      var c := FindCandidate(d, v.candidateId).value;
      FindOld(d.groups, [g], GroupKey, c.groupId);
    }
  }

  /** Adding candidates to an existing group keeps the database well
      formed. */
  lemma AddCandidatesWellformed(d: Db, groupId: Id, drafts: seq<Draft>)
    requires Wellformed(d) && FindGroup(d, groupId).Some?
    ensures Wellformed(AddCandidates(d, groupId, drafts))
  {
    AddCandidatesKeys(d, groupId, drafts);
    AddCandidatesRefs(d, groupId, drafts);
    AddCandidatesVotes(d, groupId, drafts);
  }

  lemma AddCandidatesKeys(d: Db, groupId: Id, drafts: seq<Draft>)
    requires FreshIds(d) && UniqueIds(d)
    ensures FreshIds(AddCandidates(d, groupId, drafts)) && UniqueIds(AddCandidates(d, groupId, drafts))
  {
    var r := AddCandidates(d, groupId, drafts);
    AppendFresh(d.candidates, NewCandidates(d.nextId, groupId, drafts), CandidateKey, d.nextId, r.nextId);
    KeysBelowMono(d.events, EventKey, d.nextId, r.nextId);
    KeysBelowMono(d.groups, GroupKey, d.nextId, r.nextId);
    KeysBelowMono(d.ballots, BallotKey, d.nextId, r.nextId);
    KeysBelowMono(d.votes, VoteKey, d.nextId, r.nextId);
  }

  lemma AddCandidatesRefs(d: Db, groupId: Id, drafts: seq<Draft>)
    requires References(d) && FindGroup(d, groupId).Some?
    ensures var r := AddCandidates(d, groupId, drafts);
      && (forall k | 0 <= k < |r.groups| :: FindEvent(r, r.groups[k].eventId).Some?)
      && (forall k | 0 <= k < |r.candidates| :: FindGroup(r, r.candidates[k].groupId).Some?)
      && (forall k | 0 <= k < |r.ballots| :: FindEvent(r, r.ballots[k].eventId).Some?)
  {
    var r := AddCandidates(d, groupId, drafts);
    var nc := NewCandidates(d.nextId, groupId, drafts);
    forall k | 0 <= k < |r.candidates| ensures FindGroup(r, r.candidates[k].groupId).Some? {
      if k < |d.candidates| {
        assert r.candidates[k] == d.candidates[k];
      } else {
        assert r.candidates[k] == nc[k - |d.candidates|];
      }
    }
  }

  lemma AddCandidatesVotes(d: Db, groupId: Id, drafts: seq<Draft>)
    requires References(d)
    ensures var r := AddCandidates(d, groupId, drafts);
      forall k | 0 <= k < |r.votes| :: VoteConsistent(r, r.votes[k])
  {
    var r := AddCandidates(d, groupId, drafts);
    var nc := NewCandidates(d.nextId, groupId, drafts);
    forall k | 0 <= k < |r.votes| ensures VoteConsistent(r, r.votes[k]) {
      var v := d.votes[k];
      assert VoteConsistent(d, v);
      FindOld(d.candidates, nc, CandidateKey, v.candidateId);
    }
  }
}
