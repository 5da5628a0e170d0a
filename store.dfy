/** The Prisma client as the handlers use it: one store object whose
    tables change in place. Each write is specified by the function in
    Schema that computes the new tables from the old ones, and keeps the
    database well formed. */
module Database {
  import opened Common
  import opened Schema

  class Store {
    var events: seq<Event>
    var groups: seq<Group>
    var candidates: seq<Candidate>
    var ballots: seq<Ballot>
    var votes: seq<Vote>
    var nextId: nat

    /** The tables as a value. */
    function Snapshot(): Db
      reads this
    {
      Db(events, groups, candidates, ballots, votes, nextId)
    }

    ghost predicate Valid()
      reads this
    {
      Wellformed(Snapshot())
    }

    /** An empty database. */
    constructor ()
      ensures Snapshot() == Db([], [], [], [], [], 0)
      ensures Valid()
    {
      events, groups, candidates, ballots, votes := [], [], [], [], [];
      nextId := 0;
    }

    /** `prisma.ballot.create` with nested vote creation, as one step. */
    method CreateBallot(eventId: Id, role: string, candidateIds: seq<Id>) returns (ballot: Ballot)
      requires Valid() && BallotAllowed(Snapshot(), eventId, candidateIds)
      modifies this
      ensures Snapshot() == AddBallot(old(Snapshot()), eventId, role, candidateIds)
      ensures ballot == Ballot(old(nextId), eventId, role)
      ensures Valid()
    {
      AddBallotWellformed(Snapshot(), eventId, role, candidateIds);
      ballot := Ballot(nextId, eventId, role);
      ballots := ballots + [ballot];
      votes := votes + NewVotes(nextId, candidateIds);
      nextId := nextId + 1 + |candidateIds|;
    }

    /** `prisma.group.create`. */
    method CreateGroup(eventId: Id, name: string) returns (group: Group)
      requires Valid() && FindEvent(Snapshot(), eventId).Some?
      modifies this
      ensures Snapshot() == AddGroup(old(Snapshot()), eventId, name)
      ensures group == Group(old(nextId), eventId, name)
      ensures Valid()
    {
      AddGroupWellformed(Snapshot(), eventId, name);
      group := Group(nextId, eventId, name);
      groups := groups + [group];
      nextId := nextId + 1;
    }

    /** `prisma.candidate.createMany` for one group; gives the number of
        rows inserted. */
    method CreateCandidates(groupId: Id, drafts: seq<Draft>) returns (count: nat)
      requires Valid() && FindGroup(Snapshot(), groupId).Some?
      modifies this
      ensures Snapshot() == AddCandidates(old(Snapshot()), groupId, drafts)
      ensures count == |drafts|
      ensures Valid()
    {
      AddCandidatesWellformed(Snapshot(), groupId, drafts);
      candidates := candidates + NewCandidates(nextId, groupId, drafts);
      nextId := nextId + |drafts|;
      count := |drafts|;
    }
  }
}
