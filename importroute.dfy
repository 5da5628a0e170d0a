/** `POST /api/admin/candidates/import`: parse the uploaded CSV, group its
    rows by their `group` cell, find or create each group in the event and
    insert the group's candidates. The writes are specified by `ImportAll`,
    which the handler's loops are proved to perform. */
module ImportRoute {
  import opened Common
  import opened Grouping
  import opened Schema
  import opened Database
  import opened Utils

  const DefaultGroup: string := "預設組別"
  const DefaultName: string := "未命名"

  /** The group a row goes to: its `group` cell, or the default group when
      the cell is missing or empty. */
  function GroupNameOf(row: CsvRow): (name: string)
    ensures name != ""
    ensures "group" in row && row["group"] != "" ==> name == row["group"]
  {
    if "group" in row && row["group"] != "" then row["group"] else DefaultGroup
  }

  /** The candidate a row describes: the default name stands in for a
      missing or empty `name` cell, and a missing or empty `description`
      cell becomes null. */
  function DraftOf(row: CsvRow): (draft: Draft)
    ensures draft.name != ""
    ensures draft.description != Some("")
    ensures "name" in row && row["name"] != "" ==> draft.name == row["name"]
    ensures draft.description.Some? <==> "description" in row && row["description"] != ""
  {
    Draft(
      if "name" in row && row["name"] != "" then row["name"] else DefaultName,
      if "description" in row && row["description"] != "" then Some(row["description"]) else None)
  }

  /** Each row as (group name, candidate), in file order. */
  function Entries(rows: seq<CsvRow>): (ps: seq<(string, Draft)>)
    ensures |ps| == |rows|
  {
    seq(|rows|, i requires 0 <= i < |rows| => (GroupNameOf(rows[i]), DraftOf(rows[i])))
  }

  lemma EntriesSnoc(rows: seq<CsvRow>, i: nat)
    requires i < |rows|
    ensures Entries(rows[..i + 1]) == Entries(rows[..i]) + [(GroupNameOf(rows[i]), DraftOf(rows[i]))]
  {
  }

  predicate Named(g: Group, eventId: Id, name: string) {
    g.eventId == eventId && g.name == name
  }

  /** `group.findFirst({ where: { eventId, name } })`. */
  function FindGroupNamed(groups: seq<Group>, eventId: Id, name: string): Option<Group> {
    if groups == [] then None
    else if Named(groups[0], eventId, name) then Some(groups[0])
    else FindGroupNamed(groups[1..], eventId, name)
  }

  /** The lookup gives the first group of the table with that event and
      name, and nothing exactly when there is none. */
  lemma {:induction false} FindGroupNamedSpec(groups: seq<Group>, eventId: Id, name: string)
    ensures var r := FindGroupNamed(groups, eventId, name);
      && (r.Some? ==> exists k | 0 <= k < |groups| ::
            groups[k] == r.value && Named(r.value, eventId, name)
            && forall j | 0 <= j < k :: !Named(groups[j], eventId, name))
      && (r.None? <==> forall k | 0 <= k < |groups| :: !Named(groups[k], eventId, name))
  {
    if groups != [] && !Named(groups[0], eventId, name) {
      FindGroupNamedSpec(groups[1..], eventId, name);
      var r := FindGroupNamed(groups[1..], eventId, name);
      if r.Some? {
        var k :| 0 <= k < |groups| - 1 && groups[1..][k] == r.value && Named(r.value, eventId, name)
          && forall j | 0 <= j < k :: !Named(groups[1..][j], eventId, name);
        assert groups[k + 1] == r.value;
        forall j | 0 <= j < k + 1 ensures !Named(groups[j], eventId, name) {
          if j > 0 {
            assert groups[j] == groups[1..][j - 1];
          }
        }
      } else {
        forall k | 0 <= k < |groups| ensures !Named(groups[k], eventId, name) {
          if k > 0 {
            assert groups[k] == groups[1..][k - 1];
          }
        }
      }
    }
  }

  /** Nothing is found exactly when no group matches. */
  lemma FindGroupNamedNone(groups: seq<Group>, eventId: Id, name: string)
    ensures FindGroupNamed(groups, eventId, name).None? <==> forall k | 0 <= k < |groups| :: !Named(groups[k], eventId, name)
  {
    FindGroupNamedSpec(groups, eventId, name);
  }

  /** A group found in the old rows is still the first one found. */
  lemma {:induction false} FindGroupNamedOld(s: seq<Group>, t: seq<Group>, eventId: Id, name: string)
    requires FindGroupNamed(s, eventId, name).Some?
    ensures FindGroupNamed(s + t, eventId, name) == FindGroupNamed(s, eventId, name)
    decreases |s|
  {
    assert (s + t)[0] == s[0];
    if !Named(s[0], eventId, name) {
      assert (s + t)[1..] == s[1..] + t;
      FindGroupNamedOld(s[1..], t, eventId, name);
    }
  }

  /** With no matching group so far, the appended rows decide. */
  lemma FindGroupNamedNew(s: seq<Group>, t: seq<Group>, eventId: Id, name: string)
    requires FindGroupNamed(s, eventId, name).None?
    ensures FindGroupNamed(s + t, eventId, name) == FindGroupNamed(t, eventId, name)
    decreases |s|
  {
    if s != [] {
      assert !Named(s[0], eventId, name);
      assert (s + t)[1..] == s[1..] + t;
      FindGroupNamedNew(s[1..], t, eventId, name);
    } else {
      assert s + t == t;
    }
  }

  /** The tables after the find-or-create step for one group name. */
  function Staged(d: Db, eventId: Id, name: string): Db {
    if FindGroupNamed(d.groups, eventId, name).Some? then d else AddGroup(d, eventId, name)
  }

  /** The id of the group the name's candidates go under. */
  function TargetGroup(d: Db, eventId: Id, name: string): Id {
    match FindGroupNamed(d.groups, eventId, name)
    case Some(g) => g.id
    case None => d.nextId
  }

  /** One iteration of the handler's loop over the grouped map. */
  function ImportOne(d: Db, eventId: Id, name: string, drafts: seq<Draft>): Db {
    AddCandidates(Staged(d, eventId, name), TargetGroup(d, eventId, name), drafts)
  }

  /** The loop over the grouped map, for the given keys in order. */
  function ImportBuckets(d: Db, eventId: Id, pairs: seq<(string, Draft)>, keys: seq<string>): Db {
    if keys == [] then d
    else
      var name := keys[|keys| - 1];
      ImportOne(ImportBuckets(d, eventId, pairs, keys[..|keys| - 1]), eventId, name, Bucket(pairs, name))
  }

  /** The database after importing the parsed rows into an event. */
  function ImportAll(d: Db, eventId: Id, rows: seq<CsvRow>): Db {
    var pairs := Entries(rows);
    ImportBuckets(d, eventId, pairs, Keys(pairs))
  }

  /** Where a candidate sits: its group's name and its own fields. */
  function Placed(d: Db, c: Candidate): (string, Draft) {
    (match FindGroup(d, c.groupId) case Some(g) => g.name case None => "", Draft(c.name, c.description))
  }

  function PlacedAll(d: Db, cs: seq<Candidate>): (r: seq<(string, Draft)>)
    ensures |r| == |cs|
  {
    seq(|cs|, i requires 0 <= i < |cs| => Placed(d, cs[i]))
  }

  /** The find-or-create step yields a group of the event with the name,
      and that group is what `findFirst` now returns. */
  lemma {:induction false} StagedSpec(d: Db, eventId: Id, name: string)
    requires UniqueKeys(d.groups, GroupKey) && KeysBelow(d.groups, GroupKey, d.nextId)
    ensures var s := Staged(d, eventId, name);
      && s.events == d.events && s.candidates == d.candidates
      && s.ballots == d.ballots && s.votes == d.votes
      && (FindGroupNamed(d.groups, eventId, name).Some? ==> s.groups == d.groups && s.nextId == d.nextId)
      && (FindGroupNamed(d.groups, eventId, name).None? ==>
            s.groups == d.groups + [Group(d.nextId, eventId, name)] && s.nextId == d.nextId + 1)
      && FindGroupNamed(s.groups, eventId, name).Some?
      && FindGroup(s, TargetGroup(d, eventId, name)) == FindGroupNamed(s.groups, eventId, name)
  {
    var found := FindGroupNamed(d.groups, eventId, name);
    FindGroupNamedSpec(d.groups, eventId, name);
    if found.Some? {
      var k :| 0 <= k < |d.groups| && d.groups[k] == found.value && Named(found.value, eventId, name)
        && forall j | 0 <= j < k :: !Named(d.groups[j], eventId, name);
      FindUnique(d.groups, GroupKey, k);
    } else {
      var g := Group(d.nextId, eventId, name);
      FindGroupNamedNew(d.groups, [g], eventId, name);
      FindAppend(d.groups, [g], GroupKey, d.nextId);
      FreshNotFound(d.groups, GroupKey, d.nextId, d.nextId);
    }
  }

  /** One iteration keeps the database well formed. */
  lemma ImportOneWellformed(d: Db, eventId: Id, name: string, drafts: seq<Draft>)
    requires Wellformed(d) && FindEvent(d, eventId).Some?
    ensures Wellformed(ImportOne(d, eventId, name, drafts))
  {
    StagedSpec(d, eventId, name);
    var s := Staged(d, eventId, name);
    if s != d {
      AddGroupWellformed(d, eventId, name);
    }
    AddCandidatesWellformed(s, TargetGroup(d, eventId, name), drafts);
  }

  /** One iteration: the events, the ballots and the votes are untouched,
      at most the one missing group is added, and the drafts are appended
      as candidates of the group named `name`. */
  lemma {:induction false} ImportOneSpec(d: Db, eventId: Id, name: string, drafts: seq<Draft>)
    requires UniqueKeys(d.groups, GroupKey) && KeysBelow(d.groups, GroupKey, d.nextId)
    ensures var r := ImportOne(d, eventId, name, drafts);
      var s := Staged(d, eventId, name);
      var gid := TargetGroup(d, eventId, name);
      && r.events == d.events && r.ballots == d.ballots && r.votes == d.votes
      && r.groups == s.groups
      && FindGroupNamed(r.groups, eventId, name).Some?
      && FindGroup(r, gid) == FindGroupNamed(r.groups, eventId, name)
      && r.candidates == d.candidates + NewCandidates(s.nextId, gid, drafts)
  {
    StagedSpec(d, eventId, name);
  }

  /** A group the tables held keeps being found under its id after rows
      are appended to the group table. */
  lemma FindGroupGrown(d: Db, r: Db, gid: Id)
    requires FindGroup(d, gid).Some?
    requires |d.groups| <= |r.groups| && r.groups[..|d.groups|] == d.groups
    ensures FindGroup(r, gid) == FindGroup(d, gid)
  {
    assert r.groups == d.groups + r.groups[|d.groups|..];
    FindOld(d.groups, r.groups[|d.groups|..], GroupKey, gid);
  }

  /** What the find-or-create step relies on: group ids are unique and
      below the id counter. */
  predicate GroupsIndexed(d: Db) {
    UniqueKeys(d.groups, GroupKey) && KeysBelow(d.groups, GroupKey, d.nextId)
  }

  lemma ImportOneIndexed(d: Db, eventId: Id, name: string, drafts: seq<Draft>)
    requires GroupsIndexed(d)
    ensures var r := ImportOne(d, eventId, name, drafts);
      && GroupsIndexed(r) && d.nextId <= r.nextId
      && |d.groups| <= |r.groups| && r.groups[..|d.groups|] == d.groups
      && r.candidates[..|d.candidates|] == d.candidates
  {
    StagedSpec(d, eventId, name);
    var s := Staged(d, eventId, name);
    if s != d {
      AppendFresh(d.groups, [Group(d.nextId, eventId, name)], GroupKey, d.nextId, d.nextId + 1);
    }
    KeysBelowMono(s.groups, GroupKey, s.nextId, s.nextId + |drafts|);
  }

  /** The groups and the candidates only grow at the end. */
  lemma {:induction false} ImportBucketsPrefix(d: Db, eventId: Id, pairs: seq<(string, Draft)>, keys: seq<string>)
    requires GroupsIndexed(d)
    ensures var r := ImportBuckets(d, eventId, pairs, keys);
      && GroupsIndexed(r)
      && |d.groups| <= |r.groups| && r.groups[..|d.groups|] == d.groups
      && |d.candidates| <= |r.candidates| && r.candidates[..|d.candidates|] == d.candidates
  {
    if keys == [] {
      assert d.groups[..|d.groups|] == d.groups && d.candidates[..|d.candidates|] == d.candidates;
    } else {
      var m := |keys| - 1;
      ImportBucketsPrefix(d, eventId, pairs, keys[..m]);
      var d1 := ImportBuckets(d, eventId, pairs, keys[..m]);
      PrefixStep(d, d1, eventId, keys[m], Bucket(pairs, keys[m]));
    }
  }

  /** One iteration keeps the old rows of both tables in front. */
  lemma PrefixStep(d: Db, d1: Db, eventId: Id, name: string, drafts: seq<Draft>)
    requires GroupsIndexed(d1)
    requires |d.groups| <= |d1.groups| && d1.groups[..|d.groups|] == d.groups
    requires |d.candidates| <= |d1.candidates| && d1.candidates[..|d.candidates|] == d.candidates
    ensures var r := ImportOne(d1, eventId, name, drafts);
      && GroupsIndexed(r)
      && |d.groups| <= |r.groups| && r.groups[..|d.groups|] == d.groups
      && |d.candidates| <= |r.candidates| && r.candidates[..|d.candidates|] == d.candidates
  {
    ImportOneIndexed(d1, eventId, name, drafts);
    var r := ImportOne(d1, eventId, name, drafts);
    assert r.groups[..|d.groups|] == r.groups[..|d1.groups|][..|d.groups|];
    assert r.candidates[..|d.candidates|] == r.candidates[..|d1.candidates|][..|d.candidates|];
  }

  /** The loop over the grouped map keeps the database well formed and
      leaves the events, the ballots and the votes alone. */
  lemma {:induction false} ImportBucketsGrowth(d: Db, eventId: Id, pairs: seq<(string, Draft)>, keys: seq<string>)
    requires Wellformed(d) && FindEvent(d, eventId).Some?
    ensures var r := ImportBuckets(d, eventId, pairs, keys);
      && Wellformed(r)
      && r.events == d.events && r.ballots == d.ballots && r.votes == d.votes
  {
    if keys != [] {
      var m := |keys| - 1;
      var name := keys[m];
      ImportBucketsGrowth(d, eventId, pairs, keys[..m]);
      var d1 := ImportBuckets(d, eventId, pairs, keys[..m]);
      ImportOneWellformed(d1, eventId, name, Bucket(pairs, name));
      ImportOneSpec(d1, eventId, name, Bucket(pairs, name));
    }
  }

  /** After the loop every key has a group in the event. */
  lemma {:induction false} ImportBucketsFound(d: Db, eventId: Id, pairs: seq<(string, Draft)>, keys: seq<string>)
    requires GroupsIndexed(d)
    ensures forall k | k in keys :: FindGroupNamed(ImportBuckets(d, eventId, pairs, keys).groups, eventId, k).Some?
  {
    if keys != [] {
      var m := |keys| - 1;
      ImportBucketsFound(d, eventId, pairs, keys[..m]);
      ImportBucketsPrefix(d, eventId, pairs, keys[..m]);
      var d1 := ImportBuckets(d, eventId, pairs, keys[..m]);
      FoundStep(d1, eventId, keys[..m], keys[m], Bucket(pairs, keys[m]));
      assert keys[..m] + [keys[m]] == keys;
    }
  }

  /** One iteration finds or creates the name's group and loses none. */
  lemma FoundStep(d1: Db, eventId: Id, front: seq<string>, name: string, drafts: seq<Draft>)
    requires GroupsIndexed(d1)
    requires forall k | k in front :: FindGroupNamed(d1.groups, eventId, k).Some?
    ensures var r := ImportOne(d1, eventId, name, drafts);
      forall k | k in front + [name] :: FindGroupNamed(r.groups, eventId, k).Some?
  {
    ImportOneSpec(d1, eventId, name, drafts);
    StagedSpec(d1, eventId, name);
    var r := ImportOne(d1, eventId, name, drafts);
    var added := r.groups[|d1.groups|..];
    assert d1.groups + added == r.groups;
    forall k | k in front ensures FindGroupNamed(r.groups, eventId, k).Some? {
      FindGroupNamedOld(d1.groups, added, eventId, k);
    }
  }

  /** New groups, past the first `n` rows of the group table. */
  predicate NewGroupsFresh(d: Db, n: nat, eventId: Id, keys: seq<string>) {
    && n <= |d.groups|
    && forall i | n <= i < |d.groups| ::
         && d.groups[i].eventId == eventId
         && d.groups[i].name in keys
         && FindGroupNamed(d.groups[..n], eventId, d.groups[i].name).None?
  }

  predicate NewGroupsDistinct(d: Db, n: nat) {
    forall i, j | n <= i < j < |d.groups| :: d.groups[i].name != d.groups[j].name
  }

  /** One iteration keeps `NewGroupsFresh` and `NewGroupsDistinct`. */
  lemma NewGroupsStep(d1: Db, n: nat, eventId: Id, front: seq<string>, name: string, drafts: seq<Draft>)
    requires NewGroupsFresh(d1, n, eventId, front) && NewGroupsDistinct(d1, n)
    ensures var r := ImportOne(d1, eventId, name, drafts);
      NewGroupsFresh(r, n, eventId, front + [name]) && NewGroupsDistinct(r, n)
  {
    ImportOneGroups(d1, eventId, name, drafts);
    var r := ImportOne(d1, eventId, name, drafts);
    if FindGroupNamed(d1.groups, eventId, name).Some? {
      assert r.groups == d1.groups;
      forall i | n <= i < |r.groups| ensures r.groups[i].name in front + [name] {
      }
    } else {
      var g := Group(d1.nextId, eventId, name);
      assert r.groups == d1.groups + [g];
      assert r.groups[..n] == d1.groups[..n];
      FindGroupNamedNone(d1.groups, eventId, name);
      FindGroupNamedNone(d1.groups[..n], eventId, name);
      forall k | 0 <= k < n ensures !Named(d1.groups[..n][k], eventId, name) {
        assert d1.groups[..n][k] == d1.groups[k];
      }
      forall i | n <= i < |d1.groups| ensures r.groups[i].name != name {
        assert r.groups[i] == d1.groups[i];
        assert !Named(d1.groups[i], eventId, name);
      }
      forall i | n <= i < |r.groups| ensures r.groups[i].name in front + [name] {
        if i < |d1.groups| {
          assert r.groups[i] == d1.groups[i];
        }
      }
    }
  }

  /** One iteration leaves the group table alone when the name has a group
      in the event, and otherwise appends one group. */
  lemma ImportOneGroups(d1: Db, eventId: Id, name: string, drafts: seq<Draft>)
    ensures var r := ImportOne(d1, eventId, name, drafts);
      && (FindGroupNamed(d1.groups, eventId, name).Some? ==> r.groups == d1.groups)
      && (FindGroupNamed(d1.groups, eventId, name).None? ==>
            r.groups == d1.groups + [Group(d1.nextId, eventId, name)])
  {
  }

  /** A group is created only in the event, for one of the keys, only
      when the event had no group of that name, and only once per name. */
  lemma {:induction false} ImportBucketsNew(d: Db, eventId: Id, pairs: seq<(string, Draft)>, keys: seq<string>)
    requires GroupsIndexed(d)
    ensures var r := ImportBuckets(d, eventId, pairs, keys);
      NewGroupsFresh(r, |d.groups|, eventId, keys) && NewGroupsDistinct(r, |d.groups|)
  {
    ImportBucketsPrefix(d, eventId, pairs, keys);
    var r := ImportBuckets(d, eventId, pairs, keys);
    if keys == [] {
      assert d.groups[..|d.groups|] == d.groups;
    } else {
      var m := |keys| - 1;
      ImportBucketsNew(d, eventId, pairs, keys[..m]);
      ImportBucketsPrefix(d, eventId, pairs, keys[..m]);
      var d1 := ImportBuckets(d, eventId, pairs, keys[..m]);
      NewGroupsStep(d1, |d.groups|, eventId, keys[..m], keys[m], Bucket(pairs, keys[m]));
      assert keys[..m] + [keys[m]] == keys;
      assert r.groups[..|d.groups|] == d.groups;
    }
  }

  /** One iteration, read candidate by candidate. */
  lemma PlacedStep(d: Db, d1: Db, eventId: Id, name: string, drafts: seq<Draft>, earlier: seq<(string, Draft)>)
    requires CandidatesResolve(d1) && GroupsIndexed(d1)
    requires |d.candidates| <= |d1.candidates| && d1.candidates[..|d.candidates|] == d.candidates
    requires PlacedAll(d1, d1.candidates[|d.candidates|..]) == earlier
    requires PlacedAll(d1, d.candidates) == PlacedAll(d, d.candidates)
    ensures var r := ImportOne(d1, eventId, name, drafts);
      && |d.candidates| <= |r.candidates|
      && PlacedAll(r, r.candidates[|d.candidates|..]) == earlier + Tagged(name, drafts)
      && PlacedAll(r, d.candidates) == PlacedAll(d, d.candidates)
  {
    var r := ImportOne(d1, eventId, name, drafts);
    var older := d1.candidates[|d.candidates|..];
    var newer := r.candidates[|d1.candidates|..];
    assert r.groups[..|d1.groups|] == d1.groups && r.candidates == d1.candidates + newer by {
      ImportOneSpec(d1, eventId, name, drafts);
      StagedSpec(d1, eventId, name);
    }
    PlacedKept(d1, r);
    assert r.candidates[|d.candidates|..] == older + newer by {
      assert d1.candidates == d.candidates + older;
    }
    PlacedAllAppend(r, older, newer);
    SuffixIn(d1.candidates, |d.candidates|);
    PlacedSub(d1, r, older);
    PlacedNew(d1, eventId, name, drafts);
    PrefixIn(d1.candidates, |d.candidates|);
    PlacedSub(d1, r, d.candidates);
  }

  lemma SuffixIn<T>(s: seq<T>, n: nat)
    requires n <= |s|
    ensures forall x | x in s[n..] :: x in s
  {
    forall x | x in s[n..] ensures x in s {
      var k :| 0 <= k < |s| - n && s[n..][k] == x;
      assert s[n + k] == x;
    }
  }

  lemma PrefixIn<T>(s: seq<T>, n: nat)
    requires n <= |s|
    ensures forall x | x in s[..n] :: x in s
  {
    forall x | x in s[..n] ensures x in s {
      var k :| 0 <= k < n && s[..n][k] == x;
      assert s[k] == x;
    }
  }

  /** The loop over the grouped map, row by row: the new candidates, read
      back through their groups, are the grouped rows in the order the
      loop visits them, and the old candidates stay where they were. */
  lemma {:induction false} ImportBucketsPlaced(d: Db, eventId: Id, pairs: seq<(string, Draft)>, keys: seq<string>)
    requires Wellformed(d) && FindEvent(d, eventId).Some?
    ensures var r := ImportBuckets(d, eventId, pairs, keys);
      && |d.candidates| <= |r.candidates|
      && PlacedAll(r, r.candidates[|d.candidates|..]) == Regrouped(pairs, keys)
      && PlacedAll(r, d.candidates) == PlacedAll(d, d.candidates)
  {
    if keys == [] {
      assert d.candidates[|d.candidates|..] == [];
    } else {
      var m := |keys| - 1;
      ImportBucketsPlaced(d, eventId, pairs, keys[..m]);
      ImportBucketsGrowth(d, eventId, pairs, keys[..m]);
      assert GroupsIndexed(d);
      ImportBucketsPrefix(d, eventId, pairs, keys[..m]);
      var d1 := ImportBuckets(d, eventId, pairs, keys[..m]);
      assert CandidatesResolve(d1);
      PlacedStep(d, d1, eventId, keys[m], Bucket(pairs, keys[m]), Regrouped(pairs, keys[..m]));
    }
  }

  /** Every candidate's group is in the group table. */
  predicate CandidatesResolve(d: Db) {
    forall k | 0 <= k < |d.candidates| :: FindGroup(d, d.candidates[k].groupId).Some?
  }

  /** Candidates whose groups resolve keep their place when groups are
      appended. */
  lemma PlacedKept(d: Db, r: Db)
    requires CandidatesResolve(d)
    requires |d.groups| <= |r.groups| && r.groups[..|d.groups|] == d.groups
    ensures forall c | c in d.candidates :: Placed(r, c) == Placed(d, c)
  {
    forall c | c in d.candidates ensures Placed(r, c) == Placed(d, c) {
      var k :| 0 <= k < |d.candidates| && d.candidates[k] == c;
      assert FindGroup(d, d.candidates[k].groupId).Some?;
      FindGroupGrown(d, r, c.groupId);
    }
  }

  lemma PlacedSub(d: Db, r: Db, cs: seq<Candidate>)
    requires forall c | c in cs :: Placed(r, c) == Placed(d, c)
    ensures PlacedAll(r, cs) == PlacedAll(d, cs)
  {
    forall i | 0 <= i < |cs| ensures PlacedAll(r, cs)[i] == PlacedAll(d, cs)[i] {
      assert cs[i] in cs;
    }
  }

  lemma PlacedAllAppend(d: Db, a: seq<Candidate>, b: seq<Candidate>)
    ensures PlacedAll(d, a + b) == PlacedAll(d, a) + PlacedAll(d, b)
  {
  }

  /** The candidates one iteration inserts sit under the name's group. */
  lemma PlacedNew(d: Db, eventId: Id, name: string, drafts: seq<Draft>)
    requires GroupsIndexed(d)
    ensures var r := ImportOne(d, eventId, name, drafts);
      && |d.candidates| <= |r.candidates|
      && PlacedAll(r, r.candidates[|d.candidates|..]) == Tagged(name, drafts)
  {
    ImportOneSpec(d, eventId, name, drafts);
    var r := ImportOne(d, eventId, name, drafts);
    var s := Staged(d, eventId, name);
    var gid := TargetGroup(d, eventId, name);
    FindGroupNamedSpec(r.groups, eventId, name);
    assert FindGroup(r, gid).value.name == name;
    var newer := NewCandidates(s.nextId, gid, drafts);
    assert r.candidates[|d.candidates|..] == newer;
    forall i | 0 <= i < |newer| ensures PlacedAll(r, newer)[i] == Tagged(name, drafts)[i] {
      assert newer[i].groupId == gid;
    }
  }

  /** Importing rows into an event keeps the database well formed and
      touches nothing but the event's groups and candidates, which only
      grow: one new candidate per row. */
  lemma ImportAllFrame(d: Db, eventId: Id, rows: seq<CsvRow>)
    requires Wellformed(d) && FindEvent(d, eventId).Some?
    ensures var r := ImportAll(d, eventId, rows);
      && Wellformed(r)
      && r.events == d.events && r.ballots == d.ballots && r.votes == d.votes
      && |d.groups| <= |r.groups| && r.groups[..|d.groups|] == d.groups
      && |r.candidates| == |d.candidates| + |rows| && r.candidates[..|d.candidates|] == d.candidates
  {
    var pairs := Entries(rows);
    ImportBucketsGrowth(d, eventId, pairs, Keys(pairs));
    ImportBucketsPrefix(d, eventId, pairs, Keys(pairs));
    ImportBucketsPlaced(d, eventId, pairs, Keys(pairs));
    RegroupedPerm(pairs);
    var r := ImportAll(d, eventId, rows);
    assert |r.candidates[|d.candidates|..]| == |Regrouped(pairs, Keys(pairs))|;
    assert |multiset(Regrouped(pairs, Keys(pairs)))| == |multiset(pairs)|;
  }

  /** Each row becomes exactly one new candidate, with the row's name and
      description (or their defaults), under a group named by the row's
      `group` cell (or the default group) of the event itself; the old
      candidates keep their groups. */
  lemma ImportAllRows(d: Db, eventId: Id, rows: seq<CsvRow>)
    requires Wellformed(d) && FindEvent(d, eventId).Some?
    ensures var r := ImportAll(d, eventId, rows);
      && |d.candidates| <= |r.candidates|
      && multiset(PlacedAll(r, r.candidates[|d.candidates|..])) == multiset(Entries(rows))
      && PlacedAll(r, d.candidates) == PlacedAll(d, d.candidates)
      && (forall c | c in r.candidates[|d.candidates|..] ::
            FindGroup(r, c.groupId).Some? && FindGroup(r, c.groupId).value.eventId == eventId)
  {
    var pairs := Entries(rows);
    ImportBucketsPlaced(d, eventId, pairs, Keys(pairs));
    RegroupedPerm(pairs);
    ImportAllInEvent(d, eventId, rows);
  }

  /** Every candidate an import inserts sits under a group of the event. */
  lemma ImportAllInEvent(d: Db, eventId: Id, rows: seq<CsvRow>)
    requires GroupsIndexed(d)
    ensures var r := ImportAll(d, eventId, rows);
      && |d.candidates| <= |r.candidates|
      && (forall c | c in r.candidates[|d.candidates|..] ::
            FindGroup(r, c.groupId).Some? && FindGroup(r, c.groupId).value.eventId == eventId)
  {
    var pairs := Entries(rows);
    ImportBucketsInEvent(d, eventId, pairs, Keys(pairs));
    var r := ImportAll(d, eventId, rows);
    forall c | c in r.candidates[|d.candidates|..]
      ensures FindGroup(r, c.groupId).Some? && FindGroup(r, c.groupId).value.eventId == eventId
    {
      var k :| 0 <= k < |r.candidates[|d.candidates|..]| && r.candidates[|d.candidates|..][k] == c;
      assert r.candidates[|d.candidates| + k] == c;
    }
  }

  /** The candidates past the first `n` sit under groups of the event. */
  predicate NewCandidatesInEvent(r: Db, n: nat, eventId: Id) {
    && n <= |r.candidates|
    && forall i | n <= i < |r.candidates| ::
         FindGroup(r, r.candidates[i].groupId).Some? && FindGroup(r, r.candidates[i].groupId).value.eventId == eventId
  }

  /** The loop inserts candidates only under groups of the event: a group
      found by `findFirst` or made by `create`, both for `eventId`. */
  lemma {:induction false} ImportBucketsInEvent(d: Db, eventId: Id, pairs: seq<(string, Draft)>, keys: seq<string>)
    requires GroupsIndexed(d)
    ensures NewCandidatesInEvent(ImportBuckets(d, eventId, pairs, keys), |d.candidates|, eventId)
  {
    if keys != [] {
      var m := |keys| - 1;
      ImportBucketsInEvent(d, eventId, pairs, keys[..m]);
      ImportBucketsPrefix(d, eventId, pairs, keys[..m]);
      InEventStep(ImportBuckets(d, eventId, pairs, keys[..m]), |d.candidates|, eventId, keys[m], Bucket(pairs, keys[m]));
    }
  }

  /** One iteration keeps the earlier candidates' groups and puts the new
      ones under the name's group of the event. */
  lemma InEventStep(d1: Db, n: nat, eventId: Id, name: string, drafts: seq<Draft>)
    requires GroupsIndexed(d1) && NewCandidatesInEvent(d1, n, eventId)
    ensures NewCandidatesInEvent(ImportOne(d1, eventId, name, drafts), n, eventId)
  {
    ImportOneSpec(d1, eventId, name, drafts);
    ImportOneIndexed(d1, eventId, name, drafts);
    var r := ImportOne(d1, eventId, name, drafts);
    var gid := TargetGroup(d1, eventId, name);
    FindGroupNamedSpec(r.groups, eventId, name);
    assert FindGroup(r, gid).Some? && FindGroup(r, gid).value.eventId == eventId;
    forall i | n <= i < |r.candidates|
      ensures FindGroup(r, r.candidates[i].groupId).Some? && FindGroup(r, r.candidates[i].groupId).value.eventId == eventId
    {
      if i < |d1.candidates| {
        assert r.candidates[i] == d1.candidates[i];
        FindGroupGrown(d1, r, d1.candidates[i].groupId);
      } else {
        assert r.candidates[i].groupId == gid;
      }
    }
  }

  /** After an import every row's group exists in the event; a group is
      created only for a name the event had no group for, and only one
      group per name. */
  lemma ImportAllGroups(d: Db, eventId: Id, rows: seq<CsvRow>)
    requires GroupsIndexed(d)
    ensures var r := ImportAll(d, eventId, rows);
      && (forall i | 0 <= i < |rows| :: FindGroupNamed(r.groups, eventId, GroupNameOf(rows[i])).Some?)
      && |d.groups| <= |r.groups|
      && (forall i | |d.groups| <= i < |r.groups| ::
            && r.groups[i].eventId == eventId
            && (exists k | 0 <= k < |rows| :: GroupNameOf(rows[k]) == r.groups[i].name)
            && FindGroupNamed(d.groups, eventId, r.groups[i].name).None?)
      && NewGroupsDistinct(r, |d.groups|)
  {
    var pairs := Entries(rows);
    var r := ImportAll(d, eventId, rows);
    ImportBucketsFound(d, eventId, pairs, Keys(pairs));
    ImportBucketsNew(d, eventId, pairs, Keys(pairs));
    ImportBucketsPrefix(d, eventId, pairs, Keys(pairs));
    KeysSpec(pairs);
    assert r.groups[..|d.groups|] == d.groups;
    forall i | 0 <= i < |rows| ensures FindGroupNamed(r.groups, eventId, GroupNameOf(rows[i])).Some? {
      assert pairs[i].0 == GroupNameOf(rows[i]);
    }
    forall i | |d.groups| <= i < |r.groups|
      ensures exists k | 0 <= k < |rows| :: GroupNameOf(rows[k]) == r.groups[i].name
    {
      var k :| 0 <= k < |pairs| && pairs[k].0 == r.groups[i].name;
    }
  }

  /** How many of the keys have no group of the event in the table. */
  function MissingCount(groups: seq<Group>, eventId: Id, keys: seq<string>): nat {
    if keys == [] then 0
    else
      MissingCount(groups, eventId, keys[..|keys| - 1])
      + (if FindGroupNamed(groups, eventId, keys[|keys| - 1]).None? then 1 else 0)
  }

  /** The loop creates at most one group per key that had none. */
  lemma {:induction false} ImportBucketsBound(d: Db, eventId: Id, pairs: seq<(string, Draft)>, keys: seq<string>)
    requires GroupsIndexed(d)
    ensures |ImportBuckets(d, eventId, pairs, keys).groups| <= |d.groups| + MissingCount(d.groups, eventId, keys)
  {
    if keys != [] {
      var m := |keys| - 1;
      ImportBucketsBound(d, eventId, pairs, keys[..m]);
      ImportBucketsPrefix(d, eventId, pairs, keys[..m]);
      var d1 := ImportBuckets(d, eventId, pairs, keys[..m]);
      BoundStep(d, d1, eventId, keys[..m], keys[m], Bucket(pairs, keys[m]));
      assert keys[..m] + [keys[m]] == keys;
    }
  }

  /** One iteration adds a group only for a name the original table did
      not have. */
  lemma BoundStep(d: Db, d1: Db, eventId: Id, front: seq<string>, name: string, drafts: seq<Draft>)
    requires |d.groups| <= |d1.groups| && d1.groups[..|d.groups|] == d.groups
    requires |d1.groups| <= |d.groups| + MissingCount(d.groups, eventId, front)
    ensures |ImportOne(d1, eventId, name, drafts).groups| <= |d.groups| + MissingCount(d.groups, eventId, front + [name])
  {
    assert (front + [name])[..|front|] == front;
    ImportOneGroups(d1, eventId, name, drafts);
    if FindGroupNamed(d.groups, eventId, name).Some? {
      FindGroupNamedOld(d.groups, d1.groups[|d.groups|..], eventId, name);
      assert d.groups + d1.groups[|d.groups|..] == d1.groups;
    }
  }

  lemma {:induction false} MissingNone(groups: seq<Group>, eventId: Id, keys: seq<string>)
    requires forall k | k in keys :: FindGroupNamed(groups, eventId, k).Some?
    ensures MissingCount(groups, eventId, keys) == 0
  {
    if keys != [] {
      MissingNone(groups, eventId, keys[..|keys| - 1]);
    }
  }

  /** Importing the same file again creates no group, but inserts every
      row's candidate a second time: the handler does not look for
      existing candidates. */
  lemma ReimportAddsNoGroups(d: Db, eventId: Id, rows: seq<CsvRow>)
    requires Wellformed(d) && FindEvent(d, eventId).Some?
    ensures var once := ImportAll(d, eventId, rows);
      var twice := ImportAll(once, eventId, rows);
      && twice.groups == once.groups
      && |twice.candidates| == |once.candidates| + |rows|
  {
    var pairs := Entries(rows);
    ImportAllFrame(d, eventId, rows);
    var once := ImportAll(d, eventId, rows);
    ImportAllFrame(once, eventId, rows);
    ImportBucketsFound(d, eventId, pairs, Keys(pairs));
    ImportBucketsPrefix(d, eventId, pairs, Keys(pairs));
    MissingNone(once.groups, eventId, Keys(pairs));
    ImportBucketsBound(once, eventId, pairs, Keys(pairs));
    var twice := ImportAll(once, eventId, rows);
    assert twice.groups == twice.groups[..|once.groups|];
  }

  datatype ImportResponse = Unauthorized | MissingParams | EventNotFound | NoRows | Imported(count: nat)

  function Status(r: ImportResponse): (code: int)
    ensures code == 200 <==> r.Imported?
    ensures code == 404 <==> r == EventNotFound
    ensures code == 401 <==> r == Unauthorized
    ensures code == 400 <==> r == MissingParams || r == NoRows
  {
    match r
    case Unauthorized => 401
    case MissingParams => 400
    case EventNotFound => 404
    case NoRows => 400
    case Imported(_) => 200
  }

  /** The handler's answer, gate by gate in the order it checks them. A
      missing or empty `csvData` or a missing `eventId` is a missing
      parameter; a file that yields no rows is refused. */
  function ImportOutcome(d: Db, authenticated: bool, eventId: Option<Id>, csvData: Option<string>): ImportResponse {
    if !authenticated then Unauthorized
    else if eventId.None? || csvData.None? || csvData.value == "" then MissingParams
    else if FindEvent(d, eventId.value).None? then EventNotFound
    else if |ParsedRows(csvData.value)| == 0 then NoRows
    else Imported(|ParsedRows(csvData.value)|)
  }

  /** The POST handler. It answers `ImportOutcome`; on success the
      database becomes `ImportAll` of the parsed rows, and otherwise it is
      left as it was. The reported count is the sum of the `createMany`
      counts, which the proof shows to be the number of rows. */
  method ImportCandidates(db: Store, authenticated: bool, eventId: Option<Id>, csvData: Option<string>)
    returns (r: ImportResponse)
    requires db.Valid()
    modifies db
    ensures db.Valid()
    ensures r == ImportOutcome(old(db.Snapshot()), authenticated, eventId, csvData)
    ensures r.Imported? ==> db.Snapshot() == ImportAll(old(db.Snapshot()), eventId.value, ParsedRows(csvData.value))
    ensures !r.Imported? ==> db.Snapshot() == old(db.Snapshot())
  {
    if !authenticated {
      return Unauthorized;
    }
    if eventId.None? || csvData.None? || csvData.value == "" {
      return MissingParams;
    }
    var eid := eventId.value;
    var event := FindEvent(db.Snapshot(), eid);
    if event.None? {
      return EventNotFound;
    }
    var rows := ParseCSV(csvData.value);
    if |rows| == 0 {
      return NoRows;
    }
    ghost var pairs := Entries(rows);
    var order, groupMap := GroupRows(rows);
    var total := CreateGroups(db, eid, pairs, order, groupMap);
    BucketsCover(pairs);
    return Imported(total);
  }

  /** The first loop of the handler: the rows grouped by group name, the
      names in the order they first appear (a `Map` iterates in insertion
      order) and each group's candidates in file order. */
  method GroupRows(rows: seq<CsvRow>) returns (order: seq<string>, groupMap: map<string, seq<Draft>>)
    ensures order == Keys(Entries(rows))
    ensures forall k :: k in groupMap <==> k in order
    ensures forall k | k in groupMap :: groupMap[k] == Bucket(Entries(rows), k)
  {
    order := [];
    groupMap := map[];
    for i := 0 to |rows|
      invariant GroupedBy(Entries(rows[..i]), order, groupMap)
    {
      var groupName := GroupNameOf(rows[i]);
      var draft := DraftOf(rows[i]);
      EntriesSnoc(rows, i);
      GroupedPush(Entries(rows[..i]), order, groupMap, (groupName, draft));
      if groupName !in groupMap {
        groupMap := groupMap[groupName := []];
        order := order + [groupName];
      }
      groupMap := groupMap[groupName := groupMap[groupName] + [draft]];
    }
    assert rows[..|rows|] == rows;
  }

  /** The second loop of the handler: for each group name in order, find
      the event's group of that name or create it, then insert the group's
      candidates; the result is the sum of the inserted counts. */
  method CreateGroups(db: Store, eventId: Id, ghost pairs: seq<(string, Draft)>, order: seq<string>, groupMap: map<string, seq<Draft>>)
    returns (total: nat)
    requires db.Valid() && FindEvent(db.Snapshot(), eventId).Some?
    requires forall k | k in order :: k in groupMap && groupMap[k] == Bucket(pairs, k)
    modifies db
    ensures db.Valid()
    ensures db.Snapshot() == ImportBuckets(old(db.Snapshot()), eventId, pairs, order)
    ensures total == BucketTotal(pairs, order)
  {
    ghost var d0 := db.Snapshot();
    total := 0;
    for j := 0 to |order|
      invariant db.Valid() && db.events == d0.events
      invariant db.Snapshot() == ImportBuckets(d0, eventId, pairs, order[..j])
      invariant total == BucketTotal(pairs, order[..j])
    {
      ghost var d1 := db.Snapshot();
      assert GroupsIndexed(d1);
      assert order[..j + 1][..j] == order[..j];
      var name := order[j];
      var drafts := groupMap[name];
      StagedSpec(d1, eventId, name);
      var group := FindGroupNamed(db.groups, eventId, name);
      var groupId: Id;
      if group.Some? {
        groupId := group.value.id;
      } else {
        var created := db.CreateGroup(eventId, name);
        groupId := created.id;
      }
      var count := db.CreateCandidates(groupId, drafts);
      total := total + count;
    }
    assert order[..|order|] == order;
  }
}
