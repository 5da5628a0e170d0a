/** The selection logic of the voting page: a set of selected candidate
    ids that `toggleSelect` changes, the values derived from it for the
    counter, the candidate buttons and the submit button, and the grouping
    of the candidate list by group name. */
module VotePage {
  import opened Common
  import opened Grouping
  import opened Schema
  import opened VoteRoute

  /** A candidate as `/api/candidates` delivers it to the page. */
  datatype PageCandidate = PageCandidate(id: Id, name: string, description: Option<string>, groupName: string)

  datatype EventInfo = EventInfo(eventName: string, maxVotes: int)

  /** The selection after `toggleSelect(id)`: a selected id is removed; an
      unselected one is added at the end (a `Set` keeps insertion order)
      only when the event is loaded and there is a vote left; otherwise the
      selection stays as it was. */
  function Toggled(selected: seq<Id>, info: Option<EventInfo>, id: Id): seq<Id> {
    if id in selected then Remove(selected, id)
    else if info.Some? && |selected| < info.value.maxVotes then selected + [id]
    else selected
  }

  /** No more ids are selected than the event allows. */
  predicate WithinLimit(selected: seq<Id>, info: Option<EventInfo>) {
    selected == [] || (info.Some? && |selected| <= info.value.maxVotes)
  }

  /** As sets: toggling a selected id takes it out, toggling an unselected
      id puts it in when a vote is left, and changes nothing otherwise. */
  lemma ToggleElems(selected: seq<Id>, info: Option<EventInfo>, id: Id)
    ensures id in selected ==> Elems(Toggled(selected, info, id)) == Elems(selected) - {id}
    ensures id !in selected && info.Some? && |selected| < info.value.maxVotes ==>
      Elems(Toggled(selected, info, id)) == Elems(selected) + {id}
    ensures id !in selected && !(info.Some? && |selected| < info.value.maxVotes) ==>
      Toggled(selected, info, id) == selected
  {
    if id !in selected && info.Some? && |selected| < info.value.maxVotes {
      assert Elems(selected + [id]) == Elems(selected) + {id} by {
        forall x ensures x in selected + [id] <==> x in selected || x == id {
          assert x in selected ==> x in selected + [id] by {
            if x in selected {
              var k :| 0 <= k < |selected| && selected[k] == x;
              assert (selected + [id])[k] == x;
            }
          }
        }
      }
    }
  }

  /** Toggling keeps the ids distinct and keeps the selection within the
      event's limit; a removal shrinks the selection by one. */
  lemma ToggleKeeps(selected: seq<Id>, info: Option<EventInfo>, id: Id)
    requires Distinct(selected)
    ensures Distinct(Toggled(selected, info, id))
    ensures WithinLimit(selected, info) ==> WithinLimit(Toggled(selected, info, id), info)
    ensures id in selected ==> |Toggled(selected, info, id)| == |selected| - 1
  {
    if id in selected {
      RemoveLength(selected, id);
    } else if info.Some? && |selected| < info.value.maxVotes {
      var r := selected + [id];
      forall i, j | 0 <= i < j < |r| ensures r[i] != r[j] {
        assert r[i] == selected[i];
        if j < |selected| {
          assert r[j] == selected[j];
        }
      }
    }
  }

  /** With the event loaded and the selection within its limit, a second
      toggle of the same id undoes the first: exactly as it was when the id
      was not selected, and as the same set, with the id moved to the end,
      when it was. */
  lemma ToggleTwice(selected: seq<Id>, info: EventInfo, id: Id)
    requires Distinct(selected) && |selected| <= info.maxVotes
    ensures var twice := Toggled(Toggled(selected, Some(info), id), Some(info), id);
      && Elems(twice) == Elems(selected)
      && (id !in selected ==> twice == selected)
      && (id in selected ==> twice == Remove(selected, id) + [id])
  {
    var once := Toggled(selected, Some(info), id);
    ToggleKeeps(selected, Some(info), id);
    ToggleElems(selected, Some(info), id);
    ToggleElems(once, Some(info), id);
    if id !in selected && |selected| < info.maxVotes {
      assert id in once;
      RemoveAppended(selected, id);
    }
  }

  /** Removing an id just appended to a sequence without it gives the
      sequence back. */
  lemma {:induction false} RemoveAppended(s: seq<Id>, x: Id)
    requires x !in s
    ensures Remove(s + [x], x) == s
  {
    if s != [] {
      assert (s + [x])[0] == s[0];
      assert (s + [x])[1..] == s[1..] + [x];
      RemoveAppended(s[1..], x);
    }
  }

  /** The candidate list as (group name, candidate) pairs. */
  function GroupPairs(cs: seq<PageCandidate>): (ps: seq<(string, PageCandidate)>)
    ensures |ps| == |cs|
  {
    seq(|cs|, i requires 0 <= i < |cs| => (cs[i].groupName, cs[i]))
  }

  function InGroupNamed(name: string): PageCandidate -> bool {
    (c: PageCandidate) => c.groupName == name
  }

  /** A group's list holds the candidates with that group name, in list
      order. */
  lemma {:induction false} BucketIsFilter(cs: seq<PageCandidate>, name: string)
    ensures Bucket(GroupPairs(cs), name) == Filter(cs, InGroupNamed(name))
  {
    if cs != [] {
      var n := |cs| - 1;
      BucketIsFilter(cs[..n], name);
      assert GroupPairs(cs)[..n] == GroupPairs(cs[..n]);
      FilterAppend(cs[..n], [cs[n]], InGroupNamed(name));
      FilterCons(cs[n], [], InGroupNamed(name));
      assert cs[..n] + [cs[n]] == cs;
    }
  }

  /** Each candidate is in the list of its own group name, and walking the
      groups visits every candidate exactly once. */
  lemma GroupingSpec(cs: seq<PageCandidate>)
    ensures forall i | 0 <= i < |cs| :: cs[i] in Bucket(GroupPairs(cs), cs[i].groupName)
    ensures multiset(Regrouped(GroupPairs(cs), Keys(GroupPairs(cs)))) == multiset(GroupPairs(cs))
  {
    forall i | 0 <= i < |cs| ensures cs[i] in Bucket(GroupPairs(cs), cs[i].groupName) {
      BucketHolds(GroupPairs(cs), i);
    }
    RegroupedPerm(GroupPairs(cs));
  }

  class Page {
    var candidates: seq<PageCandidate>
    var selected: seq<Id>
    var eventInfo: Option<EventInfo>

    ghost predicate Valid()
      reads this
    {
      Distinct(selected)
    }

    /** The page before anything is loaded: no candidates, no event, an
        empty selection. */
    constructor ()
      ensures candidates == [] && selected == [] && eventInfo == None
      ensures Valid()
    {
      candidates := [];
      selected := [];
      eventInfo := None;
    }

    /** What `fetchData` stores once the event and its candidates arrive.
        The selection is kept, so a later fetch with a smaller `maxVotes`
        can leave more ids selected than the new limit allows; the
        selection stays within the limit exactly when it fits the new one. */
    method Load(info: EventInfo, cs: seq<PageCandidate>)
      modifies this
      ensures eventInfo == Some(info) && candidates == cs
      ensures selected == old(selected)
      ensures old(Valid()) ==> Valid()
      ensures WithinLimit(selected, eventInfo) <==> |old(selected)| <= info.maxVotes || old(selected) == []
    {
      eventInfo := Some(info);
      candidates := cs;
    }

    method ToggleSelect(id: Id)
      requires Valid()
      modifies this
      ensures selected == Toggled(old(selected), old(eventInfo), id)
      ensures eventInfo == old(eventInfo) && candidates == old(candidates)
      ensures Valid()
    {
      ToggleKeeps(selected, eventInfo, id);
      var next := selected;
      if id in next {
        next := Remove(next, id);
      } else if eventInfo.Some? && |next| < eventInfo.value.maxVotes {
        next := next + [id];
      }
      selected := next;
    }

    /** `eventInfo ? eventInfo.maxVotes - selectedIds.size : 0`. */
    function RemainingVotes(): int
      reads this
    {
      if eventInfo.Some? then eventInfo.value.maxVotes - |selected| else 0
    }

    /** `!isSelected && remainingVotes === 0`. */
    predicate IsDisabled(id: Id)
      reads this
    {
      id !in selected && RemainingVotes() == 0
    }

    /** The submit button is enabled unless
        `selectedIds.size !== eventInfo?.maxVotes`. */
    predicate SubmitEnabled()
      reads this
    {
      eventInfo.Some? && |selected| == eventInfo.value.maxVotes
    }

    /** `Array.from(selectedIds)`: the ids in the order they were added. */
    function SubmittedIds(): seq<Id>
      reads this
    {
      selected
    }

    /** The first loop of the page's render: the `reduce` that groups the
        candidate list by group name. */
    method GroupedCandidates() returns (order: seq<string>, groups: map<string, seq<PageCandidate>>)
      ensures order == Keys(GroupPairs(candidates))
      ensures forall k :: k in groups <==> k in order
      ensures forall k | k in groups :: groups[k] == Filter(candidates, InGroupNamed(k))
    {
      order := [];
      groups := map[];
      for i := 0 to |candidates|
        invariant GroupedBy(GroupPairs(candidates[..i]), order, groups)
      {
        var c := candidates[i];
        assert GroupPairs(candidates[..i + 1]) == GroupPairs(candidates[..i]) + [(c.groupName, c)];
        GroupedPush(GroupPairs(candidates[..i]), order, groups, (c.groupName, c));
        if c.groupName !in groups {
          groups := groups[c.groupName := []];
          order := order + [c.groupName];
        }
        groups := groups[c.groupName := groups[c.groupName] + [c]];
      }
      assert candidates[..|candidates|] == candidates;
      forall k | k in groups ensures groups[k] == Filter(candidates, InGroupNamed(k)) {
        BucketIsFilter(candidates, k);
      }
    }
  }

  /** Within the limit the counter shows the votes left, never a negative
      number unless the event itself allows a negative number of votes;
      without event info it shows zero. */
  lemma RemainingSpec(page: Page)
    requires WithinLimit(page.selected, page.eventInfo)
    ensures page.eventInfo.None? ==> page.RemainingVotes() == 0
    ensures page.eventInfo.Some? ==>
      && page.RemainingVotes() == page.eventInfo.value.maxVotes - |page.selected|
      && (page.eventInfo.value.maxVotes >= 0 ==> page.RemainingVotes() >= 0)
  {
    if page.eventInfo.Some? && page.eventInfo.value.maxVotes >= 0 && page.selected != [] {
      assert |page.selected| <= page.eventInfo.value.maxVotes;
    }
  }

  /** An unselected candidate's button is disabled exactly when a toggle
      would not select it, so a disabled button's toggle changes nothing
      and an enabled one's selects the candidate. This needs a non-negative
      `maxVotes`: the event form does not check it. */
  lemma DisabledIffNoRoom(page: Page, id: Id)
    requires WithinLimit(page.selected, page.eventInfo) && id !in page.selected
    requires page.eventInfo.Some? ==> page.eventInfo.value.maxVotes >= 0
    ensures page.IsDisabled(id) <==> Toggled(page.selected, page.eventInfo, id) == page.selected
    ensures !page.IsDisabled(id) ==> Toggled(page.selected, page.eventInfo, id) == page.selected + [id]
  {
    if page.eventInfo.Some? && page.selected != [] {
      assert |page.selected| <= page.eventInfo.value.maxVotes;
    }
    if !page.IsDisabled(id) {
      assert |page.selected + [id]| != |page.selected|;
    }
  }

  /** With a negative `maxVotes` the counter is negative and no button is
      disabled, yet no click selects anything. */
  lemma NegativeLimit(page: Page, id: Id)
    requires page.eventInfo.Some? && page.eventInfo.value.maxVotes < 0 && page.selected == []
    ensures page.RemainingVotes() < 0 && !page.IsDisabled(id)
    ensures Toggled(page.selected, page.eventInfo, id) == []
  {
  }

  /** A selected candidate's button is never disabled. */
  lemma SelectedNeverDisabled(page: Page, id: Id)
    requires id in page.selected
    ensures !page.IsDisabled(id)
  {
  }

  /** Submitting is possible exactly when the selection fills the event's
      votes; the ids sent are then distinct, `maxVotes` of them, and no
      vote is left. */
  lemma SubmitSpec(page: Page)
    requires page.Valid()
    ensures page.SubmitEnabled() <==> page.eventInfo.Some? && page.RemainingVotes() == 0
    ensures page.SubmitEnabled() ==>
      && |page.SubmittedIds()| == page.eventInfo.value.maxVotes
      && Distinct(page.SubmittedIds())
      && Elems(page.SubmittedIds()) == Elems(page.selected)
  {
  }

  /** What the page submits when enabled passes the vote route's count and
      duplicate checks when the page's `maxVotes` is the event's; with a
      valid role, an open event and candidates of that event, the route
      accepts the ballot as sent. */
  lemma SubmissionAccepted(page: Page, d: Db, eventId: Id, role: string)
    requires Wellformed(d) && page.Valid() && page.SubmitEnabled()
    requires FindEvent(d, eventId).Some? && FindEvent(d, eventId).value.maxVotes == page.eventInfo.value.maxVotes
    requires FindEvent(d, eventId).value.isActive && ValidRole(role)
    requires AllOwned(d, eventId, page.SubmittedIds())
    ensures Validate(d, VoteRequest(Some(eventId), Some(role), Some(page.SubmittedIds())))
         == Accepted(eventId, role, page.SubmittedIds())
  {
    ValidateAcceptsIff(d, VoteRequest(Some(eventId), Some(role), Some(page.SubmittedIds())));
  }
}
