/** The current-state table and the event log, and the transition that
    `update_spool` performs on them (main.py:107-136, 286-324). */
module Store {
  import opened Wrappers
  import opened Registry
  import Stages

  /** The one current-state row of a spool, keyed by its spool id. Stage and
      status are the strings the form submitted, unchecked. */
  datatype SpoolState = SpoolState(
    spoolId: int,
    stage: string,
    status: string,
    location: string,
    note: string,
    updatedAt: int,
    updatedBy: Option<int>)

  /** An audit record of one update. */
  datatype Event = Event(
    id: int,
    spoolId: int,
    userId: Option<int>,
    ts: int,
    action: string,
    stage: string,
    status: string,
    location: string,
    note: string)

  /** The three tables the tracker keeps: spools in rowid order, current
      states keyed by spool id, and events in insertion order. */
  datatype Db = Db(spools: seq<Spool>, states: map<int, SpoolState>, events: seq<Event>)

  /** The fields of the update form; location and note are optional and
      default to the empty string (main.py:287-288). */
  datatype UpdateForm = UpdateForm(stage: string, status: string, location: Option<string>, note: Option<string>)

  /** Why `update_spool` answers with an error: 422 when the form lacks a
      stage or a status, 404 when the id names no spool. */
  datatype UpdateError = Unprocessable | NotFound

  /** `stage` and `status` are required form fields (main.py:287): the web
      framework takes an empty submitted value for a missing one and refuses
      the request with 422 before the handler runs. */
  predicate Filled(form: UpdateForm)
  {
    form.stage != [] && form.status != []
  }

  const UPDATE_ACTION: string := "UPDATE"
  /** The status the home page counts as blocked. */
  const BLOCKED: string := Stages.Status.Bloqueado.Value()

  /** The events of one spool, oldest first. */
  function History(events: seq<Event>, spoolId: int): (r: seq<Event>)
    ensures |r| <= |events|
    ensures forall e :: e in r <==> e in events && e.spoolId == spoolId
  {
    if events == [] then []
    else
      assert events == [events[0]] + events[1..];
      var rest := History(events[1..], spoolId);
      if events[0].spoolId == spoolId then [events[0]] + rest else rest
  }

  /** The most recent event of one spool, if it has any. */
  function Latest(events: seq<Event>, spoolId: int): Option<Event>
  {
    if events == [] then None
    else if events[|events| - 1].spoolId == spoolId then Some(events[|events| - 1])
    else Latest(events[..|events| - 1], spoolId)
  }

  /** The latest event of a spool is its last event in the log, and there is
      none exactly when the log holds no event of that spool. */
  lemma {:induction false} LatestSpec(events: seq<Event>, spoolId: int)
    ensures Latest(events, spoolId).None? <==> forall i :: 0 <= i < |events| ==> events[i].spoolId != spoolId
    ensures Latest(events, spoolId).Some? ==>
      exists i :: 0 <= i < |events| && events[i] == Latest(events, spoolId).value && events[i].spoolId == spoolId
        && forall j :: i < j < |events| ==> events[j].spoolId != spoolId
    decreases |events|
  {
    if events != [] {
      var n := |events| - 1;
      if events[n].spoolId == spoolId {
        assert events[n] == Latest(events, spoolId).value;
      } else {
        var init := events[..n];
        LatestSpec(init, spoolId);
        assert forall i :: 0 <= i < n ==> init[i] == events[i];
        assert Latest(events, spoolId) == Latest(init, spoolId);
        if Latest(init, spoolId).Some? {
          var i :| 0 <= i < n && init[i] == Latest(init, spoolId).value && init[i].spoolId == spoolId
            && forall j :: i < j < n ==> init[j].spoolId != spoolId;
          assert events[i] == Latest(events, spoolId).value;
        }
      }
    }
  }

  /** A current state carries exactly the values its event recorded. */
  predicate Mirrors(st: SpoolState, e: Event)
  {
    && st.spoolId == e.spoolId
    && st.stage == e.stage
    && st.status == e.status
    && st.location == e.location
    && st.note == e.note
    && st.updatedAt == e.ts
    && st.updatedBy == e.userId
  }

  /** The spool has a current state exactly when it has an event, and the
      state equals its latest event. */
  predicate StateMirrorsLog(d: Db, spoolId: int)
  {
    match Latest(d.events, spoolId)
    case None => spoolId !in d.states
    case Some(e) => spoolId in d.states && Mirrors(d.states[spoolId], e)
  }

  /** The spool's current state, if it has one, is keyed by its own id and
      records no actor; `Valid` demands this of every spool. */
  predicate StateUnattributed(d: Db, spoolId: int)
  {
    spoolId in d.states ==> d.states[spoolId].spoolId == spoolId && d.states[spoolId].updatedBy.None?
  }

  /** The invariant the tables keep under every operation of the tracker. */
  ghost predicate Valid(d: Db)
  {
    && WellFormed(d.spools)
    && (forall k :: k in d.states ==> k in Ids(d.spools) && d.states[k].spoolId == k)
    && (forall i :: 0 <= i < |d.events| ==> d.events[i].id == i + 1 && d.events[i].spoolId in Ids(d.spools))
    && (forall i :: 0 <= i < |d.events| ==> d.events[i].action == UPDATE_ACTION && d.events[i].userId.None?)
    && (forall k :: k in d.states ==> d.states[k].updatedBy.None?)
    && (forall k :: StateMirrorsLog(d, k))
  }

  /** The state row `update_spool` leaves: a new one on a spool's first
      update, the old one with its fields overwritten afterwards. */
  function NewState(d: Db, spoolId: int, form: UpdateForm, now: int): SpoolState
  {
    var location := form.location.GetOr("");
    var note := form.note.GetOr("");
    if spoolId !in d.states then
      SpoolState(spoolId, form.stage, form.status, location, note, now, None)
    else
      d.states[spoolId].(stage := form.stage, status := form.status, location := location,
                         note := note, updatedAt := now)
  }

  /** The event `update_spool` appends. */
  function NewEvent(d: Db, spoolId: int, form: UpdateForm, now: int): Event
  {
    Event(|d.events| + 1, spoolId, None, now, UPDATE_ACTION, form.stage, form.status,
          form.location.GetOr(""), form.note.GetOr(""))
  }

  /** `update_spool` as one committed step: 422 for a form without a stage or
      a status, then 404 for an unknown id, otherwise the spool's state is
      written and one event is appended. */
  function Transition(d: Db, spoolId: int, form: UpdateForm, now: int): (r: Result<Db, UpdateError>)
    ensures r.Failure? <==> !Filled(form) || spoolId !in Ids(d.spools)
    ensures r == Failure(Unprocessable) <==> !Filled(form)
    ensures r.Success? ==> r.value.spools == d.spools
  {
    if !Filled(form) then Failure(Unprocessable)
    else if FindById(d.spools, spoolId).None? then Failure(NotFound)
    else
      Success(Db(d.spools, d.states[spoolId := NewState(d, spoolId, form, now)],
                 d.events + [NewEvent(d, spoolId, form, now)]))
  }

  lemma LatestAppend(events: seq<Event>, e: Event, spoolId: int)
    ensures Latest(events + [e], spoolId) == if e.spoolId == spoolId then Some(e) else Latest(events, spoolId)
  {
    assert (events + [e])[..|events|] == events;
  }

  lemma {:induction false} HistoryAppend(events: seq<Event>, e: Event, spoolId: int)
    ensures History(events + [e], spoolId) == History(events, spoolId) + (if e.spoolId == spoolId then [e] else [])
  {
    if events != [] {
      assert (events + [e])[1..] == events[1..] + [e];
      HistoryAppend(events[1..], e, spoolId);
    } else {
      assert History([e], spoolId) == (if e.spoolId == spoolId then [e] else []) + History([], spoolId);
    }
  }

  /** After a successful update the spool's state holds exactly the submitted
      values, stamped with `now`, whether it was created or overwritten; every
      other spool's state is untouched. */
  lemma TransitionWritesState(d: Db, spoolId: int, form: UpdateForm, now: int)
    requires StateUnattributed(d, spoolId)
    requires Filled(form) && spoolId in Ids(d.spools)
    ensures var d' := Transition(d, spoolId, form, now).value;
      && d'.states.Keys == d.states.Keys + {spoolId}
      && d'.states[spoolId] == SpoolState(spoolId, form.stage, form.status,
                                          form.location.GetOr(""), form.note.GetOr(""), now, None)
      && forall k :: k in d.states && k != spoolId ==> d'.states[k] == d.states[k]
  {
  }

  /** Every successful update appends exactly one event, an UPDATE carrying the
      submitted values and no user, to the end of the log; the earlier events
      stay as they were, and only this spool's history grows. */
  lemma TransitionAppendsEvent(d: Db, spoolId: int, form: UpdateForm, now: int)
    requires Filled(form) && spoolId in Ids(d.spools)
    ensures var d' := Transition(d, spoolId, form, now).value;
      && |d'.events| == |d.events| + 1
      && d'.events[..|d.events|] == d.events
      && d'.events[|d.events|] == Event(|d.events| + 1, spoolId, None, now, UPDATE_ACTION, form.stage, form.status,
                                        form.location.GetOr(""), form.note.GetOr(""))
      && History(d'.events, spoolId) == History(d.events, spoolId) + [d'.events[|d.events|]]
      && forall k :: k != spoolId ==> History(d'.events, k) == History(d.events, k)
  {
    var d' := Transition(d, spoolId, form, now).value;
    assert d'.events[..|d.events|] == d.events;
    forall k ensures History(d'.events, k) == History(d.events, k) + (if k == spoolId then [d'.events[|d.events|]] else []) {
      HistoryAppend(d.events, NewEvent(d, spoolId, form, now), k);
    }
  }

  /** After an update every spool's state still mirrors its latest event. */
  lemma TransitionKeepsMirror(d: Db, spoolId: int, form: UpdateForm, now: int)
    requires forall k :: StateMirrorsLog(d, k)
    requires StateUnattributed(d, spoolId)
    requires Transition(d, spoolId, form, now).Success?
    ensures forall k :: StateMirrorsLog(Transition(d, spoolId, form, now).value, k)
  {
    var d' := Transition(d, spoolId, form, now).value;
    var e := NewEvent(d, spoolId, form, now);
    forall k ensures StateMirrorsLog(d', k) {
      LatestAppend(d.events, e, k);
      assert StateMirrorsLog(d, k);
    }
  }

  /** After an update the log is still numbered 1, 2, ... in order and holds
      only UPDATE events, with no user, of registered spools. */
  lemma TransitionKeepsEventIds(d: Db, spoolId: int, form: UpdateForm, now: int)
    requires forall i :: 0 <= i < |d.events| ==> d.events[i].id == i + 1 && d.events[i].spoolId in Ids(d.spools)
    requires forall i :: 0 <= i < |d.events| ==> d.events[i].action == UPDATE_ACTION && d.events[i].userId.None?
    requires Transition(d, spoolId, form, now).Success?
    ensures var d' := Transition(d, spoolId, form, now).value;
      forall i :: 0 <= i < |d'.events| ==> d'.events[i].id == i + 1 && d'.events[i].spoolId in Ids(d'.spools)
    ensures var d' := Transition(d, spoolId, form, now).value;
      forall i :: 0 <= i < |d'.events| ==> d'.events[i].action == UPDATE_ACTION && d'.events[i].userId.None?
  {
    var d' := Transition(d, spoolId, form, now).value;
    forall i | 0 <= i < |d'.events|
      ensures d'.events[i].id == i + 1 && d'.events[i].spoolId in Ids(d'.spools)
      ensures d'.events[i].action == UPDATE_ACTION && d'.events[i].userId.None?
    {
      if i < |d.events| {
        assert d'.events[i] == d.events[i];
      }
    }
  }

  /** The central invariant: a successful update keeps every spool's state equal
      to its latest event, keeps at most one state per spool, and keeps the
      tables consistent. */
  lemma TransitionPreservesValid(d: Db, spoolId: int, form: UpdateForm, now: int)
    requires Valid(d)
    requires Transition(d, spoolId, form, now).Success?
    ensures Valid(Transition(d, spoolId, form, now).value)
  {
    TransitionKeepsMirror(d, spoolId, form, now);
    TransitionKeepsEventIds(d, spoolId, form, now);
  }

  /** An update of an unknown spool changes nothing: the caller gets the 404,
      or the 422 when the form is also incomplete, and no state or event is
      written. */
  lemma UnknownSpoolChangesNothing(d: Db, spoolId: int, form: UpdateForm, now: int)
    requires spoolId !in Ids(d.spools)
    ensures Transition(d, spoolId, form, now) == Failure(if Filled(form) then NotFound else Unprocessable)
  {
  }

  /** Repeating an update with the same arguments at the same time leaves the
      same current state but a second event: updates are idempotent on the
      state and never on the log. */
  lemma RepeatedUpdateSameState(d: Db, d1: Db, d2: Db, spoolId: int, form: UpdateForm, now: int)
    requires Transition(d, spoolId, form, now) == Success(d1)
    requires Transition(d1, spoolId, form, now) == Success(d2)
    ensures d2.states == d1.states
    ensures |History(d2.events, spoolId)| == |History(d.events, spoolId)| + 2
  {
    assert d1.states[spoolId] == NewState(d, spoolId, form, now);
    assert NewState(d1, spoolId, form, now) == d1.states[spoolId];
    TransitionAppendsEvent(d, spoolId, form, now);
    TransitionAppendsEvent(d1, spoolId, form, now);
  }

  /** One submitted update: the form and the time it is committed at. */
  datatype Submission = Submission(form: UpdateForm, now: int)

  /** A series of updates to one spool applied in order. */
  function ApplyAll(d: Db, spoolId: int, subs: seq<Submission>): Result<Db, UpdateError>
    decreases |subs|
  {
    if subs == [] then Success(d)
    else match Transition(d, spoolId, subs[0].form, subs[0].now)
      case Failure(err) => Failure(err)
      case Success(d1) => ApplyAll(d1, spoolId, subs[1..])
  }

  /** Complete updates to a registered spool never fail. */
  lemma {:induction false} ApplyAllSucceeds(d: Db, spoolId: int, subs: seq<Submission>)
    requires spoolId in Ids(d.spools)
    requires forall i :: 0 <= i < |subs| ==> Filled(subs[i].form)
    ensures ApplyAll(d, spoolId, subs).Success?
    ensures ApplyAll(d, spoolId, subs).value.spools == d.spools
    decreases |subs|
  {
    if subs != [] {
      ApplyAllSucceeds(Transition(d, spoolId, subs[0].form, subs[0].now).value, spoolId, subs[1..]);
    }
  }

  /** A series of updates keeps the tables consistent. */
  lemma {:induction false} ApplyAllKeepsValid(d: Db, d': Db, spoolId: int, subs: seq<Submission>)
    requires Valid(d)
    requires ApplyAll(d, spoolId, subs) == Success(d')
    ensures Valid(d')
    decreases |subs|
  {
    if subs != [] {
      var s := subs[0];
      assert Transition(d, spoolId, s.form, s.now).Success?;
      TransitionPreservesValid(d, spoolId, s.form, s.now);
      ApplyAllKeepsValid(Transition(d, spoolId, s.form, s.now).value, d', spoolId, subs[1..]);
    }
  }

  /** N updates to one spool leave N more events for it and exactly one
      state, equal to the last submission; the old log is a prefix of the new
      one, and every other spool's state and history are unchanged. */
  lemma {:induction false} ApplyAllUpdates(d: Db, d': Db, spoolId: int, subs: seq<Submission>)
    requires StateUnattributed(d, spoolId)
    requires ApplyAll(d, spoolId, subs) == Success(d')
    ensures |History(d'.events, spoolId)| == |History(d.events, spoolId)| + |subs|
    ensures d.events <= d'.events
    ensures subs != [] ==> spoolId in d'.states && d'.states[spoolId] == SpoolState(spoolId,
      subs[|subs| - 1].form.stage, subs[|subs| - 1].form.status, subs[|subs| - 1].form.location.GetOr(""),
      subs[|subs| - 1].form.note.GetOr(""), subs[|subs| - 1].now, None)
    ensures forall k :: k != spoolId ==> History(d'.events, k) == History(d.events, k)
    ensures forall k :: k != spoolId ==> (k in d'.states <==> k in d.states)
    ensures forall k :: k != spoolId && k in d.states ==> d'.states[k] == d.states[k]
    decreases |subs|
  {
    if subs != [] {
      var s := subs[0];
      assert Transition(d, spoolId, s.form, s.now).Success?;
      var d1 := Transition(d, spoolId, s.form, s.now).value;
      assert ApplyAll(d1, spoolId, subs[1..]) == Success(d');
      TransitionWritesState(d, spoolId, s.form, s.now);
      TransitionAppendsEvent(d, spoolId, s.form, s.now);
      ApplyAllUpdates(d1, d', spoolId, subs[1..]);
      if |subs| > 1 {
        assert subs[1..][|subs[1..]| - 1] == subs[|subs| - 1];
      }
    }
  }

  /** The log is ordered by time. */
  predicate TimeOrdered(events: seq<Event>)
  {
    forall i, j :: 0 <= i < j < |events| ==> events[i].ts <= events[j].ts
  }

  /** The log stays ordered by time as long as the clock handed to the update
      does not run backwards; the update itself does not check it. */
  lemma TransitionKeepsTimeOrder(d: Db, spoolId: int, form: UpdateForm, now: int)
    requires TimeOrdered(d.events)
    requires forall e :: e in d.events ==> e.ts <= now
    requires Filled(form) && spoolId in Ids(d.spools)
    ensures TimeOrdered(Transition(d, spoolId, form, now).value.events)
  {
    var d' := Transition(d, spoolId, form, now).value;
    forall i, j | 0 <= i < j < |d'.events| ensures d'.events[i].ts <= d'.events[j].ts {
      assert d'.events[i] == d.events[i] by {
        assert i < |d.events|;
      }
      if j < |d.events| {
        assert d'.events[j] == d.events[j];
      } else {
        assert d.events[i] in d.events;
      }
    }
  }

  /** The spools whose current status is BLOQUEADO. */
  function BlockedIds(states: map<int, SpoolState>): set<int>
  {
    set k | k in states && states[k].status == BLOCKED
  }

  /** The blocked count shown on the home page (main.py:187-192): the number of
      current-state rows whose status is BLOQUEADO. */
  function BlockedCount(states: map<int, SpoolState>): (n: nat)
    ensures n <= |states|
  {
    assert BlockedIds(states) <= states.Keys;
    SubsetCard(BlockedIds(states), states.Keys);
    |BlockedIds(states)|
  }

  lemma SubsetCard(a: set<int>, b: set<int>)
    requires a <= b
    ensures |a| <= |b|
  {
    assert b == a + (b - a);
  }

  /** Writing one state row changes the blocked set only at that row. */
  lemma BlockedIdsAfterWrite(states: map<int, SpoolState>, k: int, st: SpoolState)
    ensures BlockedIds(states[k := st]) == (BlockedIds(states) - {k}) + (if st.status == BLOCKED then {k} else {})
  {
  }

  /** Writing one state row moves the blocked count by the change in that
      row's status. */
  lemma BlockedCountAfterWrite(states: map<int, SpoolState>, k: int, st: SpoolState)
    ensures BlockedCount(states[k := st])
         == BlockedCount(states) - (if k in states && states[k].status == BLOCKED then 1 else 0)
                                 + (if st.status == BLOCKED then 1 else 0)
  {
    var before := BlockedIds(states);
    var rest := before - {k};
    BlockedIdsAfterWrite(states, k, st);
    if k in before {
      assert before == rest + {k};
    } else {
      assert before == rest;
    }
  }

  /** An update moves the blocked count by the change in that one spool's
      status: -1, 0 or +1. */
  lemma BlockedCountAfterTransition(d: Db, spoolId: int, form: UpdateForm, now: int)
    requires Filled(form) && spoolId in Ids(d.spools)
    ensures var d' := Transition(d, spoolId, form, now).value;
      BlockedCount(d'.states)
        == BlockedCount(d.states) - (if spoolId in d.states && d.states[spoolId].status == BLOCKED then 1 else 0)
                                  + (if form.status == BLOCKED then 1 else 0)
  {
    BlockedCountAfterWrite(d.states, spoolId, NewState(d, spoolId, form, now));
  }

  /** Adding spools to the registry, as the import does, keeps the tables
      consistent: the new spools have no state and no events. */
  lemma GrowRegistryPreservesValid(d: Db, spools': seq<Spool>)
    requires Valid(d)
    requires WellFormed(spools') && d.spools <= spools'
    ensures Valid(Db(spools', d.states, d.events))
  {
    assert Ids(d.spools) <= Ids(spools') by {
      forall k | k in Ids(d.spools) ensures k in Ids(spools') {
        var s :| s in d.spools && s.id == k;
        var i :| 0 <= i < |d.spools| && d.spools[i] == s;
        assert spools'[i] == s;
      }
    }
    var d' := Db(spools', d.states, d.events);
    forall k ensures StateMirrorsLog(d', k) {
      assert StateMirrorsLog(d, k);
    }
  }
}
