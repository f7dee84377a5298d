/** The double-buffered list of controllers (controller_manager.cpp and controller_manager.hpp,
    RTControllerListWrapper): writers edit the outdated list under the lock, publish it by switching
    the index and wait for the real-time loop to leave the former one; the real-time loop takes no
    lock. Copying the updated index to the used index is one step. */
module DoubleBuffer {
  import opened Names

  type List = seq<Name>

  /** Where the writer that holds the lock is. */
  datatype Writer =
    | NoWriter
    | Locked                        // the lock is taken
    | Editing                       // get_unused_list has returned
    | Draining                      // switch_updated_list waits for the former list
    | Switched                      // switch_updated_list has returned

  /** `used` is -1 until the real-time loop has picked up a list. `published` is the history of the
      lists that were published. */
  datatype State = State(
    first: List,
    second: List,
    updated: int,
    used: int,
    writer: Writer,
    published: seq<List>)

  const Start := State([], [], 0, -1, NoWriter, [[]])

  function Other(index: int): int {
    (index + 1) % 2
  }

  function ListAt(s: State, index: int): List {
    if index == 0 then s.first else s.second
  }

  function WithList(s: State, index: int, list: List): State {
    if index == 0 then s.(first := list) else s.(second := list)
  }

  datatype Event =
    | Lock
    | GetUnusedList
    | Edit(list: List)              // one write to the unused list; it may leave the list incomplete
    | SwitchUpdatedList
    | Drain
    | Unlock
    | PickUp                        // update_and_get_used_by_rt_list

  /** Is the writer waiting, in get_unused_list or switch_updated_list, for the real-time loop? */
  predicate Waiting(s: State) {
    (s.writer == Locked || s.writer == Switched || s.writer == Draining) && s.used == Other(s.updated)
  }

  function Step(s: State, e: Event): State {
    match e
    case Lock =>
      if s.writer == NoWriter then s.(writer := Locked) else s
    case GetUnusedList =>
      if (s.writer == Locked || s.writer == Switched || s.writer == Editing) && s.used != Other(s.updated)
      then s.(writer := Editing) else s
    case Edit(list) =>
      if s.writer == Editing then WithList(s, Other(s.updated), list) else s
    case SwitchUpdatedList =>
      if s.writer == Editing
      then s.(updated := Other(s.updated), writer := Draining, published := s.published + [ListAt(s, Other(s.updated))])
      else s
    case Drain =>
      if s.writer == Draining && s.used != Other(s.updated) then s.(writer := Switched) else s
    case Unlock =>
      if s.writer == Locked || s.writer == Editing || s.writer == Switched then s.(writer := NoWriter) else s
    case PickUp =>
      s.(used := s.updated)
  }

  function Run(s: State, events: seq<Event>): State
    decreases |events|
  {
    if events == [] then s else Run(Step(s, events[0]), events[1..])
  }

  // ---------------------------------------------------------------------------------------
  // What is promised
  // ---------------------------------------------------------------------------------------

  /** The list being edited is not the one the real-time loop uses. */
  ghost predicate EditsUnused(s: State) {
    s.writer == Editing ==> s.used != Other(s.updated)
  }

  /** The list that the real-time loop uses was published as it is. */
  ghost predicate ReadsPublished(s: State) {
    s.used != -1 ==> ListAt(s, s.used) in s.published
  }

  /** The updated list is the latest published one. */
  ghost predicate LatestIsUpdated(s: State) {
    s.published != [] && ListAt(s, s.updated) == s.published[|s.published| - 1]
  }

  ghost predicate Invariant(s: State) {
    && (s.updated == 0 || s.updated == 1) && (s.used == -1 || s.used == 0 || s.used == 1)
    && EditsUnused(s) && LatestIsUpdated(s) && ReadsPublished(s)
    && (s.used == Other(s.updated) ==> s.writer == Draining)
  }

  lemma StepKeepsInvariant(s: State, e: Event)
    requires Invariant(s)
    ensures Invariant(Step(s, e))
    ensures s.published <= Step(s, e).published
  {
    var s' := Step(s, e);
    assert forall l :: l in s.published ==> l in s'.published;
  }

  lemma {:induction false} RunKeepsInvariant(s: State, events: seq<Event>)
    requires Invariant(s)
    ensures Invariant(Run(s, events))
    decreases |events|
  {
    if events != [] {
      StepKeepsInvariant(s, events[0]);
      RunKeepsInvariant(Step(s, events[0]), events[1..]);
    }
  }

  /** In every interleaving of real-time steps and locked edits: the edited list is never the used
      one, and the used list is one that was published whole. */
  lemma EveryInterleavingIsSafe(events: seq<Event>)
    ensures EditsUnused(Run(Start, events)) && ReadsPublished(Run(Start, events))
  {
    RunKeepsInvariant(Start, events);
  }

  /** A pick-up always yields the latest published list, releases every waiting writer at once, and
      no later pick-up or edit makes a released writer wait again. */
  lemma PickUpReleasesWriter(events: seq<Event>, later: seq<Event>)
    requires forall i :: 0 <= i < |later| ==> later[i] != SwitchUpdatedList
    ensures var s := Step(Run(Start, events), PickUp);
            && s.published != [] && ListAt(s, s.used) == s.published[|s.published| - 1]
            && !Waiting(Run(s, later))
  {
    RunKeepsInvariant(Start, events);
    StepKeepsInvariant(Run(Start, events), PickUp);
    StaysReleased(Step(Run(Start, events), PickUp), later);
  }

  lemma {:induction false} StaysReleased(s: State, later: seq<Event>)
    requires Invariant(s) && s.used != Other(s.updated)
    requires forall i :: 0 <= i < |later| ==> later[i] != SwitchUpdatedList
    ensures !Waiting(Run(s, later))
    decreases |later|
  {
    if later != [] {
      StepKeepsInvariant(s, later[0]);
      StaysReleased(Step(s, later[0]), later[1..]);
    }
  }

  /** What the writer does next, and where that takes it. */
  function NextEvent(w: Writer): Event {
    match w
    case NoWriter => Lock
    case Locked => GetUnusedList
    case Editing => SwitchUpdatedList
    case Draining => Drain
    case Switched => Unlock
  }

  function NextWriter(w: Writer): Writer {
    match w
    case NoWriter => Locked
    case Locked => Editing
    case Editing => Draining
    case Draining => Switched
    case Switched => NoWriter
  }

  /** After a pick-up the writer's next step goes through, whichever it is and whatever happens before it,
      up to the next publication. */
  lemma WriterGoesOn(s: State, later: seq<Event>)
    requires Invariant(s) && forall i :: 0 <= i < |later| ==> later[i] != SwitchUpdatedList
    ensures var t := Run(Step(s, PickUp), later);
            && Step(t, NextEvent(t.writer)).writer == NextWriter(t.writer)
            && (t.writer == Switched ==> Step(t, GetUnusedList).writer == Editing)
  {
    StepKeepsInvariant(s, PickUp);
    StaysReleased(Step(s, PickUp), later);
    NextGoesThrough(Run(Step(s, PickUp), later));
  }

  lemma NextGoesThrough(s: State)
    requires !Waiting(s)
    ensures Step(s, NextEvent(s.writer)).writer == NextWriter(s.writer)
    ensures s.writer == Switched ==> Step(s, GetUnusedList).writer == Editing
  {
  }

  /** Nobody writes or publishes without the lock, nor, holding it, without having been given the unused list. */
  lemma {:induction false} OnlyLockedWritersEdit(s: State, later: seq<Event>)
    requires || (s.writer == NoWriter && forall i :: 0 <= i < |later| ==> later[i] != Lock)
             || ((s.writer == NoWriter || s.writer == Locked || s.writer == Switched)
                 && forall i :: 0 <= i < |later| ==> later[i] != GetUnusedList)
    ensures var t := Run(s, later);
            t.first == s.first && t.second == s.second && t.updated == s.updated && t.published == s.published
    decreases |later|
  {
    if later != [] {
      OnlyLockedWritersEdit(Step(s, later[0]), later[1..]);
    }
  }

  /** Without a publication nothing is published, and without an edit neither list changes. */
  lemma {:induction false} ListsStay(s: State, later: seq<Event>)
    requires Invariant(s) && forall i :: 0 <= i < |later| ==> later[i] != SwitchUpdatedList
    ensures var t := Run(s, later);
            && t.updated == s.updated && t.published == s.published && ListAt(t, t.updated) == ListAt(s, s.updated)
            && ((forall i :: 0 <= i < |later| ==> !later[i].Edit?) ==> ListAt(t, Other(t.updated)) == ListAt(s, Other(s.updated)))
    decreases |later|
  {
    if later != [] {
      StepKeepsInvariant(s, later[0]);
      ListsStay(Step(s, later[0]), later[1..]);
    }
  }

  /** What was written last before a publication is what is published, and what the real-time loop uses
      from its next pick-up to the pick-up after the next publication. */
  lemma LastWrittenIsUsed(s: State, list: List, before: seq<Event>, after: seq<Event>)
    requires Invariant(s) && s.writer == Editing
    requires forall i :: 0 <= i < |before| ==> !before[i].Edit? && before[i] != SwitchUpdatedList
    requires Run(Step(s, Edit(list)), before).writer == Editing
    requires forall i :: 0 <= i < |after| ==> after[i] != SwitchUpdatedList
    ensures var written := Run(Step(s, Edit(list)), before);
            var published := Run(Step(written, SwitchUpdatedList), after);
            var used := Step(published, PickUp);
            && published.published == s.published + [list]
            && used.used != -1 && ListAt(used, used.used) == list
  {
    var edited := Step(s, Edit(list));
    var written := Run(edited, before);
    StepKeepsInvariant(s, Edit(list));
    assert edited.published == s.published && ListAt(edited, Other(edited.updated)) == list;
    RunKeepsInvariant(edited, before);
    ListsStay(edited, before);
    PublishedIsUsed(written, after);
  }

  lemma PublishedIsUsed(s: State, after: seq<Event>)
    requires Invariant(s) && s.writer == Editing
    requires forall i :: 0 <= i < |after| ==> after[i] != SwitchUpdatedList
    ensures var published := Run(Step(s, SwitchUpdatedList), after);
            var used := Step(published, PickUp);
            && published.published == s.published + [ListAt(s, Other(s.updated))]
            && used.used != -1 && ListAt(used, used.used) == ListAt(s, Other(s.updated))
  {
    var switched := Step(s, SwitchUpdatedList);
    StepKeepsInvariant(s, SwitchUpdatedList);
    assert switched.published == s.published + [ListAt(s, Other(s.updated))];
    assert ListAt(switched, switched.updated) == ListAt(s, Other(s.updated));
    ListsStay(switched, after);
    RunKeepsInvariant(switched, after);
    hide Invariant;
    hide ListAt;
    assert Run(switched, after).updated != -1;
  }

  /** Without any write since the last publication, the next one publishes the list that this one replaced. */
  lemma UnwrittenIsTheFormer(s: State, before: seq<Event>)
    requires Invariant(s) && s.writer == Editing
    requires forall i :: 0 <= i < |before| ==> !before[i].Edit? && before[i] != SwitchUpdatedList
    requires Run(Step(s, SwitchUpdatedList), before).writer == Editing
    ensures var t := Run(Step(s, SwitchUpdatedList), before);
            && s.published != []
            && t.published == s.published + [ListAt(s, Other(s.updated))]
            && Step(t, SwitchUpdatedList).published == t.published + [s.published[|s.published| - 1]]
  {
    var switched := Step(s, SwitchUpdatedList);
    StepKeepsInvariant(s, SwitchUpdatedList);
    assert ListAt(switched, Other(switched.updated)) == s.published[|s.published| - 1];
    RunKeepsInvariant(switched, before);
    ListsStay(switched, before);
    PublishedIsUsed(Run(switched, before), []);
  }

  /** While the real-time loop uses a list, nothing but its own next pick-up changes what it reads. */
  lemma UsedListIsStable(events: seq<Event>, e: Event)
    requires e != PickUp
    ensures var s := Run(Start, events);
            Step(s, e).used == s.used && (s.used != -1 ==> ListAt(Step(s, e), s.used) == ListAt(s, s.used))
  {
    RunKeepsInvariant(Start, events);
  }
}
