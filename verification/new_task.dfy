/** The new-task screen: validation of the form, then a read-append-write of
    the whole stored task list. */
module NewTask {
  import opened Text
  import opened AppState

  const MaxTitle := 100
  const MaxDescription := 300

  /** The reasons a draft is refused, one per check in the handler, in order.
      `EndBeforeStartAgain` belongs to the handler's second, identical
      end-before-start check. */
  datatype Rejection = TitleLength | DescriptionTooLong | EndBeforeStart | EndBeforeStartAgain

  datatype Verdict = Accepted | Rejected(reason: Rejection)

  /** The text the handler puts in its modal for each rejection. */
  function Message(r: Rejection): string {
    match r
    case TitleLength => "Task title must be between 1 and 100 characters."
    case DescriptionTooLong => "Task description must not exceed 300 characters."
    case EndBeforeStart => "End date can\"t be before the start date!"
    case EndBeforeStartAgain => "End date can\"t be before start date!."
  }

  /** Each rejection has its own message, so the modal tells which check
      failed; the two end-before-start messages differ in their wording. */
  lemma MessagesDistinct(a: Rejection, b: Rejection)
    requires a != b
    ensures Message(a) != Message(b)
  {
  }

  /** The title check: non-blank once trimmed, at most 100 characters counted
      on the untrimmed title. */
  predicate TitleOk(title: string) {
    !Blank(title) && |title| <= MaxTitle
  }

  /** A draft every check accepts: the invariants a stored task is meant to keep. */
  predicate WellFormed(d: Draft) {
    TitleOk(d.title) && |d.description| <= MaxDescription && d.startTime <= d.endTime
  }

  /** The validation chain of the submit handler: the checks run in order and
      the first failing one decides the message. */
  function Validate(d: Draft): (v: Verdict)
    ensures v == Accepted <==> WellFormed(d)
    ensures !TitleOk(d.title) ==> v == Rejected(TitleLength)
    ensures v == Rejected(DescriptionTooLong) <==> TitleOk(d.title) && |d.description| > MaxDescription
    ensures v == Rejected(EndBeforeStart)
            <==> TitleOk(d.title) && |d.description| <= MaxDescription && d.endTime < d.startTime
    ensures v != Rejected(EndBeforeStartAgain)
  {
    TrimEmptyIffBlank(d.title);
    if Trim(d.title) == [] || |d.title| > MaxTitle then Rejected(TitleLength)
    else if |d.description| > MaxDescription then Rejected(DescriptionTooLong)
    else if d.endTime < d.startTime then Rejected(EndBeforeStart)
    else if d.endTime < d.startTime then Rejected(EndBeforeStartAgain)
    else Accepted
  }

  /** The outcomes of the three storage calls the handler makes: the read of
      the existing list, the write of the new list, and the read-back it only
      logs. `false` means the call threw. */
  datatype SubmitIo = SubmitIo(readOk: bool, writeOk: bool, rereadOk: bool)

  /** The submit handler. `id` is the clock reading taken for the task id and
      `now` the one the reset form takes for its times. A rejected draft shows
      its message; an accepted one is appended to the stored list, and once the
      read-back succeeds the form is reset and the task list is shown. A
      throwing storage call ends the handler where it stands. */
  function SubmitTask(st: State, id: int, now: int, io: SubmitIo): (r: State)
    // a rejection shows its message and touches nothing else
    ensures Validate(st.draft).Rejected? ==>
              r == st.(modal := Some(Message(Validate(st.draft).reason)))
    // the store changes only when the draft is accepted and both the read and the write succeed
    ensures !(WellFormed(st.draft) && io.readOk && io.writeOk) ==> r.store == st.store
    // on success exactly one task is appended, carrying the draft's fields and the clock reading
    ensures WellFormed(st.draft) && io.readOk && io.writeOk ==>
              var before := StoredTasks(st.store);
              && r.store.user == st.store.user
              && r.store.tasks.Some?
              && |r.store.tasks.value| == |before| + 1
              && r.store.tasks.value[..|before|] == before
              && r.store.tasks.value[|before|]
                 == Task(id, st.draft.title, st.draft.description, st.draft.startTime, st.draft.endTime)
    // navigation and the form reset happen only after the read-back
    ensures r.route == (if WellFormed(st.draft) && io.readOk && io.writeOk && io.rereadOk
                        then TasksTab else st.route)
    ensures r.draft == (if WellFormed(st.draft) && io.readOk && io.writeOk && io.rereadOk
                        then EmptyDraft(now) else st.draft)
    ensures r.taskView == st.taskView && r.userView == st.userView
    // an accepted draft never opens the modal
    ensures WellFormed(st.draft) ==> r == st.(store := r.store, route := r.route, draft := r.draft)
  {
    var d := st.draft;
    match Validate(d)
    case Rejected(why) => st.(modal := Some(Message(why)))
    case Accepted =>
      var task := Task(id, d.title, d.description, d.startTime, d.endTime);
      if !io.readOk then st
      else
        var updated := StoredTasks(st.store) + [task];
        if !io.writeOk then st
        else
          var written := st.(store := st.store.(tasks := Some(updated)));
          if !io.rereadOk then written
          else written.(draft := EmptyDraft(now), route := TasksTab)
  }

  /** A clock reading that no stored task carries keeps the stored ids unique. */
  lemma SubmitKeepsIdsUnique(st: State, id: int, now: int, io: SubmitIo)
    requires UniqueIds(StoredTasks(st.store))
    requires forall k | 0 <= k < |StoredTasks(st.store)| :: StoredTasks(st.store)[k].id != id
    ensures UniqueIds(StoredTasks(SubmitTask(st, id, now, io).store))
  {
    var before := StoredTasks(st.store);
    var after := StoredTasks(SubmitTask(st, id, now, io).store);
    if after != before {
      forall i, j | 0 <= i < j < |after| ensures after[i].id != after[j].id {
        assert after[i] == before[i];
        if j < |before| {
          assert after[j] == before[j];
        }
      }
    }
  }

  /** The start-time picker's change handler: a picked time replaces the
      start time, a dismissed picker (no time) keeps it. Nothing else changes. */
  function PickStartTime(st: State, picked: Option<int>): (r: State)
    ensures r.draft.startTime == (if picked.Some? then picked.value else st.draft.startTime)
    ensures r == st.(draft := r.draft)
    ensures r.draft.endTime == st.draft.endTime && r.draft.title == st.draft.title
    ensures r.draft.description == st.draft.description
  {
    st.(draft := st.draft.(startTime := picked.GetOr(st.draft.startTime)))
  }

  /** The end-time picker's change handler, symmetric to `PickStartTime`. */
  function PickEndTime(st: State, picked: Option<int>): (r: State)
    ensures r.draft.endTime == (if picked.Some? then picked.value else st.draft.endTime)
    ensures r == st.(draft := r.draft)
    ensures r.draft.startTime == st.draft.startTime && r.draft.title == st.draft.title
    ensures r.draft.description == st.draft.description
  {
    st.(draft := st.draft.(endTime := picked.GetOr(st.draft.endTime)))
  }

  /** Title boundary: a non-blank title of exactly 100 characters passes the
      title check, whatever the other fields hold. */
  lemma TitleOfMaxLengthPasses(d: Draft)
    requires |d.title| == MaxTitle && !Blank(d.title)
    ensures Validate(d) != Rejected(TitleLength)
  {
  }

  /** Title boundary: 101 characters are refused with the title message even
      when they are not blank. */
  lemma TitleOverMaxLengthRejected(d: Draft)
    requires |d.title| == MaxTitle + 1
    ensures Validate(d) == Rejected(TitleLength)
  {
  }

  /** A blank or whitespace-only title is refused with the title message,
      whatever the other fields hold. */
  lemma BlankTitleRejected(d: Draft)
    requires Blank(d.title)
    ensures Validate(d) == Rejected(TitleLength)
  {
  }

  /** Description boundary: with a passing title, 300 characters pass the
      description check and 301 do not. */
  lemma DescriptionBoundary(d: Draft)
    requires TitleOk(d.title)
    ensures |d.description| == MaxDescription ==> Validate(d) != Rejected(DescriptionTooLong)
    ensures |d.description| == MaxDescription + 1 ==> Validate(d) == Rejected(DescriptionTooLong)
  {
  }

  /** Equal start and end times are accepted when the texts pass. */
  lemma EqualTimesAccepted(d: Draft)
    requires TitleOk(d.title) && |d.description| <= MaxDescription
    requires d.startTime == d.endTime
    ensures Validate(d) == Accepted
  {
  }
}
