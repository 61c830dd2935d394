/** Properties of sequences of handler calls across the screens. */
module Flows {
  import opened AppState
  import opened Email
  import opened NewTask
  import opened AllTasks
  import opened Register
  import opened Login
  import opened Info

  /** A task submitted successfully shows up, last, the next time the task
      list is loaded. */
  lemma SubmitThenLoadShowsTask(st: State, id: int, now: int, io: SubmitIo)
    requires WellFormed(st.draft) && io.readOk && io.writeOk
    ensures var d := st.draft;
            var view := LoadTasks(SubmitTask(st, id, now, io), true).taskView;
            && |view| == |StoredTasks(st.store)| + 1
            && view[|view| - 1] == Task(id, d.title, d.description, d.startTime, d.endTime)
  {
  }

  /** Deleting writes back the screen's own list, not the stored one: a task
      submitted after that list was loaded, and so missing from it, is gone
      from storage after any successful delete. */
  lemma DeleteAfterSubmitDropsUnseenTask(st: State, id: int, now: int, io: SubmitIo, other: int)
    requires WellFormed(st.draft) && io.readOk && io.writeOk
    requires forall k | 0 <= k < |st.taskView| :: st.taskView[k].id != id
    ensures var added := SubmitTask(st, id, now, io).store.tasks.value;
            added[|added| - 1].id == id
    ensures var after := DeleteTask(SubmitTask(st, id, now, io), other, true).store.tasks.value;
            forall k | 0 <= k < |after| :: after[k].id != id
  {
    var s1 := SubmitTask(st, id, now, io);
    assert s1.taskView == st.taskView;
    RemoveIdCounts(st.taskView, other);
    var after := DeleteTask(s1, other, true).store.tasks.value;
    forall k | 0 <= k < |after| ensures after[k].id != id {
      assert multiset(after)[after[k]] > 0;
    }
  }

  /** Deleting an id nobody carries writes the list back unchanged. */
  lemma DeleteAbsentIdKeepsList(st: State, id: int)
    requires forall k | 0 <= k < |st.taskView| :: st.taskView[k].id != id
    ensures DeleteTask(st, id, true).taskView == st.taskView
  {
    RemoveIdUnchangedIff(st.taskView, id);
  }

  /** Deleting the same id twice ends in the same state as deleting it once. */
  lemma DeleteTwiceSameAsOnce(st: State, id: int)
    ensures DeleteTask(DeleteTask(st, id, true), id, true) == DeleteTask(st, id, true)
  {
    RemoveIdIdempotent(st.taskView, id);
  }

  /** Whatever the Register button accepts, the Login button accepts too. */
  lemma RegisterEnabledImpliesLoginEnabled(f: RegisterForm)
    requires RegisterEnabled(f)
    ensures LoginEnabled(f.email, f.password)
  {
  }

  /** Registering lands on the login screen, not the home tab; logging in with
      the same fields then reaches the home tab with the record in place. */
  lemma RegisterThenLogin(st: State, f: RegisterForm)
    requires RegisterEnabled(f)
    ensures PressRegister(st, f, true).route == LoginScreen
    ensures var r := PressLogin(PressRegister(st, f, true), f.email, f.password);
            r.route == HomeTab && r.store.user == Some(User(f.fullName, f.email, f.password))
  {
  }

  /** Login does not check the password: a stored user with a different
      password does not stop well-shaped fields from reaching the home tab. */
  lemma LoginAcceptsWrongPassword(st: State, email: string, password: string)
    requires st.store.user.Some? && st.store.user.value.password != password
    requires IsEmailValid(email) && IsPasswordValid(password)
    ensures PressLogin(st, email, password).route == HomeTab
  {
  }

  /** Logging out after registering empties the "user" slot again and keeps
      the tasks. */
  lemma RegisterThenLogout(st: State, f: RegisterForm)
    requires RegisterEnabled(f)
    ensures var r := Logout(PressRegister(st, f, true), true);
            r.store == st.store.(user := None) && r.route == LoginScreen
  {
  }
}
