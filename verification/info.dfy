/** The profile screen: it reads the stored user once, and logs out by
    removing the "user" slot. */
module Info {
  import opened AppState

  /** `fetchUserDataFromAsyncStorage`: a stored record becomes the view's user;
      an absent slot or a failed read leaves the view as it was. */
  function FetchUser(st: State, readOk: bool): (r: State)
    ensures readOk && st.store.user.Some? ==> r.userView == st.store.user
    ensures !(readOk && st.store.user.Some?) ==> r == st
    ensures r == st.(userView := r.userView)
  {
    if readOk && st.store.user.Some? then st.(userView := st.store.user) else st
  }

  /** `handleLogout`: once the slot is removed, the view forgets the user and
      the login screen is shown; a failed removal changes nothing. */
  function Logout(st: State, removeOk: bool): (r: State)
    ensures removeOk ==> r.store.user == None && r.userView == None && r.route == LoginScreen
    ensures removeOk ==> r.store.tasks == st.store.tasks && r.taskView == st.taskView
    ensures !removeOk ==> r == st
    ensures r == st.(store := r.store, userView := r.userView, route := r.route)
  {
    if removeOk then st.(store := st.store.(user := None), userView := None, route := LoginScreen)
    else st
  }

  /** Logging out twice leaves the store as logging out once. */
  lemma LogoutIdempotentOnStore(st: State)
    ensures Logout(Logout(st, true), true).store == Logout(st, true).store
  {
  }

  /** After a logout no fetch brings a user back into the view. */
  lemma FetchAfterLogoutFindsNobody(st: State, readOk: bool)
    ensures FetchUser(Logout(st, true), readOk).userView == None
  {
  }
}
