/** The login screen: the Login button's enablement and the two navigation
    handlers. Credentials are never compared with the stored user record. */
module Login {
  import opened AppState
  import opened Email

  /** The Login button is enabled when its `disabled` expression is false. */
  predicate LoginEnabled(email: string, password: string) {
    IsEmailValid(email) && IsPasswordValid(password)
  }

  /** `handleLogin`: go to the home tab. */
  function HandleLogin(st: State): (r: State)
    ensures r.route == HomeTab
    ensures r.store == st.store && r.modal == st.modal && r.draft == st.draft
    ensures r.taskView == st.taskView && r.userView == st.userView
  {
    st.(route := HomeTab)
  }

  /** `handleRegister`: go to the registration screen, storage untouched. */
  function GoToRegister(st: State): (r: State)
    ensures r.route == RegisterScreen
    ensures r.store == st.store && r.modal == st.modal && r.draft == st.draft
    ensures r.taskView == st.taskView && r.userView == st.userView
  {
    st.(route := RegisterScreen)
  }

  /** Pressing the Login button: it reaches the home tab exactly when the email
      has the required shape and the password is at least 8 characters long,
      whoever is stored; storage is never changed. */
  function PressLogin(st: State, email: string, password: string): (r: State)
    ensures r.route == (if LoginEnabled(email, password) then HomeTab else st.route)
    ensures r == st.(route := r.route)
  {
    if LoginEnabled(email, password) then HandleLogin(st) else st
  }

  /** No credential check: whatever user record is stored, or none, pressing
      Login with well-shaped fields has the same effect. */
  lemma LoginIgnoresStoredUser(st: State, stored: Option<User>, email: string, password: string)
    ensures PressLogin(st.(store := st.store.(user := stored)), email, password).route
            == PressLogin(st, email, password).route
  {
  }
}
