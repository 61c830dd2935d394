/** The registration screen: the full-name sanitiser, the enablement of the
    Register button, and the handler that persists the user record. */
module Register {
  import opened AppState
  import opened Email

  const MaxFullName := 30

  /** The message shown when the user record cannot be written. */
  const WriteErrorMessage := "Error during sending data, please try again later."

  /** The characters `[a-zA-Z ]` the full-name field keeps. */
  predicate IsNameChar(c: char) {
    ('a' <= c <= 'z') || ('A' <= c <= 'Z') || c == ' '
  }

  predicate AllNameChars(s: string) {
    forall k | 0 <= k < |s| :: IsNameChar(s[k])
  }

  /** `s.replace(/[^a-zA-Z ]/g, '')`: only letters and spaces remain. */
  function KeepNameChars(s: string): (r: string)
    ensures AllNameChars(r)
    ensures |r| <= |s|
  {
    if s == [] then []
    else if IsNameChar(s[0]) then [s[0]] + KeepNameChars(s[1..])
    else KeepNameChars(s[1..])
  }

  /** Every letter and space of the input is kept, as often as it occurs, and
      nothing else is. */
  lemma {:induction false} KeepNameCharsCounts(s: string)
    ensures forall c: char :: multiset(KeepNameChars(s))[c] == if IsNameChar(c) then multiset(s)[c] else 0
  {
    if s != [] {
      KeepNameCharsCounts(s[1..]);
      assert s == [s[0]] + s[1..];
      assert multiset(s) == multiset{s[0]} + multiset(s[1..]);
    }
  }

  /** The filter distributes over concatenation, so kept characters stay in order. */
  lemma {:induction false} KeepNameCharsConcat(a: string, b: string)
    ensures KeepNameChars(a + b) == KeepNameChars(a) + KeepNameChars(b)
    decreases |a|
  {
    if a == [] {
      assert a + b == b;
    } else {
      assert (a + b)[0] == a[0];
      assert (a + b)[1..] == a[1..] + b;
      KeepNameCharsConcat(a[1..], b);
    }
  }

  /** The filter leaves a string alone exactly when it holds only letters and spaces. */
  lemma {:induction false} KeepNameCharsIdentityIff(s: string)
    ensures KeepNameChars(s) == s <==> AllNameChars(s)
  {
    if s != [] {
      KeepNameCharsIdentityIff(s[1..]);
      assert forall k | 1 <= k < |s| :: s[k] == s[1..][k - 1];
      if !IsNameChar(s[0]) {
        assert |KeepNameChars(s)| < |s|;
      }
    }
  }

  /** `handleFullNameChange`: strip everything but letters and spaces, then keep
      the first 30 characters. The result is the longest prefix of the
      filtered input that fits. */
  function SanitizeFullName(s: string): (r: string)
    ensures AllNameChars(r)
    ensures |r| <= MaxFullName
    ensures r <= KeepNameChars(s)
    ensures |r| < MaxFullName ==> r == KeepNameChars(s)
  {
    var kept := KeepNameChars(s);
    if |kept| <= MaxFullName then kept else kept[..MaxFullName]
  }

  /** Sanitising a sanitised name changes nothing. */
  lemma SanitizeIdempotent(s: string)
    ensures SanitizeFullName(SanitizeFullName(s)) == SanitizeFullName(s)
  {
    KeepNameCharsIdentityIff(SanitizeFullName(s));
  }

  /** The sanitiser leaves a name alone exactly when it is already at most 30
      letters and spaces. */
  lemma SanitizeIdentityIff(s: string)
    ensures SanitizeFullName(s) == s <==> AllNameChars(s) && |s| <= MaxFullName
  {
    KeepNameCharsIdentityIff(s);
  }

  /** A character the filter drops vanishes from the front of any string. */
  lemma {:induction false} KeepNameCharsDropsFront(c: char, t: string)
    requires !IsNameChar(c)
    ensures KeepNameChars([c] + t) == KeepNameChars(t)
  {
    assert ([c] + t)[1..] == t;
  }

  /** Filtering comes before truncating: one stray character in front of 30
      letters costs nothing, whereas truncating first would lose the last letter. */
  lemma FilterBeforeTruncate(c: char, t: string)
    requires !IsNameChar(c) && AllNameChars(t) && |t| == MaxFullName
    ensures SanitizeFullName([c] + t) == t
    ensures KeepNameChars(([c] + t)[..MaxFullName]) == t[..MaxFullName - 1]
  {
    KeepNameCharsDropsFront(c, t);
    KeepNameCharsIdentityIff(t);
    var u := t[..MaxFullName - 1];
    assert ([c] + t)[..MaxFullName] == [c] + u;
    KeepNameCharsDropsFront(c, u);
    assert AllNameChars(u);
    KeepNameCharsIdentityIff(u);
  }

  /** Every field of the registration form. Phone number, extension and date
      of birth are collected but never stored. */
  datatype RegisterForm = RegisterForm(
    email: string,
    password: string,
    confirmPassword: string,
    fullName: string,
    phoneNumber: string,
    phoneExt: string,
    dob: Option<int>)

  /** The full-name field's change handler: the field takes the sanitised input. */
  function EditFullName(f: RegisterForm, input: string): (g: RegisterForm)
    ensures AllNameChars(g.fullName) && |g.fullName| <= MaxFullName
    ensures g.fullName <= KeepNameChars(input)
    ensures |g.fullName| < MaxFullName ==> g.fullName == KeepNameChars(input)
    ensures g == f.(fullName := g.fullName)
  {
    f.(fullName := SanitizeFullName(input))
  }

  /** The Register button is enabled when its `disabled` expression is false. */
  predicate RegisterEnabled(f: RegisterForm) {
    IsEmailValid(f.email) && IsPasswordValid(f.password) && f.confirmPassword == f.password
  }

  /** `handleRegister` and `storeData`: the record `{fullName, email, password}`
      overwrites the "user" slot, then the login screen is shown; a failed
      write shows the error message and stays where it was. */
  function HandleRegister(st: State, f: RegisterForm, writeOk: bool): (r: State)
    ensures writeOk ==> r.store.user == Some(User(f.fullName, f.email, f.password))
    ensures writeOk ==> r.route == LoginScreen && r.modal == st.modal
    ensures !writeOk ==> r.store == st.store && r.route == st.route
    ensures !writeOk ==> r.modal == Some(WriteErrorMessage)
    ensures r.store.tasks == st.store.tasks
    ensures r.draft == st.draft && r.taskView == st.taskView && r.userView == st.userView
  {
    var user := User(f.fullName, f.email, f.password);
    if writeOk then st.(store := st.store.(user := Some(user)), route := LoginScreen)
    else st.(modal := Some(WriteErrorMessage))
  }

  /** Pressing the Register button: nothing happens while it is disabled. */
  function PressRegister(st: State, f: RegisterForm, writeOk: bool): (r: State)
    ensures r != st ==> RegisterEnabled(f)
    ensures RegisterEnabled(f) && writeOk
            ==> r.store.user == Some(User(f.fullName, f.email, f.password)) && r.route == LoginScreen
    // an enabled press whose write fails only shows the error message
    ensures RegisterEnabled(f) && !writeOk ==> r == st.(modal := Some(WriteErrorMessage))
    // the tasks slot, the modal, the form and the views never change on success
    ensures writeOk ==> r == st.(store := r.store, route := r.route) && r.store.tasks == st.store.tasks
  {
    if RegisterEnabled(f) then HandleRegister(st, f, writeOk) else st
  }

  /** The phone number, extension and date of birth make no difference to
      what registering does. */
  lemma RegisterIgnoresContactFields(st: State, f: RegisterForm, g: RegisterForm, writeOk: bool)
    requires f.email == g.email && f.password == g.password && f.fullName == g.fullName
    requires f.confirmPassword == g.confirmPassword
    ensures PressRegister(st, f, writeOk) == PressRegister(st, g, writeOk)
  {
  }

  /** A user stored through the button, from a name typed into the sanitised
      field, has a clean name, a valid email and a valid password. */
  lemma StoredUserIsClean(st: State, f: RegisterForm, typed: string)
    requires RegisterEnabled(EditFullName(f, typed))
    ensures var u := PressRegister(st, EditFullName(f, typed), true).store.user.value;
            && AllNameChars(u.fullName) && |u.fullName| <= MaxFullName
            && IsEmailValid(u.email) && IsPasswordValid(u.password)
  {
  }
}
