/** The state the five screens share: the two persisted AsyncStorage slots
    ("tasks" and "user"), the current navigation route, and the in-memory
    copies the screens keep of what they last read. Serialisation to JSON is
    taken as a faithful round trip, so a slot holds the decoded value. */
module AppState {

  datatype Option<+T> = None | Some(value: T) {
    /** The held value, or `default` when absent. */
    function GetOr(default: T): T {
      match this
      case Some(v) => v
      case None => default
    }
  }

  /** A stored task: `id` is the millisecond clock reading taken at creation,
      the two times are milliseconds since the epoch. */
  datatype Task = Task(id: int, title: string, description: string, startTime: int, endTime: int)

  /** The record the registration screen persists under "user". */
  datatype User = User(fullName: string, email: string, password: string)

  /** Navigation destinations: the names the handlers pass to `navigate`
      ("Login", "Register", "Home", "tasks"), plus the two remaining tab names
      of the bottom-tab navigator ("new_task", "settings"). `navigate(name)` is
      taken to reach the screen of that name; the stack navigator in
      src/App.tsx registers only "Login" and mounts no tab navigator. */
  datatype Route = LoginScreen | RegisterScreen | HomeTab | TasksTab | NewTaskTab | SettingsTab

  /** The fields of the new-task form. */
  datatype Draft = Draft(title: string, description: string, startTime: int, endTime: int)

  /** The key/value store, restricted to its two keys; `None` is an absent key. */
  datatype Store = Store(tasks: Option<seq<Task>>, user: Option<User>)

  /** One snapshot of the application.
      - `modal`: the message of the currently shown modal, if any;
      - `draft`: the new-task form;
      - `taskView`: the task list the task-list screen renders;
      - `userView`: the user record the profile screen renders. */
  datatype State = State(
    store: Store,
    route: Route,
    modal: Option<string>,
    draft: Draft,
    taskView: seq<Task>,
    userView: Option<User>)

  /** The new-task form as freshly mounted or reset: empty texts, both times
      set to the current clock reading. */
  function EmptyDraft(now: int): Draft {
    Draft("", "", now, now)
  }

  /** The state right after launch on top of whatever was persisted earlier:
      the login screen, no modal, nothing read yet. */
  function Launch(persisted: Store, now: int): State {
    State(persisted, LoginScreen, None, EmptyDraft(now), [], None)
  }

  /** No two tasks share an id. The app does not enforce it: ids are clock
      readings, so it holds as long as readings are distinct. */
  predicate UniqueIds(ts: seq<Task>) {
    forall i, j | 0 <= i < j < |ts| :: ts[i].id != ts[j].id
  }

  /** The task list a reader sees in the store; an absent key reads as empty. */
  function StoredTasks(s: Store): seq<Task> {
    s.tasks.GetOr([])
  }
}
