/**
 * The persistent rows the chat commands read and write, the incoming chat
 * message, and the chat side effects. The database is two keyed maps (users by
 * username, projects by name — both unique columns) plus append-only sequences of
 * tasks, notes and auth keys.
 */
module Store {
  import opened Wrappers
  import Text
  import Replies

  /** The `TaskPriority` enumeration. */
  datatype Priority = P1 | P2 | P3 | UI | UX | BUG

  function PriorityName(p: Priority): string {
    match p
    case P1 => "P1"
    case P2 => "P2"
    case P3 => "P3"
    case UI => "UI"
    case UX => "UX"
    case BUG => "BUG"
  }

  /**
   * `TaskPriority[name]` on the names `createTask` can pass: the member of that name,
   * or `undefined` (`None`) for a string that names no member and no inherited
   * `Object.prototype` property. The extraction only ever passes one of the six
   * names or `P3`, so the inherited properties (`constructor`, `toString`, ...),
   * which are defined on the object, are not modelled.
   */
  function PriorityFromName(name: string): (r: Option<Priority>)
    ensures r.Some? <==> name in Text.PriorityNames
    ensures r.Some? ==> PriorityName(r.value) == name
  {
    if name == "P1" then Some(P1)
    else if name == "P2" then Some(P2)
    else if name == "P3" then Some(P3)
    else if name == "UI" then Some(UI)
    else if name == "UX" then Some(UX)
    else if name == "BUG" then Some(BUG)
    else None
  }

  /** Every member's name looks itself up again. */
  lemma PriorityNameRoundTrip(p: Priority)
    ensures PriorityFromName(PriorityName(p)) == Some(p)
  {
  }

  datatype User = User(username: string, password: string)

  datatype Project = Project(id: nat, name: string, createdBy: string)

  datatype Task = Task(description: string, createdBy: string, priority: Priority,
                       projectId: nat, completed: bool)

  datatype Note = Note(content: string, createdBy: string, projectId: nat)

  datatype AuthKey = AuthKey(content: string, createdBy: string, projectId: nat)

  datatype Db = Db(users: map<string, User>,
                   projects: map<string, Project>,
                   nextProjectId: nat,
                   tasks: seq<Task>,
                   notes: seq<Note>,
                   authKeys: seq<AuthKey>)

  /** The ids of all stored projects. */
  function ProjectIds(db: Db): set<nat> {
    set n | n in db.projects :: db.projects[n].id
  }

  /**
   * What the unique columns and foreign keys guarantee: users and projects are
   * keyed by their own username/name, project ids are distinct and below the id
   * counter, and every task, note and auth key points at a stored project.
   */
  predicate Valid(db: Db) {
    && (forall u :: u in db.users ==> db.users[u].username == u)
    && (forall n :: n in db.projects ==> db.projects[n].name == n && db.projects[n].id < db.nextProjectId)
    && (forall a, b :: a in db.projects && b in db.projects && a != b ==> db.projects[a].id != db.projects[b].id)
    && (forall i :: 0 <= i < |db.tasks| ==> db.tasks[i].projectId in ProjectIds(db))
    && (forall i :: 0 <= i < |db.notes| ==> db.notes[i].projectId in ProjectIds(db))
    && (forall i :: 0 <= i < |db.authKeys| ==> db.authKeys[i].projectId in ProjectIds(db))
  }

  const EmptyDb: Db := Db(map[], map[], 0, [], [], [])

  lemma EmptyDbValid()
    ensures Valid(EmptyDb)
  {
  }

  /**
   * `db2` keeps every user and project of `db1` unchanged and every row of the
   * append-only tables as a prefix: nothing this core does deletes or edits a row.
   */
  predicate Extends(db1: Db, db2: Db) {
    && (forall u :: u in db1.users ==> u in db2.users && db2.users[u] == db1.users[u])
    && (forall n :: n in db1.projects ==> n in db2.projects && db2.projects[n] == db1.projects[n])
    && db1.nextProjectId <= db2.nextProjectId
    && db1.tasks <= db2.tasks && db1.notes <= db2.notes && db1.authKeys <= db2.authKeys
  }

  lemma ExtendsTransitive(db1: Db, db2: Db, db3: Db)
    requires Extends(db1, db2) && Extends(db2, db3)
    ensures Extends(db1, db3)
  {
  }

  /** Adding an unknown user under its own name keeps the database valid and only adds. */
  lemma AddUserValid(db: Db, u: User)
    requires Valid(db) && u.username !in db.users
    ensures var db' := db.(users := db.users[u.username := u]);
            Valid(db') && Extends(db, db') && |db'.users| == |db.users| + 1
  {
    assert ProjectIds(db.(users := db.users[u.username := u])) == ProjectIds(db);
  }

  /**
   * Adding an unknown project under its own name with the next id keeps the
   * database valid and only adds; the new id is a stored project's id.
   */
  lemma AddProjectValid(db: Db, p: Project)
    requires Valid(db) && p.name !in db.projects && p.id == db.nextProjectId
    ensures var db' := db.(projects := db.projects[p.name := p], nextProjectId := db.nextProjectId + 1);
            && Valid(db') && Extends(db, db') && p.id in ProjectIds(db')
            && |db'.projects| == |db.projects| + 1
  {
    var db' := db.(projects := db.projects[p.name := p], nextProjectId := db.nextProjectId + 1);
    assert ProjectIds(db) <= ProjectIds(db') by {
      forall id | id in ProjectIds(db)
        ensures id in ProjectIds(db')
      {
        var n :| n in db.projects && db.projects[n].id == id;
        assert n in db'.projects && db'.projects[n].id == id;
      }
    }
    assert p.name in db'.projects;
  }

  /** Appending a task that points at a stored project keeps the database valid. */
  lemma AppendTaskValid(db: Db, t: Task)
    requires Valid(db) && t.projectId in ProjectIds(db)
    ensures Valid(db.(tasks := db.tasks + [t])) && Extends(db, db.(tasks := db.tasks + [t]))
  {
    assert ProjectIds(db.(tasks := db.tasks + [t])) == ProjectIds(db);
  }

  /** Appending a note that points at a stored project keeps the database valid. */
  lemma AppendNoteValid(db: Db, n: Note)
    requires Valid(db) && n.projectId in ProjectIds(db)
    ensures Valid(db.(notes := db.notes + [n])) && Extends(db, db.(notes := db.notes + [n]))
  {
    assert ProjectIds(db.(notes := db.notes + [n])) == ProjectIds(db);
  }

  /** Appending an auth key that points at a stored project keeps the database valid. */
  lemma AppendAuthKeyValid(db: Db, k: AuthKey)
    requires Valid(db) && k.projectId in ProjectIds(db)
    ensures Valid(db.(authKeys := db.authKeys + [k])) && Extends(db, db.(authKeys := db.authKeys + [k]))
  {
    assert ProjectIds(db.(authKeys := db.authKeys + [k])) == ProjectIds(db);
  }

  /** The `ctx.from` fields the commands read; either may be missing. */
  datatype Sender = Sender(username: Option<string>, id: Option<int>)

  /**
   * An incoming command message. `privateSendOk` decides whether the chat platform
   * accepts a private message to the sender during this command, and `rand` is the
   * value `Math.random()` returns.
   */
  datatype Message = Message(text: string, from: Sender, privateSendOk: bool, rand: real)

  /** `if (!userId)` fails for a missing id and for `0`. */
  predicate HasId(s: Sender) {
    s.id.Some? && s.id.value != 0
  }

  /** `if (username)` fails for a missing and for an empty username. */
  predicate HasUsername(s: Sender) {
    s.username.Some? && s.username.value != ""
  }

  /** `username || "unknown"`. */
  function CreatedBy(s: Sender): (r: string)
    ensures HasUsername(s) ==> r == s.username.value
    ensures !HasUsername(s) ==> r == "unknown"
    ensures r != ""
  {
    if HasUsername(s) then s.username.value else "unknown"
  }

  /**
   * A chat side effect: a reply in the originating chat, or a private message with
   * its delivery result. `Replies.Wording` gives the text of each.
   */
  datatype Effect = Reply(notice: Replies.Notice) | PrivateSend(notice: Replies.Notice, delivered: bool)
}
