/**
 * The two resolve-or-create helpers of the chat commands: `checkLogin`, which
 * provisions a user with a default password on first sight, and `getProjectId`,
 * which finds the project named by the message's first tag or creates it.
 */
module Resolvers {
  import opened Wrappers
  import opened Text
  import opened Store
  import opened Replies

  /** The database after `checkLogin`, what it sent, and the boolean it returns. */
  datatype Login = Login(db: Db, effects: seq<Effect>, ok: bool)

  /**
   * `checkLogin`: without a sender id it replies with an error; without a username
   * it replies with another error; otherwise it creates the user with the default
   * password when the username is unknown, sends the credentials privately and
   * reports in the chat whether that private send went through. A failed private
   * send does not undo the created user.
   */
  function CheckLogin(db: Db, m: Message): (r: Login)
    ensures r.db.tasks == db.tasks && r.db.notes == db.notes && r.db.authKeys == db.authKeys
    ensures r.db.projects == db.projects && r.db.nextProjectId == db.nextProjectId
  {
    if !HasId(m.from) then
      Login(db, [Reply(NoUserInfo)], false)
    else if HasUsername(m.from) then
      var username := m.from.username.value;
      if username in db.users then
        Login(db, [], true)
      else
        var db' := db.(users := db.users[username := User(username, DefaultPassword)]);
        var sent := PrivateSend(Welcome(username), m.privateSendOk);
        if m.privateSendOk then Login(db', [sent, Reply(CheckPrivate)], true)
        else Login(db', [sent, Reply(StartPrivateChat)], true)
    else
      Login(db, [Reply(NoUsername)], false)
  }

  /**
   * The result is true exactly when the sender has an id and a username. Each error
   * leaves the database alone and sends its one reply. A known user gets nothing
   * sent; an unknown one is stored with the default password, welcomed privately,
   * and told in the chat whether the private message went through.
   */
  lemma CheckLoginSpec(db: Db, m: Message)
    ensures var r := CheckLogin(db, m);
            && (r.ok <==> HasId(m.from) && HasUsername(m.from))
            && (!r.ok ==> r.db == db && |r.effects| == 1 && r.effects[0].Reply?)
            && (!HasId(m.from) ==> r.effects == [Reply(NoUserInfo)])
            && (HasId(m.from) && !HasUsername(m.from) ==> r.effects == [Reply(NoUsername)])
            && (r.ok ==> m.from.username.value in r.db.users)
            && (r.ok && m.from.username.value in db.users ==> r.db == db && r.effects == [])
            && (r.ok && m.from.username.value !in db.users ==>
                  && r.db == db.(users := db.users[m.from.username.value := User(m.from.username.value, DefaultPassword)])
                  && r.effects == [PrivateSend(Welcome(m.from.username.value), m.privateSendOk),
                                   Reply(if m.privateSendOk then CheckPrivate else StartPrivateChat)])
  {
  }

  /** `checkLogin` keeps the database valid and only ever adds a user. */
  lemma CheckLoginPreserves(db: Db, m: Message)
    requires Valid(db)
    ensures Valid(CheckLogin(db, m).db) && Extends(db, CheckLogin(db, m).db)
    ensures CheckLogin(db, m).db.projects == db.projects
    ensures |CheckLogin(db, m).db.users| <= |db.users| + 1
  {
    if HasId(m.from) && HasUsername(m.from) && m.from.username.value !in db.users {
      AddUserValid(db, User(m.from.username.value, DefaultPassword));
    }
  }

  /**
   * A second `checkLogin` for the same sender creates nothing and sends nothing,
   * and reports the same result.
   */
  lemma CheckLoginIdempotent(db: Db, m: Message, m': Message)
    requires m'.from == m.from
    requires HasId(m.from) && HasUsername(m.from)
    ensures var r := CheckLogin(db, m);
            CheckLogin(r.db, m') == Login(r.db, [], true)
  {
  }

  /** When the private send fails, the provisioned user stays in the database. */
  lemma FailedSendKeepsUser(db: Db, m: Message)
    requires HasId(m.from) && HasUsername(m.from) && m.from.username.value !in db.users
    requires !m.privateSendOk
    ensures var r := CheckLogin(db, m);
            && r.ok
            && r.db.users[m.from.username.value] == User(m.from.username.value, DefaultPassword)
            && Reply(StartPrivateChat) in r.effects
  {
  }

  // ---------------------------------------------------------------- projects

  /**
   * The text `getProjectId` looks at: it always strips `/task`, whatever the
   * command, then every `@\w+` mention, then trims.
   */
  function ProjectText(text: string): string {
    Trim(RemoveRuns(RemoveFirst(text, "/task"), '@'))
  }

  /** `getProjectId`'s project name: the first tag without its `#`, or `GENERAL`. */
  function ProjectNameFor(text: string): string {
    TagName(ProjectText(text))
  }

  /** The name read off the cleaned text `d`. */
  function TagName(d: string): string {
    if d == "" then GeneralProject
    else
      match FirstRun(d, '#')
      case None => GeneralProject
      case Some(tag) => RemoveFirst(tag, "#")
  }

  lemma TagNameSpec(d: string)
    ensures NoRun(d, '#') ==> TagName(d) == GeneralProject
    ensures !NoRun(d, '#') ==>
              && FirstRun(d, '#') == Some("#" + TagName(d))
              && |TagName(d)| > 0
              && (forall k :: 0 <= k < |TagName(d)| ==> IsWordChar(TagName(d)[k]))
              && exists j :: && 0 <= j < |d| && RunAt(d, '#', j)
                             && (forall k :: 0 <= k < j ==> !RunAt(d, '#', k))
                             && TagName(d) == d[j + 1..WordEnd(d, j + 1)]
  {
    if d != "" {
      match FirstRun(d, '#')
      case None =>
      case Some(tag) =>
        var name := RemoveFirst(tag, "#");
        assert name == tag[1..] by {
          assert OccursAt(tag, "#", 0);
          assert forall j: nat :: j < 0 ==> !OccursAt(tag, "#", j);
          assert tag[..0] + tag[1..] == tag[1..];
        }
        assert tag == "#" + name;
        var j :| && 0 <= j < |d| && RunAt(d, '#', j)
                 && (forall k :: 0 <= k < j ==> !RunAt(d, '#', k))
                 && tag == d[j..WordEnd(d, j + 1)];
        assert name == d[j + 1..WordEnd(d, j + 1)];
    }
  }

  /**
   * The project name is `GENERAL` when the text has no `#\w+` tag, and otherwise the
   * first tag with its `#` removed, letters kept in their case: a non-empty run of
   * word characters.
   */
  lemma ProjectNameForSpec(text: string)
    ensures var name := ProjectNameFor(text);
            && (NoRun(ProjectText(text), '#') ==> name == GeneralProject)
            && (!NoRun(ProjectText(text), '#') ==>
                  && FirstRun(ProjectText(text), '#') == Some("#" + name)
                  && |name| > 0
                  && (forall k :: 0 <= k < |name| ==> IsWordChar(name[k]))
                  && exists j :: && 0 <= j < |ProjectText(text)| && RunAt(ProjectText(text), '#', j)
                                 && (forall k :: 0 <= k < j ==> !RunAt(ProjectText(text), '#', k))
                                 && name == ProjectText(text)[j + 1..WordEnd(ProjectText(text), j + 1)])
  {
    TagNameSpec(ProjectText(text));
  }

  /** The database after `getProjectId`, the notice it sent, and the id it returns. */
  datatype Resolved = Resolved(db: Db, effects: seq<Effect>, projectId: nat)

  /**
   * `getProjectId`: returns the id of the project named by the message, creating
   * that project (with `createdBy` = username or `unknown`) and announcing it when
   * no project of that name exists.
   */
  function ResolveProject(db: Db, m: Message): (r: Resolved)
    ensures r.db.tasks == db.tasks && r.db.notes == db.notes && r.db.authKeys == db.authKeys
    ensures r.db.users == db.users
    ensures var name := ProjectNameFor(m.text);
            && name in r.db.projects
            && r.projectId == r.db.projects[name].id
            && (name in db.projects ==> r.db == db && r.effects == [])
            && (name !in db.projects ==>
                  && r.db == db.(projects := db.projects[name := Project(db.nextProjectId, name, CreatedBy(m.from))],
                                 nextProjectId := db.nextProjectId + 1)
                  && r.effects == [Reply(ProjectCreated(name))])
  {
    var name := ProjectNameFor(m.text);
    if name in db.projects then
      Resolved(db, [], db.projects[name].id)
    else
      var created := Project(db.nextProjectId, name, CreatedBy(m.from));
      Resolved(db.(projects := db.projects[name := created], nextProjectId := db.nextProjectId + 1),
               [Reply(ProjectCreated(name))], created.id)
  }

  /**
   * Resolution keeps the database valid, adds at most one project, and returns the
   * id of a stored project.
   */
  lemma ResolveProjectPreserves(db: Db, m: Message)
    requires Valid(db)
    ensures var r := ResolveProject(db, m);
            && Valid(r.db) && Extends(db, r.db)
            && r.projectId in ProjectIds(r.db)
            && |r.db.projects| <= |db.projects| + 1
            && r.db.users == db.users
  {
    var name := ProjectNameFor(m.text);
    if name !in db.projects {
      AddProjectValid(db, Project(db.nextProjectId, name, CreatedBy(m.from)));
    } else {
      assert db.projects[name].id in ProjectIds(db);
    }
  }

  /** Resolving the same message again finds the project: no write, no notice, same id. */
  lemma ResolveProjectIdempotent(db: Db, m: Message, m': Message)
    requires m'.text == m.text
    ensures var r := ResolveProject(db, m);
            ResolveProject(r.db, m') == Resolved(r.db, [], r.projectId)
  {
  }
}
