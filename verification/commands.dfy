/**
 * The chat commands of the bot: `/start`, `/help`, `/task`, `/update`, `/note`,
 * `/auth` and `/login`. Each is a pure function from the database and the incoming
 * message to the new database and the chat side effects, in the order the handler
 * performs them.
 */
module Commands {
  import opened Wrappers
  import opened Text
  import opened Store
  import opened Resolvers
  import opened Replies
  import Updates

  /** The database after a command and everything it sent. */
  datatype Outcome = Outcome(db: Db, effects: seq<Effect>)

  /**
   * `ctx.message.text.replace(keyword, "").replace(/@\w+/g, "").trim()`: the text
   * with the first occurrence of the command keyword and every `@mention` removed,
   * every other character kept in order, then trimmed.
   */
  function CommandBody(text: string, keyword: string): (body: string)
    ensures NoRun(body, '@')
    ensures body == Trim(KeepOutside(RemoveFirst(text, keyword), RunSpans(RemoveFirst(text, keyword), '@'), 0))
  {
    RemoveRunsKeepsRest(RemoveFirst(text, keyword), '@');
    var stripped := RemoveRuns(RemoveFirst(text, keyword), '@');
    RemoveRunsLeavesNoRun(RemoveFirst(text, keyword), '@');
    NoRunTrim(stripped, '@');
    Trim(stripped)
  }

  /** The body neither starts nor ends with whitespace. */
  lemma CommandBodyTrimmed(text: string, keyword: string)
    ensures var body := CommandBody(text, keyword);
            |body| == 0 || (!IsSpace(body[0]) && !IsSpace(body[|body| - 1]))
  {
    TrimEnds(RemoveRuns(RemoveFirst(text, keyword), '@'));
  }

  // ---------------------------------------------------------------- /task

  /** `Math.floor(Math.random() * replys.length)` for `Math.random()` returning `rand`. */
  function AckIndex(rand: real): (k: AckChoice)
    requires 0.0 <= rand < 1.0
    ensures k as real <= rand * |Acknowledgements| as real < k as real + 1.0
  {
    (rand * (|Acknowledgements| as real)).Floor
  }

  /** Every acknowledgement can be picked: index `k` is chosen for `rand = k / 6`. */
  lemma AckIndexReachesEvery(k: AckChoice)
    ensures AckIndex(k as real / |Acknowledgements| as real) == k
  {
    var rand := k as real / |Acknowledgements| as real;
    assert rand * |Acknowledgements| as real == k as real;
  }

  /**
   * The priority name `/task` extracts from its body: the first standalone
   * `P1`/`P2`/`P3`/`UI`/`UX`/`BUG`, or `P3` when there is none (or the body is empty).
   */
  function TaskPriorityName(body: string): (p: string)
    ensures p in PriorityNames
    ensures FirstPriority(body).Some? ==> p == FirstPriority(body).value
    ensures FirstPriority(body).None? ==> p == "P3"
    ensures (forall j :: 0 <= j <= |body| ==> !PriorityAt(body, j)) ==> p == "P3"
    ensures (exists j :: 0 <= j <= |body| && PriorityAt(body, j)) ==>
              exists j :: && 0 <= j <= |body| && PriorityAt(body, j)
                          && (forall k :: 0 <= k < j ==> !PriorityAt(body, k))
                          && TokenAt(body, j) == Some(p)
  {
    if body != "" then FirstPriority(body).GetOr("P3") else "P3"
  }

  /**
   * The stored task description: the body with every `#\w+` tag and every
   * standalone priority token removed, the rest kept in order, then trimmed. No
   * tag and no standalone priority token survives.
   */
  function TaskDescription(body: string): (d: string)
    ensures NoRun(d, '#')
    ensures forall j :: 0 <= j <= |d| ==> !PriorityAt(d, j)
    ensures d == Trim(KeepOutside(body, TagAndTokenSpans(body), 0))
  {
    CleanKeepsRest(body);
    CleanLeavesNoTag(body);
    NoRunTrim(RemoveTagsAndPriorities(body), '#');
    CleanLeavesNoToken(body);
    TrimNoToken(RemoveTagsAndPriorities(body));
    Trim(RemoveTagsAndPriorities(body))
  }

  /**
   * What `createTask` does once the body is extracted: runs `checkLogin` (and
   * ignores its result), then, when the body is non-empty, resolves the project,
   * appends the task and acknowledges it. The "Invalid priority" branch of the
   * handler is kept but cannot be taken.
   */
  function SaveTask(db: Db, m: Message, body: string): (r: Outcome)
    requires 0.0 <= m.rand < 1.0
    ensures body == "" ==> r == Outcome(CheckLogin(db, m).db, CheckLogin(db, m).effects)
    ensures body == "" ==> r.db.tasks == db.tasks
    ensures body != "" ==> |r.db.tasks| == |db.tasks| + 1
    ensures db.tasks <= r.db.tasks
    ensures r.db.notes == db.notes && r.db.authKeys == db.authKeys
  {
    var priority := TaskPriorityName(body);
    var login := CheckLogin(db, m);
    match PriorityFromName(priority)
    case None =>
      Outcome(login.db, login.effects + [Reply(InvalidPriority(priority))])
    case Some(p) =>
      if body != "" then
        var resolved := ResolveProject(login.db, m);
        var task := Task(TaskDescription(body), CreatedBy(m.from), p, resolved.projectId, false);
        Outcome(resolved.db.(tasks := resolved.db.tasks + [task]),
                login.effects + resolved.effects + [Reply(Acknowledged(AckIndex(m.rand)))])
      else
        Outcome(login.db, login.effects)
  }

  /** `createTask`: the body is the text without `/task` and mentions, trimmed. */
  function CreateTask(db: Db, m: Message): Outcome
    requires 0.0 <= m.rand < 1.0
  {
    SaveTask(db, m, CommandBody(m.text, "/task"))
  }

  /**
   * The task `/task` appends carries the cleaned description, the extracted
   * priority (default `P3`), `createdBy` = username or `unknown`, the id of the
   * project the first tag names, and `completed = false`; the last effect is one of
   * the six acknowledgements.
   */
  lemma SaveTaskStores(db: Db, m: Message, body: string)
    requires 0.0 <= m.rand < 1.0
    requires body != ""
    ensures var r := SaveTask(db, m, body);
            var t := r.db.tasks[|r.db.tasks| - 1];
            && t.description == TaskDescription(body)
            && PriorityName(t.priority) == TaskPriorityName(body)
            && t.createdBy == CreatedBy(m.from)
            && !t.completed
            && ProjectNameFor(m.text) in r.db.projects
            && t.projectId == r.db.projects[ProjectNameFor(m.text)].id
            && |r.effects| > 0 && r.effects[|r.effects| - 1] == Reply(Acknowledged(AckIndex(m.rand)))
    ensures var resolved := ResolveProject(CheckLogin(db, m).db, m);
            var r := SaveTask(db, m, body);
            r.db == resolved.db.(tasks := resolved.db.tasks + [r.db.tasks[|r.db.tasks| - 1]])
  {
  }

  /**
   * The extracted priority is always one of the six enumeration names, so the
   * handler's "Invalid priority" rejection is never sent: the effects of `/task` are
   * those of `checkLogin`, then (for a non-empty body) the project notice and the
   * acknowledgement.
   */
  lemma InvalidPriorityUnreachable(db: Db, m: Message, body: string)
    requires 0.0 <= m.rand < 1.0
    ensures PriorityFromName(TaskPriorityName(body)).Some?
    ensures var login := CheckLogin(db, m);
            var r := SaveTask(db, m, body);
            && (body == "" ==> r.effects == login.effects)
            && (body != "" ==>
                  r.effects == login.effects + ResolveProject(login.db, m).effects
                               + [Reply(Acknowledged(AckIndex(m.rand)))])
  {
  }

  /**
   * `checkLogin` followed by `getProjectId` keeps the database valid, only adds,
   * and yields the id of a stored project.
   */
  lemma LoginThenResolvePreserves(db: Db, m: Message)
    requires Valid(db)
    ensures var resolved := ResolveProject(CheckLogin(db, m).db, m);
            && Valid(resolved.db) && Extends(db, resolved.db)
            && resolved.projectId in ProjectIds(resolved.db)
  {
    CheckLoginPreserves(db, m);
    var login := CheckLogin(db, m);
    ResolveProjectPreserves(login.db, m);
    ExtendsTransitive(db, login.db, ResolveProject(login.db, m).db);
  }


  /** `/task` keeps the database valid and only adds rows. */
  lemma SaveTaskPreserves(db: Db, m: Message, body: string)
    requires 0.0 <= m.rand < 1.0 && Valid(db)
    ensures Valid(SaveTask(db, m, body).db) && Extends(db, SaveTask(db, m, body).db)
  {
    var login := CheckLogin(db, m);
    if body != "" {
      LoginThenResolvePreserves(db, m);
      var resolved := ResolveProject(login.db, m);
      var p := PriorityFromName(TaskPriorityName(body)).value;
      var t := Task(TaskDescription(body), CreatedBy(m.from), p, resolved.projectId, false);
      var db' := resolved.db.(tasks := resolved.db.tasks + [t]);
      assert SaveTask(db, m, body).db == db';
      AppendTaskValid(resolved.db, t);
      ExtendsTransitive(db, resolved.db, db');
    } else {
      CheckLoginPreserves(db, m);
    }
  }


  /**
   * A body that is just one tag still creates a task, with an empty description:
   * the emptiness check runs before the tags are removed.
   */
  lemma TagOnlyTaskHasEmptyDescription(db: Db, m: Message, w: string)
    requires 0.0 <= m.rand < 1.0
    requires |w| > 0 && forall k :: 0 <= k < |w| ==> IsWordChar(w[k])
    ensures var r := SaveTask(db, m, "#" + w);
            |r.db.tasks| == |db.tasks| + 1 && r.db.tasks[|db.tasks|].description == ""
  {
    var body := "#" + w;
    assert RunAt(body, '#', 0);
    assert WordEnd(body, 1) == |body| by {
      WordEndAllWord(body, 1);
    }
    assert RemoveTagsAndPrioritiesFrom(body, |body|) == [];
    SaveTaskStores(db, m, body);
  }

  lemma {:induction false} WordEndAllWord(s: string, j: nat)
    requires j <= |s| && forall k :: j <= k < |s| ==> IsWordChar(s[k])
    ensures WordEnd(s, j) == |s|
    decreases |s| - j
  {
    if j < |s| {
      WordEndAllWord(s, j + 1);
    }
  }

  /**
   * The result of `checkLogin` is ignored: a sender without a username gets the
   * error reply and the task is stored anyway, created by `unknown`.
   */
  lemma TaskIgnoresLogin(db: Db, m: Message, body: string)
    requires 0.0 <= m.rand < 1.0
    requires HasId(m.from) && !HasUsername(m.from)
    requires body != ""
    ensures var r := SaveTask(db, m, body);
            && !CheckLogin(db, m).ok
            && r.effects[0] == Reply(NoUsername)
            && |r.db.tasks| == |db.tasks| + 1
            && r.db.tasks[|db.tasks|].createdBy == "unknown"
  {
    SaveTaskStores(db, m, body);
  }

  // ---------------------------------------------------------------- /note and /auth

  /** The stored note content: the body with every `#\w+` tag removed, the rest kept in order, then trimmed. */
  function NoteContent(body: string): (c: string)
    ensures NoRun(c, '#')
    ensures c == Trim(KeepOutside(body, RunSpans(body, '#'), 0))
  {
    RemoveRunsKeepsRest(body, '#');
    RemoveRunsLeavesNoRun(body, '#');
    NoRunTrim(RemoveRuns(body, '#'), '#');
    Trim(RemoveRuns(body, '#'))
  }

  /**
   * What `createNote` does once the body is extracted: like `/task` without a
   * priority, with the fixed reply `📝 Noted`.
   */
  function SaveNote(db: Db, m: Message, body: string): (r: Outcome)
    ensures body == "" ==> r == Outcome(CheckLogin(db, m).db, CheckLogin(db, m).effects)
    ensures body == "" ==> r.db.notes == db.notes
    ensures body != "" ==> |r.db.notes| == |db.notes| + 1
    ensures db.notes <= r.db.notes
    ensures r.db.tasks == db.tasks && r.db.authKeys == db.authKeys
  {
    var login := CheckLogin(db, m);
    if body != "" then
      var resolved := ResolveProject(login.db, m);
      var note := Note(NoteContent(body), CreatedBy(m.from), resolved.projectId);
      Outcome(resolved.db.(notes := resolved.db.notes + [note]),
              login.effects + resolved.effects + [Reply(NoteSaved)])
    else
      Outcome(login.db, login.effects)
  }

  /** `createNote`: the body is the text without `/note` and mentions, trimmed. */
  function CreateNote(db: Db, m: Message): Outcome {
    SaveNote(db, m, CommandBody(m.text, "/note"))
  }

  /**
   * The note `/note` appends carries the tag-free trimmed body, `createdBy` =
   * username or `unknown` and the id of the project the first tag names; the
   * last effect is the `📝 Noted` reply.
   */
  lemma SaveNoteStores(db: Db, m: Message, body: string)
    requires body != ""
    ensures var r := SaveNote(db, m, body);
            var n := r.db.notes[|r.db.notes| - 1];
            && n.content == NoteContent(body)
            && n.createdBy == CreatedBy(m.from)
            && ProjectNameFor(m.text) in r.db.projects
            && n.projectId == r.db.projects[ProjectNameFor(m.text)].id
            && |r.effects| > 0 && r.effects[|r.effects| - 1] == Reply(NoteSaved)
    ensures var login := CheckLogin(db, m);
            var resolved := ResolveProject(login.db, m);
            var r := SaveNote(db, m, body);
            && r.db == resolved.db.(notes := resolved.db.notes + [r.db.notes[|r.db.notes| - 1]])
            && r.effects == login.effects + resolved.effects + [Reply(NoteSaved)]
  {
  }

  /** `/note` keeps the database valid and only adds rows. */
  lemma SaveNotePreserves(db: Db, m: Message, body: string)
    requires Valid(db)
    ensures Valid(SaveNote(db, m, body).db) && Extends(db, SaveNote(db, m, body).db)
  {
    var login := CheckLogin(db, m);
    if body != "" {
      LoginThenResolvePreserves(db, m);
      var resolved := ResolveProject(login.db, m);
      var n := Note(NoteContent(body), CreatedBy(m.from), resolved.projectId);
      var db' := resolved.db.(notes := resolved.db.notes + [n]);
      assert SaveNote(db, m, body).db == db';
      AppendNoteValid(resolved.db, n);
      ExtendsTransitive(db, resolved.db, db');
    } else {
      CheckLoginPreserves(db, m);
    }
  }


  /** A note keeps priority tokens: a body without tags is stored as it is. */
  lemma NoteKeepsPriorityTokens(body: string)
    requires NoRun(body, '#')
    requires body == Trim(body)
    ensures NoteContent(body) == body
  {
    RemoveRunsIdempotent(body, '#');
  }

  /**
   * What `createAuthKey` does once the body is extracted: stores the body itself,
   * tags and priority tokens included, and replies `🔑 Noted`.
   */
  function SaveAuthKey(db: Db, m: Message, body: string): (r: Outcome)
    ensures body == "" ==> r == Outcome(CheckLogin(db, m).db, CheckLogin(db, m).effects)
    ensures body == "" ==> r.db.authKeys == db.authKeys
    ensures body != "" ==> |r.db.authKeys| == |db.authKeys| + 1
    ensures db.authKeys <= r.db.authKeys
    ensures r.db.tasks == db.tasks && r.db.notes == db.notes
  {
    var login := CheckLogin(db, m);
    if body != "" then
      var resolved := ResolveProject(login.db, m);
      var key := AuthKey(body, CreatedBy(m.from), resolved.projectId);
      Outcome(resolved.db.(authKeys := resolved.db.authKeys + [key]),
              login.effects + resolved.effects + [Reply(AuthKeySaved)])
    else
      Outcome(login.db, login.effects)
  }

  /** `createAuthKey`: the body is the text without `/auth` and mentions, trimmed. */
  function CreateAuthKey(db: Db, m: Message): Outcome {
    SaveAuthKey(db, m, CommandBody(m.text, "/auth"))
  }

  /**
   * The key `/auth` appends carries the body unchanged (tags and priority tokens
   * kept), `createdBy` = username or `unknown` and the id of the project the first
   * tag names; the last effect is the `🔑 Noted` reply.
   */
  lemma SaveAuthKeyStores(db: Db, m: Message, body: string)
    requires body != ""
    ensures var r := SaveAuthKey(db, m, body);
            var k := r.db.authKeys[|r.db.authKeys| - 1];
            && k.content == body
            && k.createdBy == CreatedBy(m.from)
            && ProjectNameFor(m.text) in r.db.projects
            && k.projectId == r.db.projects[ProjectNameFor(m.text)].id
            && |r.effects| > 0 && r.effects[|r.effects| - 1] == Reply(AuthKeySaved)
    ensures var login := CheckLogin(db, m);
            var resolved := ResolveProject(login.db, m);
            var r := SaveAuthKey(db, m, body);
            && r.db == resolved.db.(authKeys := resolved.db.authKeys + [r.db.authKeys[|r.db.authKeys| - 1]])
            && r.effects == login.effects + resolved.effects + [Reply(AuthKeySaved)]
  {
  }

  /** `/auth` keeps the database valid and only adds rows. */
  lemma SaveAuthKeyPreserves(db: Db, m: Message, body: string)
    requires Valid(db)
    ensures Valid(SaveAuthKey(db, m, body).db) && Extends(db, SaveAuthKey(db, m, body).db)
  {
    var login := CheckLogin(db, m);
    if body != "" {
      LoginThenResolvePreserves(db, m);
      var resolved := ResolveProject(login.db, m);
      var k := AuthKey(body, CreatedBy(m.from), resolved.projectId);
      var db' := resolved.db.(authKeys := resolved.db.authKeys + [k]);
      assert SaveAuthKey(db, m, body).db == db';
      AppendAuthKeyValid(resolved.db, k);
      ExtendsTransitive(db, resolved.db, db');
    } else {
      CheckLoginPreserves(db, m);
    }
  }

  /**
   * Auth-key content loses every `@\w+` run, e-mail addresses included: `a@b.com`
   * is stored as `a.com`.
   */
  lemma AuthKeyDropsMentionRuns()
    ensures RemoveRuns("a@b.com", '@') == "a.com"
  {
    var s := "a@b.com";
    assert RunAt(s, '@', 1);
    assert WordEnd(s, 2) == 3 by {
      assert !IsWordChar(s[3]);
      assert WordEnd(s, 3) == 3;
    }
    assert RemoveRunsFrom(s, '@', 7) == "";
    assert RemoveRunsFrom(s, '@', 6) == "m";
    assert RemoveRunsFrom(s, '@', 5) == "om";
    assert RemoveRunsFrom(s, '@', 4) == "com";
    assert RemoveRunsFrom(s, '@', 3) == ".com";
    assert RemoveRunsFrom(s, '@', 1) == ".com";
  }

  // ---------------------------------------------------------------- /update

  /**
   * `getUpdates`: `checkLogin` first, then the grouped reply over today's completed
   * tasks, which the caller passes in already filtered and ordered. When the grouping
   * throws on an inherited key, the handler fails after `checkLogin` and sends nothing more.
   */
  function GetUpdates(db: Db, m: Message, rows: seq<Updates.Row>): (r: Outcome)
    ensures r.db == CheckLogin(db, m).db
    ensures Updates.UpdatesReply(rows).Some? ==>
              |r.effects| > 0 && r.effects[|r.effects| - 1] == Reply(Said(Updates.UpdatesReply(rows).value))
    ensures |rows| == 0 ==> r.effects[|r.effects| - 1] == Reply(Said(Updates.NoUpdatesReply))
    ensures Updates.ReduceThrows(rows) ==> r.effects == CheckLogin(db, m).effects
    ensures Updates.UpdatesReply(rows).Some? ==>
              r.effects == CheckLogin(db, m).effects + [Reply(Said(Updates.UpdatesReply(rows).value))]
  {
    var login := CheckLogin(db, m);
    match Updates.UpdatesReply(rows)
    case None => Outcome(login.db, login.effects)
    case Some(text) => Outcome(login.db, login.effects + [Reply(Said(text))])
  }

  // ---------------------------------------------------------------- /login

  /**
   * `getLogin`: without a sender id only the error reply; otherwise `checkLogin`,
   * and when that succeeds the stored credentials are sent privately and the chat is
   * told whether the private send went through.
   */
  function GetLogin(db: Db, m: Message): (r: Outcome)
    ensures r.db == CheckLogin(db, m).db
  {
    if !HasId(m.from) then
      Outcome(db, [Reply(NoUserInfo)])
    else
      var login := CheckLogin(db, m);
      if login.ok then
        var u := m.from.username.value;
        if u in login.db.users then
          var user := login.db.users[u];
          Outcome(login.db, login.effects + [PrivateSend(Credentials(user.username, user.password), m.privateSendOk),
                                             Reply(if m.privateSendOk then CheckPrivate else StartPrivateChat)])
        else
          Outcome(login.db, login.effects)
      else
        Outcome(login.db, login.effects)
  }

  /**
   * Without a sender id only the error is sent. Otherwise `checkLogin` runs; a sender
   * without a username gets only its error, and one with a username ends with the
   * stored credentials sent privately and the chat notice about that send.
   */
  lemma GetLoginSpec(db: Db, m: Message)
    ensures var r := GetLogin(db, m);
            && (!HasId(m.from) ==> r == Outcome(db, [Reply(NoUserInfo)]))
            && (HasId(m.from) && !HasUsername(m.from) ==> r.effects == [Reply(NoUsername)])
            && (HasId(m.from) && HasUsername(m.from) ==>
                  var u := m.from.username.value;
                  && u in r.db.users
                  && |r.effects| >= 2
                  && r.effects[|r.effects| - 2] == PrivateSend(Credentials(r.db.users[u].username, r.db.users[u].password), m.privateSendOk)
                  && r.effects[|r.effects| - 1] ==
                       Reply(if m.privateSendOk then CheckPrivate else StartPrivateChat)
                  && r.effects == CheckLogin(db, m).effects
                                  + [PrivateSend(Credentials(r.db.users[u].username, r.db.users[u].password), m.privateSendOk),
                                     Reply(if m.privateSendOk then CheckPrivate else StartPrivateChat)])
  {
    CheckLoginSpec(db, m);
  }

  /**
   * `/login` from a new user provisions the default password and sends two private
   * messages (welcome, then credentials); from a known user it sends exactly one,
   * carrying the stored password.
   */
  lemma GetLoginPrivateSends(db: Db, m: Message)
    requires HasId(m.from) && HasUsername(m.from)
    ensures var u := m.from.username.value;
            var r := GetLogin(db, m);
            && (u !in db.users ==>
                  && |r.effects| == 4 && r.effects[0].PrivateSend? && r.effects[2].PrivateSend?
                  && r.db.users[u].password == DefaultPassword)
            && (u in db.users ==>
                  && r.db == db
                  && r.effects == [PrivateSend(Credentials(db.users[u].username, db.users[u].password), m.privateSendOk),
                                   Reply(if m.privateSendOk then CheckPrivate else StartPrivateChat)])
  {
    if m.from.username.value in db.users {
      GetLoginKnownUser(db, m);
    } else {
      GetLoginNewUser(db, m);
    }
  }

  lemma GetLoginNewUser(db: Db, m: Message)
    requires HasId(m.from) && HasUsername(m.from) && m.from.username.value !in db.users
    ensures var r := GetLogin(db, m);
            && |r.effects| == 4 && r.effects[0].PrivateSend? && r.effects[2].PrivateSend?
            && r.db.users[m.from.username.value].password == DefaultPassword
  {
    CheckLoginSpec(db, m);
  }

  lemma GetLoginKnownUser(db: Db, m: Message)
    requires HasId(m.from) && HasUsername(m.from) && m.from.username.value in db.users
    ensures var r := GetLogin(db, m);
            && r.db == db
            && r.effects == [PrivateSend(Credentials(db.users[m.from.username.value].username, db.users[m.from.username.value].password), m.privateSendOk),
                             Reply(if m.privateSendOk then CheckPrivate else StartPrivateChat)]
  {
    CheckLoginSpec(db, m);
  }

  // ---------------------------------------------------------------- /start and /help

  datatype HelpEntry = HelpEntry(command: string, description: string)

  const HelpEntries: seq<HelpEntry> := [
    HelpEntry("/start", "🚀 Check the bot's status to ensure it's up and running."),
    HelpEntry("/help", "ℹ️ Display this help message with a list of all available commands."),
    HelpEntry("/task",
      "📝 Create a new task.\n"
      + "Format: `/create #projectxyz P1 Task description`\n"
      + "• `#projectxyz`: Optional project tag (e.g., #tgaf).\n"
      + "• `P1`, `P2`, `P3`, `UI`, `UX`, `BUG`: Optional priority (use uppercase for priority).\n"
      + "Example: `/create #tgaf P1 Fix login button`"),
    HelpEntry("/update", "✅ View all tasks completed today."),
    HelpEntry("/note",
      "📋 Add a note to a project.\n"
      + "Format: `/note #projectxyz Note content`\n"
      + "• `#projectxyz`: Optional project tag.\n"
      + "Example: `/note #tgaf Discuss UI improvements`"),
    HelpEntry("/auth",
      "🔑 authorization key for a project.\n"
      + "Format: `/auth #projectxyz Key description`\n"
      + "• `#projectxyz`: Optional project tag.\n"
      + "Example: `/auth #tgaf API access for frontend\n`"
      + "What to send?: `email, password, api key, backup key, etc`"),
    HelpEntry("/login",
      "🔐 Retrieve your login credentials.\n"
      + "Note: Start a private chat with the bot using `/start` to receive credentials securely via private message.\n"
      + "Click on the link message me: [Private Message](https://t.me/nexusinfotec_bot?start)")
  ]

  function EntryLine(e: HelpEntry): string {
    e.command + " " + e.description
  }

  /** `commands.map(cmd => `${cmd.command} ${cmd.description}`).join("\n\n")`. */
  function JoinEntries(es: seq<HelpEntry>): string {
    if |es| == 0 then ""
    else if |es| == 1 then EntryLine(es[0])
    else JoinEntries(es[..|es| - 1]) + "\n\n" + EntryLine(es[|es| - 1])
  }

  /** Every entry's line appears in the joined text. */
  lemma {:induction false} JoinEntriesContainsEach(es: seq<HelpEntry>)
    ensures forall i :: 0 <= i < |es| ==> Contains(JoinEntries(es), EntryLine(es[i]))
  {
    if |es| == 1 {
      assert OccursAt(JoinEntries(es), EntryLine(es[0]), 0);
    } else if |es| > 1 {
      var init := es[..|es| - 1];
      JoinEntriesContainsEach(init);
      var j := JoinEntries(init);
      var all := JoinEntries(es);
      assert all == j + "\n\n" + EntryLine(es[|es| - 1]);
      forall i | 0 <= i < |es|
        ensures Contains(all, EntryLine(es[i]))
      {
        var line := EntryLine(es[i]);
        if i < |init| {
          assert es[i] == init[i];
          var p :| 0 <= p <= |j| && OccursAt(j, line, p);
          assert all[p..p + |line|] == j[p..p + |line|];
          assert OccursAt(all, line, p);
        } else {
          var p := |j| + 2;
          assert all[p..p + |line|] == line;
          assert OccursAt(all, line, p);
        }
      }
    }
  }

  function HelpMessage(): string {
    "📖 **Available Commands**\n\n" + JoinEntries(HelpEntries)
  }

  /** Text in front of a joined list does not hide any of its lines. */
  lemma {:induction false} PrefixedContainsEach(header: string, es: seq<HelpEntry>)
    ensures forall i :: 0 <= i < |es| ==> Contains(header + JoinEntries(es), EntryLine(es[i]))
  {
    JoinEntriesContainsEach(es);
    var j := JoinEntries(es);
    forall i | 0 <= i < |es|
      ensures Contains(header + j, EntryLine(es[i]))
    {
      var line := EntryLine(es[i]);
      var p :| 0 <= p <= |j| && OccursAt(j, line, p);
      assert (header + j)[|header| + p..|header| + p + |line|] == j[p..p + |line|];
      assert OccursAt(header + j, line, |header| + p);
    }
  }

  /** The commands `useCommands` registers, in registration order. */
  const RegisteredCommands: seq<string> := ["/start", "/help", "/task", "/update", "/note", "/auth", "/login"]

  /** The help text lists every registered command, in order, each with its description. */
  lemma HelpListsEveryCommand()
    ensures |HelpEntries| == |RegisteredCommands|
    ensures forall i :: 0 <= i < |HelpEntries| ==>
              && HelpEntries[i].command == RegisteredCommands[i]
              && Contains(HelpMessage(), EntryLine(HelpEntries[i]))
  {
    PrefixedContainsEach("📖 **Available Commands**\n\n", HelpEntries);
  }

  // ---------------------------------------------------------------- dispatch

  /** The commands the bot registers; `/update` carries today's completed tasks. */
  datatype Command = Start | Help | NewTask | Update(rows: seq<Updates.Row>) | NewNote | NewAuthKey | LoginCmd

  /** `useCommands`: each command to its handler. `/start` and `/help` only reply. */
  function Handle(db: Db, cmd: Command, m: Message): (r: Outcome)
    requires 0.0 <= m.rand < 1.0
    ensures cmd.Start? ==> r == Outcome(db, [Reply(BotLive)])
    ensures cmd.Help? ==> r == Outcome(db, [Reply(Said(HelpMessage()))])
  {
    match cmd
    case Start => Outcome(db, [Reply(BotLive)])
    case Help => Outcome(db, [Reply(Said(HelpMessage()))])
    case NewTask => CreateTask(db, m)
    case Update(rows) => GetUpdates(db, m, rows)
    case NewNote => CreateNote(db, m)
    case NewAuthKey => CreateAuthKey(db, m)
    case LoginCmd => GetLogin(db, m)
  }

  /**
   * Every command keeps the database valid (unique names, live foreign keys) and
   * never deletes or edits an existing row.
   */
  lemma HandlePreserves(db: Db, cmd: Command, m: Message)
    requires 0.0 <= m.rand < 1.0 && Valid(db)
    ensures Valid(Handle(db, cmd, m).db) && Extends(db, Handle(db, cmd, m).db)
  {
    match cmd
    case Start =>
    case Help =>
    case NewTask => SaveTaskPreserves(db, m, CommandBody(m.text, "/task"));
    case Update(rows) => CheckLoginPreserves(db, m);
    case NewNote => SaveNotePreserves(db, m, CommandBody(m.text, "/note"));
    case NewAuthKey => SaveAuthKeyPreserves(db, m, CommandBody(m.text, "/auth"));
    case LoginCmd => CheckLoginPreserves(db, m);
  }

  /**
   * Running any sequence of commands from a valid database leaves it valid and
   * never loses a row.
   */
  lemma {:induction false} HandleAllPreserves(db: Db, cmds: seq<Command>, ms: seq<Message>)
    requires |cmds| == |ms| && Valid(db)
    requires forall i :: 0 <= i < |ms| ==> 0.0 <= ms[i].rand < 1.0
    ensures Valid(RunAll(db, cmds, ms)) && Extends(db, RunAll(db, cmds, ms))
    decreases |cmds|
  {
    if |cmds| > 0 {
      HandlePreserves(db, cmds[0], ms[0]);
      var db1 := Handle(db, cmds[0], ms[0]).db;
      HandleAllPreserves(db1, cmds[1..], ms[1..]);
      ExtendsTransitive(db, db1, RunAll(db1, cmds[1..], ms[1..]));
    }
  }

  /** The database after handling `cmds[i]` with message `ms[i]`, in order. */
  function RunAll(db: Db, cmds: seq<Command>, ms: seq<Message>): Db
    requires |cmds| == |ms|
    requires forall i :: 0 <= i < |ms| ==> 0.0 <= ms[i].rand < 1.0
    decreases |cmds|
  {
    if |cmds| == 0 then db else RunAll(Handle(db, cmds[0], ms[0]).db, cmds[1..], ms[1..])
  }
}
