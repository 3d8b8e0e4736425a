/**
 * What the bot says. A `Notice` names a message by its meaning and carries the
 * values the message interpolates; `Wording` gives the exact text the handler
 * sends. The command model records notices, so two effects compare by meaning.
 */
module Replies {
  import opened Text

  /** The six acknowledgements `/task` picks from. */
  const Acknowledgements: seq<string> := ["Hmm Hmm..", "Sure..", "Okay..", "Alright..", "Got it..", "Umm..Hmm"]

  /** An index into `Acknowledgements`. */
  type AckChoice = i: nat | i < 6

  /** The password every provisioned user starts with. */
  const DefaultPassword: string := "12345678"

  /** The name `getProjectId` uses when the message has no tag. */
  const GeneralProject: string := "GENERAL"

  datatype Notice =
    | NoUserInfo
    | NoUsername
    | CheckPrivate
    | StartPrivateChat
    | Welcome(username: string)
    | Credentials(username: string, password: string)
    | ProjectCreated(name: string)
    | Acknowledged(index: AckChoice)
    | InvalidPriority(priority: string)
    | NoteSaved
    | AuthKeySaved
    | BotLive
      /** A text the handler assembles itself: the `/update` list or the help message. */
    | Said(text: string)

  /** The text the chat receives for each notice. */
  function Wording(n: Notice): string {
    match n
    case NoUserInfo => "Error: Could not retrieve user information."
    case NoUsername => "Error: You don't have a Telegram username set. Please set one in your Telegram settings."
    case CheckPrivate => "Check your private messages for your credentials!"
    case StartPrivateChat => "Error: Please start a private chat with me by sending /start, then try again."
    case Welcome(u) =>
      "Hmm.." + u + ", you look new here! I created your user profile.\nYour credentials are:\nUsername: "
      + u + "\nPassword: " + DefaultPassword + "\ngo to [Site Link](https://nextask.vercel.app) to login"
    case Credentials(u, p) =>
      "Your credentials are:\nUsername: " + u + "\nPassword: " + p
      + "\ngo to [Site Link](https://nex-sync-virid.vercel.app/) to login"
    case ProjectCreated(name) =>
      if name != GeneralProject then "hmm.. " + name + " sounds new\ncreated " + name + " project"
      else "Saved in " + name
    case Acknowledged(i) => Acknowledgements[i]
    case InvalidPriority(p) => "Invalid priority: " + p + ". Please use P1, P2, P3, UI, UX, or BUG."
    case NoteSaved => "📝 Noted"
    case AuthKeySaved => "🔑 Noted"
    case BotLive => "Nexbot is live! Use /help to see available commands."
    case Said(t) => t
  }

  /** A text contains whatever it ends with. */
  lemma ContainsEnd(pre: string, x: string)
    ensures Contains(pre + x, x)
  {
    assert (pre + x)[|pre|..|pre| + |x|] == x;
    assert OccursAt(pre + x, x, |pre|);
  }

  /** Appending to a text keeps what it contains. */
  lemma ContainsExtend(s: string, x: string, t: string)
    requires Contains(s, x)
    ensures Contains(s + t, x)
  {
    var i :| 0 <= i <= |s| && OccursAt(s, x, i);
    assert (s + t)[i..i + |x|] == s[i..i + |x|];
    assert OccursAt(s + t, x, i);
  }

  /** The private credentials message shows the username and the stored password. */
  lemma CredentialsShowLogin(u: string, p: string)
    ensures Contains(Wording(Credentials(u, p)), u)
    ensures Contains(Wording(Credentials(u, p)), p)
  {
    var a := "Your credentials are:\nUsername: ";
    var b := "\nPassword: ";
    var link := "\ngo to [Site Link](https://nex-sync-virid.vercel.app/) to login";
    ContainsEnd(a, u);
    ContainsExtend(a + u, u, b);
    ContainsExtend(a + u + b, u, p);
    ContainsExtend(a + u + b + p, u, link);
    ContainsEnd(a + u + b, p);
    ContainsExtend(a + u + b + p, p, link);
  }

  /** The welcome message of a new user shows the username and the default password. */
  lemma WelcomeShowsDefaultPassword(u: string)
    ensures Contains(Wording(Welcome(u)), u)
    ensures Contains(Wording(Welcome(u)), DefaultPassword)
  {
    var a := "Hmm..";
    var b := ", you look new here! I created your user profile.\nYour credentials are:\nUsername: ";
    var c := "\nPassword: ";
    var link := "\ngo to [Site Link](https://nextask.vercel.app) to login";
    var w := a + u + b + u + c + DefaultPassword;
    ContainsEnd(a, u);
    ContainsExtend(a + u, u, b);
    ContainsExtend(a + u + b, u, u);
    ContainsExtend(a + u + b + u, u, c);
    ContainsExtend(a + u + b + u + c, u, DefaultPassword);
    ContainsExtend(w, u, link);
    ContainsEnd(a + u + b + u + c, DefaultPassword);
    ContainsExtend(w, DefaultPassword, link);
  }

  /** A new project's notice names the project, with either wording. */
  lemma ProjectNoticeNamesProject(name: string)
    ensures Contains(Wording(ProjectCreated(name)), name)
  {
    if name != GeneralProject {
      var a := "hmm.. ";
      var b := " sounds new\ncreated ";
      ContainsEnd(a, name);
      ContainsExtend(a + name, name, b);
      ContainsExtend(a + name + b, name, name);
      ContainsExtend(a + name + b + name, name, " project");
    } else {
      ContainsEnd("Saved in ", name);
    }
  }
}
