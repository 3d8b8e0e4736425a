/**
 * The `loginInput` schema: a username of at least 3 and a password of at least
 * 8 characters, where a character is a UTF-16 code unit, as JavaScript strings
 * count them.
 */
module LoginSchema {
  import Replies

  const MinUsername: nat := 3
  const MinPassword: nat := 8

  /** The length JavaScript reports: characters outside the Basic Multilingual Plane take two code units. */
  function Utf16Length(s: string): nat {
    if |s| == 0 then 0
    else Utf16Length(s[..|s| - 1]) + (if s[|s| - 1] as int > 0xFFFF then 2 else 1)
  }

  /** Every character takes one or two code units. */
  lemma {:induction false} Utf16LengthBounds(s: string)
    ensures |s| <= Utf16Length(s) <= 2 * |s|
    ensures (forall k :: 0 <= k < |s| ==> s[k] as int <= 0xFFFF) ==> Utf16Length(s) == |s|
  {
    if |s| > 0 {
      Utf16LengthBounds(s[..|s| - 1]);
    }
  }

  /** The field a validation issue is about. */
  datatype Field = Username | Password

  /** A `too_small` issue: the field and the minimum it missed. */
  datatype Issue = TooSmall(field: Field, minimum: nat)

  datatype Validation = Accepted | Rejected(issues: seq<Issue>)

  /**
   * `loginInput.safeParse({ username, password })`: every failed rule is reported,
   * the username's first.
   */
  function ValidateLogin(username: string, password: string): (r: Validation)
    ensures r.Accepted? <==> Utf16Length(username) >= MinUsername && Utf16Length(password) >= MinPassword
    ensures r.Rejected? ==>
              && |r.issues| > 0
              && (TooSmall(Username, MinUsername) in r.issues <==> Utf16Length(username) < MinUsername)
              && (TooSmall(Password, MinPassword) in r.issues <==> Utf16Length(password) < MinPassword)
              && forall k :: 0 <= k < |r.issues| ==> r.issues[k] in [TooSmall(Username, MinUsername), TooSmall(Password, MinPassword)]
    ensures r.Rejected? ==>
              || r.issues == [TooSmall(Username, MinUsername)]
              || r.issues == [TooSmall(Password, MinPassword)]
              || r.issues == [TooSmall(Username, MinUsername), TooSmall(Password, MinPassword)]
  {
    var issues := (if Utf16Length(username) < MinUsername then [TooSmall(Username, MinUsername)] else [])
                  + (if Utf16Length(password) < MinPassword then [TooSmall(Password, MinPassword)] else []);
    if |issues| == 0 then Accepted else Rejected(issues)
  }

  /**
   * The password the chat bot provisions for a new user passes the password rule
   * exactly: it is 8 code units long, so any username of 3 or more is accepted with it.
   */
  lemma DefaultPasswordAccepted(username: string)
    requires Utf16Length(username) >= MinUsername
    ensures Utf16Length(Replies.DefaultPassword) == MinPassword
    ensures ValidateLogin(username, Replies.DefaultPassword) == Accepted
  {
    Utf16LengthBounds(Replies.DefaultPassword);
  }
}
