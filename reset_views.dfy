/** The decisions of the password-reset endpoints of api/views.py that do
    not depend on the reset-code model itself: the status report, the reply
    to a reset request, and what confirming a reset changes. Whether a code
    is still valid is decided by the code model, which is a parameter here. */
module ResetViews {
  import opened Wrappers
  import opened Models

  /** A reset-code row as the status view reads it; expiresAt is an opaque
      timestamp. */
  datatype ResetRow = ResetRow(user: UserId, isUsed: bool, expiresAt: int)

  predicate UnusedFor(row: ResetRow, user: UserId) {
    row.user == user && !row.isUsed
  }

  /** `filter(user=user, is_used=False).first()`: the first unused row of the user. */
  function FirstUnused(rows: seq<ResetRow>, user: UserId): (r: Option<ResetRow>)
    ensures r.None? <==> forall i :: 0 <= i < |rows| ==> !UnusedFor(rows[i], user)
    ensures r.Some? ==> exists i :: 0 <= i < |rows| && rows[i] == r.value && UnusedFor(r.value, user)
                          && forall j :: 0 <= j < i ==> !UnusedFor(rows[j], user)
    decreases |rows|
  {
    if rows == [] then None
    else if UnusedFor(rows[0], user) then Some(rows[0])
    else
      var r := FirstUnused(rows[1..], user);
      assert forall i :: 1 <= i < |rows| ==> rows[i] == rows[1..][i - 1];
      if r.Some? then
        var i :| 0 <= i < |rows[1..]| && rows[1..][i] == r.value && UnusedFor(r.value, user)
                 && forall j :: 0 <= j < i ==> !UnusedFor(rows[1..][j], user);
        assert rows[i + 1] == r.value;
        r
      else r
  }

  /** Whatever index is the first unused one, FirstUnused returns that row. */
  lemma FirstUnusedIsTheFirst(rows: seq<ResetRow>, user: UserId)
    ensures forall i :: 0 <= i < |rows| && UnusedFor(rows[i], user)
                        && (forall j :: 0 <= j < i ==> !UnusedFor(rows[j], user)) ==>
                        FirstUnused(rows, user) == Some(rows[i])
  {
    forall i | 0 <= i < |rows| && UnusedFor(rows[i], user) && (forall j :: 0 <= j < i ==> !UnusedFor(rows[j], user))
      ensures FirstUnused(rows, user) == Some(rows[i])
    {
      var k :| 0 <= k < |rows| && rows[k] == FirstUnused(rows, user).value && UnusedFor(rows[k], user)
               && forall j :: 0 <= j < k ==> !UnusedFor(rows[j], user);
      assert k == i;
    }
  }

  datatype StatusReply = UserNotFound | ActiveRequest(expiresAt: int) | NoActiveRequest

  /** GET /auth/password-reset/status/{email}: `users` maps e-mail addresses
      to accounts and `isValid` is the code model's validity test. */
  function ResetStatus(users: map<string, UserId>, email: string, rows: seq<ResetRow>,
                       isValid: ResetRow -> bool): (r: StatusReply)
    ensures email !in users <==> r == UserNotFound
    ensures r.ActiveRequest? ==> exists row :: row in rows && UnusedFor(row, users[email])
                                   && isValid(row) && row.expiresAt == r.expiresAt
    ensures email in users ==>
      (r.ActiveRequest? <==> exists i :: 0 <= i < |rows| && UnusedFor(rows[i], users[email]) && isValid(rows[i])
                                         && (forall j :: 0 <= j < i ==> !UnusedFor(rows[j], users[email]))
                                         && r == ActiveRequest(rows[i].expiresAt))
  {
    if email !in users then UserNotFound
    else
      FirstUnusedIsTheFirst(rows, users[email]);
      match FirstUnused(rows, users[email])
      case Some(row) =>
        if isValid(row) then ActiveRequest(row.expiresAt) else NoActiveRequest
      case None => NoActiveRequest
  }

  /** While a user has at most one unused code (issuing a code deletes the
      older ones), the status is active exactly when that code is valid. */
  lemma {:induction false} StatusWithOneCode(users: map<string, UserId>, email: string,
                                            rows: seq<ResetRow>, isValid: ResetRow -> bool)
    requires email in users
    requires forall i, j :: 0 <= i < j < |rows| && UnusedFor(rows[i], users[email]) ==>
               !UnusedFor(rows[j], users[email])
    ensures ResetStatus(users, email, rows, isValid).ActiveRequest? <==>
              exists row :: row in rows && UnusedFor(row, users[email]) && isValid(row)
  {
    var u := users[email];
    if exists row :: row in rows && UnusedFor(row, u) && isValid(row) {
      var row :| row in rows && UnusedFor(row, u) && isValid(row);
      var k :| 0 <= k < |rows| && rows[k] == row;
      var first := FirstUnused(rows, u);
      var i :| 0 <= i < |rows| && rows[i] == first.value && UnusedFor(first.value, u)
               && forall j :: 0 <= j < i ==> !UnusedFor(rows[j], u);
      assert k == i;
    }
  }

  /** A used code is never reported as an active request. */
  lemma UsedCodesAreIgnored(users: map<string, UserId>, email: string, rows: seq<ResetRow>,
                            isValid: ResetRow -> bool)
    requires email in users
    requires forall i :: 0 <= i < |rows| && rows[i].user == users[email] ==> rows[i].isUsed
    ensures ResetStatus(users, email, rows, isValid) == NoActiveRequest
  {
  }

  datatype RequestReply = CodeSent(email: string, debugCode: string) | DispatchFailed(error: string)

  /** POST /auth/password-reset/request, after the code is issued: the reply
      depends only on whether the e-mail collaborator reported success. */
  function RequestReplyFor(email: string, code: string, sent: bool, message: string): (r: RequestReply)
    ensures r.CodeSent? <==> sent
    ensures r.CodeSent? ==> r.email == email && r.debugCode == code
    ensures r.DispatchFailed? ==> r.error == "Ошибка отправки email: " + message
  {
    if sent then CodeSent(email, code) else DispatchFailed("Ошибка отправки email: " + message)
  }

  /** A user account's credential (the hashing is not modelled). */
  class Account {
    var password: string

    constructor (password: string)
      ensures this.password == password
    {
      this.password := password;
    }
  }

  /** A stored reset code. */
  class ResetCode {
    const user: UserId
    const code: string
    const expiresAt: int
    var isUsed: bool

    constructor (user: UserId, code: string, expiresAt: int)
      ensures this.user == user && this.code == code && this.expiresAt == expiresAt && !isUsed
    {
      this.user, this.code, this.expiresAt := user, code, expiresAt;
      isUsed := false;
    }

    function Row(): ResetRow
      reads this
    {
      ResetRow(user, isUsed, expiresAt)
    }
  }

  /** POST /auth/password-reset/confirm, once the request has been
      validated: sets the new password, then marks the code used. */
  method ConfirmReset(account: Account, reset: ResetCode, newPassword: string)
    modifies account, reset
    ensures account.password == newPassword
    ensures reset.isUsed
    ensures !UnusedFor(reset.Row(), reset.user)
  {
    account.password := newPassword;
    reset.isUsed := true;
  }
}
