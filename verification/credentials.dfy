/** The credential ledger: `password.csv` rows `[username, hash]`. The hash
    (SHA-256 hex digest in the source) is a parameter: any deterministic
    function from passwords to digests. */
module Credentials {
  import opened Wrappers
  import opened Records
  import Validators

  /** `username_exists`: some row, the header row included, starts with the name. */
  function UsernameExists(passwords: Table, username: string): (r: bool)
    ensures r <==> exists i | 0 <= i < |passwords| :: |passwords[i]| > 0 && passwords[i][0] == username
  {
    if |passwords| == 0 then false
    else (|passwords[0]| > 0 && passwords[0][0] == username) || UsernameExists(passwords[1..], username)
  }

  /** Why a password check stops: the first row of the user has no password
      field, and `row[1]` raises `IndexError`. */
  datatype CheckError = ShortRow

  predicate OwnedBy(row: Row, username: string) { |row| > 0 && row[0] == username }

  /** The scan `row and row[0] == username and row[1] == digest` over the rows in
      order, up to the first match; a row of the user without a second field ends
      the scan with an error. */
  function CredentialsMatch(passwords: Table, username: string, digest: string): (r: Result<bool, CheckError>)
    ensures r == Ok(true) <==> exists i | 0 <= i < |passwords| ::
      && OwnedBy(passwords[i], username) && |passwords[i]| >= 2 && passwords[i][1] == digest
      && forall j | 0 <= j < i :: OwnedBy(passwords[j], username) ==> |passwords[j]| >= 2
    ensures r == Err(ShortRow) <==> exists i | 0 <= i < |passwords| ::
      && OwnedBy(passwords[i], username) && |passwords[i]| < 2
      && forall j | 0 <= j < i :: OwnedBy(passwords[j], username) ==> |passwords[j]| >= 2 && passwords[j][1] != digest
  {
    if |passwords| == 0 then Ok(false)
    else
      var row := passwords[0];
      if OwnedBy(row, username) && |row| < 2 then Err(ShortRow)
      else if OwnedBy(row, username) && row[1] == digest then Ok(true)
      else
        var rest := CredentialsMatch(passwords[1..], username, digest);
        assert forall i | 1 <= i < |passwords| :: passwords[i] == passwords[1..][i - 1];
        rest
  }

  /** Why `change_password` leaves the file alone. */
  datatype ChangeError = IncorrectPassword | CheckFailed(reason: CheckError)

  /** The row replacement of `change_password`: every row of the user becomes
      `[username, hash(newPassword)]`, every other row is kept. */
  function ReplacePassword(passwords: Table, username: string, digest: string): (r: Table)
    ensures |r| == |passwords|
    ensures forall i | 0 <= i < |passwords| ::
      r[i] == if OwnedBy(passwords[i], username) then [username, digest] else passwords[i]
  {
    if |passwords| == 0 then []
    else
      var first := if OwnedBy(passwords[0], username) then [username, digest] else passwords[0];
      [first] + ReplacePassword(passwords[1..], username, digest)
  }

  /** `change_password`: the old password must check out; the new one is the
      value the prompt loop accepts, so it passes the password rules. */
  function ChangePassword(passwords: Table, username: string, oldPassword: string, newPassword: string,
                          hash: string -> string): (r: Result<Table, ChangeError>)
    requires Validators.PasswordProblems(newPassword) == []
    ensures r.Ok? <==> CredentialsMatch(passwords, username, hash(oldPassword)) == Ok(true)
    ensures r.Ok? ==> r.value == ReplacePassword(passwords, username, hash(newPassword))
  {
    match CredentialsMatch(passwords, username, hash(oldPassword))
    case Err(e) => Err(CheckFailed(e))
    case Ok(valid) =>
      if !valid then Err(IncorrectPassword)
      else Ok(ReplacePassword(passwords, username, hash(newPassword)))
  }

  /** After a change the new password checks out, and the old one no longer
      does unless both hash alike. */
  lemma {:induction false} NewPasswordChecksOut(passwords: Table, username: string, oldPassword: string,
                                                newPassword: string, hash: string -> string)
    requires Validators.PasswordProblems(newPassword) == []
    requires ChangePassword(passwords, username, oldPassword, newPassword, hash).Ok?
    ensures var after := ChangePassword(passwords, username, oldPassword, newPassword, hash).value;
      && CredentialsMatch(after, username, hash(newPassword)) == Ok(true)
      && (hash(oldPassword) != hash(newPassword) ==> CredentialsMatch(after, username, hash(oldPassword)) == Ok(false))
  {
    var digest := hash(newPassword);
    var after := ReplacePassword(passwords, username, digest);
    assert ChangePassword(passwords, username, oldPassword, newPassword, hash).value == after;
    var i := MatchHasOwnedRow(passwords, username, hash(oldPassword));
    ReplacedRowsUniform(passwords, username, digest);
    UniformRowsMatch(after, username, digest, i);
    if hash(oldPassword) != digest {
      UniformRowsReject(after, username, digest, hash(oldPassword));
    }
  }

  /** A successful check went through a row of the user. */
  lemma MatchHasOwnedRow(rows: Table, username: string, digest: string) returns (i: nat)
    requires CredentialsMatch(rows, username, digest) == Ok(true)
    ensures i < |rows| && OwnedBy(rows[i], username)
  {
    i :| i < |rows| && OwnedBy(rows[i], username) && |rows[i]| >= 2 && rows[i][1] == digest
      && forall j | 0 <= j < i :: OwnedBy(rows[j], username) ==> |rows[j]| >= 2;
  }

  /** After the replacement every row of the user carries the new digest. */
  lemma ReplacedRowsUniform(rows: Table, username: string, digest: string)
    ensures var after := ReplacePassword(rows, username, digest);
      forall j | 0 <= j < |after| :: OwnedBy(after[j], username) <==> OwnedBy(rows[j], username)
    ensures var after := ReplacePassword(rows, username, digest);
      forall j | 0 <= j < |after| :: OwnedBy(after[j], username) ==> after[j] == [username, digest]
  {
  }

  /** Once every row of the user is `[username, digest]`, that digest checks out. */
  lemma UniformRowsMatch(rows: Table, username: string, digest: string, i: nat)
    requires forall j | 0 <= j < |rows| :: OwnedBy(rows[j], username) ==> rows[j] == [username, digest]
    requires i < |rows| && OwnedBy(rows[i], username)
    ensures CredentialsMatch(rows, username, digest) == Ok(true)
  {
    assert |rows[i]| >= 2 && rows[i][1] == digest;
  }

  /** Once every row of the user is `[username, digest]`, any other digest is
      refused without error. */
  lemma UniformRowsReject(rows: Table, username: string, digest: string, other: string)
    requires forall j | 0 <= j < |rows| :: OwnedBy(rows[j], username) ==> rows[j] == [username, digest]
    requires other != digest
    ensures CredentialsMatch(rows, username, other) == Ok(false)
  {
    var r := CredentialsMatch(rows, username, other);
    assert r != Ok(true);
    assert r != Err(ShortRow);
  }
}
