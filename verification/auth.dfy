/** app/api/auth/route.ts: the admin password check behind the login dialog. */
module Auth {
  import opened Common

  /** The handler's JSON `success` flag and its HTTP status. */
  datatype AuthReply = AuthReply(success: bool, status: int)

  /** The environment variable holds a usable password (set and not empty). */
  predicate Configured(adminPassword: Option<string>)
  {
    adminPassword.Some? && adminPassword.value != ""
  }

  /** `POST /api/auth`. `adminPassword` is ADMIN_PASSWORD (None when unset);
      `password` is the body's field (None when it is absent or not a string). */
  function Login(adminPassword: Option<string>, password: Option<string>): (r: AuthReply)
    ensures r.success <==> r.status == 200
    // without a configured password every attempt fails with a server error
    ensures !Configured(adminPassword) ==> r == AuthReply(false, 500)
    // success exactly for the configured password, compared character by character
    ensures r.success <==> Configured(adminPassword) && password == adminPassword
    ensures Configured(adminPassword) && password != adminPassword ==> r == AuthReply(false, 401)
  {
    if !Configured(adminPassword) then AuthReply(false, 500)
    else if password == adminPassword then AuthReply(true, 200)
    else AuthReply(false, 401)
  }

  /** No normalisation: a password with a trailing space, or with any other
      extra character, is refused. */
  lemma NoTrimming(secret: string, extra: char)
    requires secret != ""
    ensures Login(Some(secret), Some(secret + [extra])) == AuthReply(false, 401)
    ensures Login(Some(secret + [extra]), Some(secret)) == AuthReply(false, 401)
  {
    assert |secret + [extra]| != |secret|;
  }

  /** ASCII lower case of a character; every other character is unchanged. */
  function LowerChar(c: char): char
  {
    if 'A' <= c <= 'Z' then (c as int + 32) as char else c
  }

  /** ASCII lower case of a string, character by character. */
  function Lower(s: string): (r: string)
    ensures |r| == |s|
    ensures forall i :: 0 <= i < |s| ==> r[i] == LowerChar(s[i])
  {
    seq(|s|, i requires 0 <= i < |s| => LowerChar(s[i]))
  }

  /** No case folding: an attempt that differs from the configured password only
      in the case of its letters is refused like any other wrong password. */
  lemma NoCaseFolding(secret: string, attempt: string)
    requires secret != ""
    requires Lower(attempt) == Lower(secret) && attempt != secret
    ensures Login(Some(secret), Some(attempt)) == AuthReply(false, 401)
  {
  }

  /** Such attempts exist: "admin" against the password "Admin". */
  lemma CaseVariantExample()
    ensures Lower("admin") == Lower("Admin") && "admin" != "Admin"
    ensures Login(Some("Admin"), Some("admin")) == AuthReply(false, 401)
  {
    assert "Admin"[0] != "admin"[0];
    assert Lower("admin") == "admin";
    assert Lower("Admin") == "admin";
  }
}
