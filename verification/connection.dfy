/** The SQL Server connection strings the application builds: per table
    window (`TableWindow.GetConnectionString`) and from the main page
    (`ConnectToServer`, `DatabaseComboBox_SelectionChanged`). Windows
    authentication uses integrated security; SQL authentication needs a
    user name and a password, embedded verbatim. */
module Connection {

  import opened Base
  import opened Text

  /** How the user authenticates. */
  datatype Credentials = WindowsAuth | SqlAuth(user: string, password: string)

  /** Why no connection string could be built. `MissingCredentials` is the
      table window's single exception for either field; the main page
      reports a missing user name before a missing password. */
  datatype CredentialError = MissingCredentials | MissingUser | MissingPassword

  /** The credential part of a string. */
  function AuthPart(auth: Credentials): string {
    match auth
    case WindowsAuth => "Integrated Security=True;"
    case SqlAuth(u, p) => "User Id=" + u + ";Password=" + p + ";"
  }

  /** `GetConnectionString` of a table window. */
  function TableConnectionString(server: string, database: string, auth: Credentials)
    : (r: Result<string, CredentialError>)
    ensures r.Err? <==> auth.SqlAuth? && (auth.user == [] || auth.password == [])
    ensures r.Err? ==> r.error == MissingCredentials
    ensures r.Ok? ==> r.value == "Server=" + server + ";Database=" + database + ";" + AuthPart(auth)
  {
    match auth
    case WindowsAuth => Ok("Server=" + server + ";Database=" + database + ";" + "Integrated Security=True;")
    case SqlAuth(u, p) =>
      if u == [] || p == [] then Err(MissingCredentials)
      else Ok("Server=" + server + ";Database=" + database + ";" + ("User Id=" + u + ";Password=" + p + ";"))
  }

  /** The main page's check, in its order: user name first, then password. */
  function CheckCredentials(auth: Credentials): (r: Option<CredentialError>)
    ensures r.Some? <==> auth.SqlAuth? && (auth.user == [] || auth.password == [])
    ensures r == Some(MissingUser) <==> auth.SqlAuth? && auth.user == []
    ensures r == Some(MissingPassword) <==> auth.SqlAuth? && auth.user != [] && auth.password == []
  {
    match auth
    case WindowsAuth => None
    case SqlAuth(u, p) =>
      if u == [] then Some(MissingUser)
      else if p == [] then Some(MissingPassword)
      else None
  }

  /** `ConnectToServer`'s string, without a database. */
  function ServerConnectionString(server: string, auth: Credentials): (r: Result<string, CredentialError>)
    ensures r.Err? <==> CheckCredentials(auth).Some?
    ensures r.Err? ==> r.error == CheckCredentials(auth).value
    ensures r.Ok? ==> r.value == "Server=" + server + ";" + AuthPart(auth)
  {
    match CheckCredentials(auth)
    case Some(e) => Err(e)
    case None => Ok("Server=" + server + ";" + AuthPart(auth))
  }

  /** `DatabaseComboBox_SelectionChanged`'s string: the same as the table
      window's, with the main page's error order. */
  function DatabaseConnectionString(server: string, database: string, auth: Credentials)
    : (r: Result<string, CredentialError>)
    ensures r.Err? <==> CheckCredentials(auth).Some?
    ensures r.Err? ==> r.error == CheckCredentials(auth).value
  {
    match CheckCredentials(auth)
    case Some(e) => Err(e)
    case None => Ok("Server=" + server + ";Database=" + database + ";" + AuthPart(auth))
  }

  /** The main page and the table window accept the same credentials, and
      when they do, they build the same string for the same database. */
  lemma PageAndWindowAgree(server: string, database: string, auth: Credentials)
    ensures DatabaseConnectionString(server, database, auth).Ok? <==> TableConnectionString(server, database, auth).Ok?
    ensures DatabaseConnectionString(server, database, auth).Ok? ==>
              DatabaseConnectionString(server, database, auth) == TableConnectionString(server, database, auth)
  {
  }

  /** The password is embedded without escaping, so whatever follows a
      `;` in it becomes a keyword segment of its own: with `keyword` =
      "Integrated Security=True", SQL authentication yields a string that
      asks for integrated security. */
  lemma PasswordCanInjectKeywords(server: string, database: string, user: string, keyword: string)
    requires user != []
    ensures var r := TableConnectionString(server, database, SqlAuth(user, "x" + ";" + keyword));
            r.Ok? && Occurs(r.value, ";" + keyword + ";")
  {
    var prefix := "Server=" + server + ";Database=" + database + ";" + "User Id=" + user + ";Password=";
    var r := TableConnectionString(server, database, SqlAuth(user, "x" + ";" + keyword));
    assert r.value == prefix + ("x" + ";" + keyword) + ";";
    Regroup(prefix, "x", ";", keyword);
    SuffixOccurs(prefix + "x", ";" + keyword + ";");
  }

  /** Regrouping a concatenation around a separator. */
  lemma Regroup(a: string, b: string, sep: string, d: string)
    ensures a + (b + sep + d) + sep == (a + b) + (sep + d + sep)
  {
  }

  /** A string occurs at the end of anything it ends. */
  lemma SuffixOccurs(a: string, b: string)
    ensures Occurs(a + b, b)
  {
    assert (a + b)[|a|..|a| + |b|] == b;
    assert OccursAt(a + b, b, |a|);
  }
}
