/**
 * The choice of connection string from the configured backend name, made identically when the
 * catalogue is loaded, cleaned and extended (`DatabaseUtils`).
 */
module Connection {
  import opened Text
  import opened Records

  datatype DbConfig = DbConfig(
    dbType: string, host: string, port: int, username: string, password: string, database: string)

  datatype Backend = MySql | PostgreSql | Sqlite

  /** The backend a name selects, compared after lower-casing; `None` for an unsupported name. */
  function BackendOf(dbType: string): (b: Option<Backend>)
    ensures b == Some(MySql) <==> Lower(dbType) == "mysql"
    ensures b == Some(PostgreSql) <==> Lower(dbType) == "postgresql"
    ensures b == Some(Sqlite) <==> Lower(dbType) == "sqlite"
  {
    var name := Lower(dbType);
    if name == "mysql" then Some(MySql)
    else if name == "postgresql" then Some(PostgreSql)
    else if name == "sqlite" then Some(Sqlite)
    else None
  }

  /** The URL scheme each backend's template starts with. */
  function SchemeName(b: Backend): string
  {
    match b
    case MySql => "mysql+pymysql"
    case PostgreSql => "postgresql"
    case Sqlite => "sqlite"
  }

  /** The connection string for `cfg`, or the configuration error an unsupported name raises. */
  function ConnectionString(cfg: DbConfig): (r: Result<string, string>)
    ensures r.Success? <==> Lower(cfg.dbType) in {"mysql", "postgresql", "sqlite"}
    ensures r.Failure? ==> r.error == "Unsupported database type: " + cfg.dbType
  {
    var server := cfg.username + ":" + cfg.password + "@" + cfg.host + ":" + IntToString(cfg.port)
      + "/" + cfg.database;
    match BackendOf(cfg.dbType)
    case Some(MySql) => Success("mysql+pymysql://" + server)
    case Some(PostgreSql) => Success("postgresql://" + server)
    case Some(Sqlite) => Success("sqlite:///" + cfg.database + ".db")
    case None => Failure("Unsupported database type: " + cfg.dbType)
  }

  /** The scheme of a URL: everything before its first colon. */
  function Scheme(url: string): (r: string)
    ensures |r| <= |url| && r == url[..|r|] && ':' !in r
    decreases |url|
  {
    if |url| == 0 || url[0] == ':' then "" else [url[0]] + Scheme(url[1..])
  }

  lemma {:induction false} SchemeOfPrefix(a: string, b: string)
    requires ':' !in a && |b| > 0 && b[0] == ':'
    ensures Scheme(a + b) == a
    decreases |a|
  {
    if |a| > 0 {
      assert (a + b)[1..] == a[1..] + b;
      SchemeOfPrefix(a[1..], b);
      assert [a[0]] + a[1..] == a;
    }
  }

  /** Names differing only in letter case select the same connection string. */
  lemma DispatchIgnoresCase(cfg: DbConfig, other: string)
    requires Lower(other) == Lower(cfg.dbType)
    ensures ConnectionString(cfg.(dbType := other)).Success? == ConnectionString(cfg).Success?
    ensures ConnectionString(cfg).Success? ==>
      ConnectionString(cfg.(dbType := other)) == ConnectionString(cfg)
  {
  }

  /** The string a supported name yields connects to the backend that name selects. */
  lemma {:induction false} SchemeNamesBackend(cfg: DbConfig)
    requires ConnectionString(cfg).Success?
    ensures BackendOf(cfg.dbType).Some?
    ensures Scheme(ConnectionString(cfg).value) == SchemeName(BackendOf(cfg.dbType).value)
  {
    var url := ConnectionString(cfg).value;
    var b := BackendOf(cfg.dbType).value;
    var name := SchemeName(b);
    assert url == name + url[|name|..];
    SchemeOfPrefix(name, url[|name|..]);
  }

  /** Two supported names that select different backends never yield the same string. */
  lemma DifferentBackendsDifferentStrings(c1: DbConfig, c2: DbConfig)
    requires ConnectionString(c1).Success? && ConnectionString(c2).Success?
    requires BackendOf(c1.dbType) != BackendOf(c2.dbType)
    ensures ConnectionString(c1) != ConnectionString(c2)
  {
    SchemeNamesBackend(c1);
    SchemeNamesBackend(c2);
  }
}
