/** The main page (`MainPage`): server and credential entry, the
    Connect/Disconnect toggle, database and table selection, and the
    registry of open table windows keyed by "{database}_{table}". The
    server's answers (database and table listings), the confirmation
    dialog's answer and whether a table window could be constructed are
    inputs of the events. */
module MainPage {

  import opened Base
  import opened Connection

  /** An open table window: the database and table it shows. */
  datatype TableWindowRef = TableWindowRef(database: string, table: string)

  datatype PageState = PageState(
    server: string,
    windowsAuth: bool,
    user: string,
    password: string,
    connectEnabled: bool,
    connected: bool,
    databases: seq<string>,
    database: Option<string>,
    tables: seq<string>,
    windows: map<string, TableWindowRef>)

  /** The page as constructed: Windows authentication, nothing typed, the
      Connect button disabled, not connected, no windows. */
  const Initial: PageState := PageState("", true, "", "", false, false, [], None, [], map[])

  /** The credentials the page would use now. */
  function CredentialsOf(s: PageState): (c: Credentials)
    ensures s.windowsAuth ==> c == WindowsAuth
    ensures !s.windowsAuth ==> c == SqlAuth(s.user, s.password)
  {
    if s.windowsAuth then WindowsAuth else SqlAuth(s.user, s.password)
  }

  /** `$"{DatabaseComboBox.SelectedItem}_{selectedTable}"`. */
  function WindowKey(database: string, table: string): (k: string)
    ensures |k| == |database| + 1 + |table|
    ensures k[..|database|] == database && k[|database|] == '_' && k[|database| + 1..] == table
  {
    database + "_" + table
  }

  /** What holds of the page between events: the Connect button is
      enabled exactly when a server name has been typed; every registered
      window sits under the key of its own database and table and shows a
      database of the current listing; a selected database is one of the
      listing; a connected page has a server name (so Disconnect stays
      clickable); and a disconnected page has no listings, no selection and no
      windows. */
  predicate Valid(s: PageState) {
    && (s.connectEnabled <==> s.server != [])
    && (s.connected ==> s.server != [])
    && (forall key :: key in s.windows ==> key == WindowKey(s.windows[key].database, s.windows[key].table))
    && (forall key :: key in s.windows ==> s.windows[key].database in s.databases)
    && (s.database.Some? ==> s.database.value in s.databases)
    && (!s.connected ==> s.windows == map[] && s.databases == [] && s.database.None? && s.tables == [])
  }

  lemma InitialValid()
    ensures Valid(Initial)
  {
  }

  /** `ServerTextBox_TextChanged`. */
  function ServerTextChanged(s: PageState, text: string): (r: PageState)
    ensures r.server == text && (r.connectEnabled <==> text != [])
    ensures r == s.(server := text, connectEnabled := r.connectEnabled)
  {
    s.(server := text, connectEnabled := text != [])
  }

  /** How a click on Connect ends. */
  datatype ConnectOutcome =
    | NoServer
    | CredentialsMissing(error: CredentialError)
    | ConnectFailed
    | Connected

  /** `ConnectToServer`: refuses an empty server name, then checks the
      credentials (user name first, then password) before any connection
      attempt; connects only when the database listing arrives, which
      replaces the database list (and so clears its selection). `listing`
      is the server's answer. */
  function ConnectToServer(s: PageState, listing: Option<seq<string>>): (r: (PageState, ConnectOutcome))
    ensures r.1 == NoServer <==> s.server == []
    ensures r.1.CredentialsMissing? <==> s.server != [] && CheckCredentials(CredentialsOf(s)).Some?
    ensures r.1.CredentialsMissing? ==> r.1.error == CheckCredentials(CredentialsOf(s)).value
    ensures r.1 == Connected <==> s.server != [] && CheckCredentials(CredentialsOf(s)).None? && listing.Some?
    ensures r.1 == Connected ==> r.0 == s.(connected := true, databases := listing.value, database := None)
    ensures r.1 != Connected ==> r.0 == s
  {
    if s.server == [] then (s, NoServer)
    else match CheckCredentials(CredentialsOf(s))
      case Some(e) => (s, CredentialsMissing(e))
      case None =>
        match listing
        case None => (s, ConnectFailed)
        case Some(dbs) => (s.(connected := true, databases := dbs, database := None), Connected)
  }

  /** `DisconnectFromServer`: only a "Yes" acts. Every registered window
      is closed and the registry cleared, the lists emptied, and the page
      disconnected. */
  function DisconnectFromServer(s: PageState, confirmed: bool): (r: PageState)
    ensures !confirmed ==> r == s
    ensures confirmed ==> !r.connected && r.windows == map[] && r.databases == [] && r.tables == []
                          && r.database.None?
    ensures r.server == s.server && r.connectEnabled == s.connectEnabled
    ensures r.windowsAuth == s.windowsAuth && r.user == s.user && r.password == s.password
  {
    if confirmed then s.(connected := false, windows := map[], databases := [], database := None, tables := [])
    else s
  }

  /** `ConnectButton_Click`: disconnects when connected, connects otherwise. */
  function ConnectButtonClick(s: PageState, listing: Option<seq<string>>, confirmed: bool)
    : (r: (PageState, Option<ConnectOutcome>))
    ensures s.connected ==> r == (DisconnectFromServer(s, confirmed), None)
    ensures !s.connected ==> r.1 == Some(ConnectToServer(s, listing).1) && r.0 == ConnectToServer(s, listing).0
    ensures r.0.connected ==> !s.connected || !confirmed
  {
    if s.connected then (DisconnectFromServer(s, confirmed), None)
    else
      var c := ConnectToServer(s, listing);
      (c.0, Some(c.1))
  }

  /** `DatabaseComboBox_SelectionChanged`: a cleared selection does
      nothing; missing credentials stop before anything changes; otherwise
      the table list is cleared and refilled from the listing, and stays
      empty when the listing fails. */
  function DatabaseSelected(s: PageState, database: Option<string>, listing: Option<seq<string>>): (r: PageState)
    ensures database.None? ==> r == s.(database := None)
    ensures database.Some? && CheckCredentials(CredentialsOf(s)).Some? ==> r == s.(database := database)
    ensures database.Some? && CheckCredentials(CredentialsOf(s)).None? ==>
              r == s.(database := database, tables := if listing.Some? then listing.value else [])
    ensures r.windows == s.windows && r.connected == s.connected
  {
    if database.None? then s.(database := None)
    else if CheckCredentials(CredentialsOf(s)).Some? then s.(database := database)
    else s.(database := database, tables := if listing.Some? then listing.value else [])
  }

  /** `TableComboBox_SelectionChanged`: nothing for a cleared selection;
      an already registered key only brings its window forward; otherwise
      a new window is registered under the key when it could be
      constructed (`constructed`). A missing database selection makes the
      construction throw. */
  function TableSelected(s: PageState, table: Option<string>, constructed: bool): (r: PageState)
    ensures r == s.(windows := r.windows)
    ensures table.None? || s.database.None? || !constructed ==> r == s
    ensures table.Some? && s.database.Some? && WindowKey(s.database.value, table.value) in s.windows ==> r == s
    ensures table.Some? && s.database.Some? && constructed
            && WindowKey(s.database.value, table.value) !in s.windows ==>
              r.windows == s.windows[WindowKey(s.database.value, table.value) := TableWindowRef(s.database.value, table.value)]
  {
    if table.None? || s.database.None? then s
    else
      var key := WindowKey(s.database.value, table.value);
      if key in s.windows then s
      else if !constructed then s
      else s.(windows := s.windows[key := TableWindowRef(s.database.value, table.value)])
  }

  /** A table window's `Closed` handler: removes the key it was registered
      under, and nothing else. */
  function WindowClosed(s: PageState, key: string): (r: PageState)
    ensures r == s.(windows := r.windows)
    ensures key !in r.windows
    ensures forall k :: k != key ==> (k in r.windows <==> k in s.windows)
    ensures forall k :: k in r.windows ==> r.windows[k] == s.windows[k]
  {
    s.(windows := s.windows - {key})
  }

  /** Everything that happens to the page. */
  datatype Event =
    | TypeServer(text: string)
    | ChooseAuth(windows: bool)
    | TypeCredentials(user: string, password: string)
    | ClickConnect(listing: Option<seq<string>>, confirmed: bool)
    | SelectDatabase(database: Option<string>, listing: Option<seq<string>>)
    | SelectTable(table: Option<string>, constructed: bool)
    | CloseWindow(key: string)

  /** Whether the control behind an event can raise it: the server box,
      the authentication choice and the credential boxes are disabled while
      connected; the Connect button only when a server name is typed; the
      database and table boxes are enabled only while connected and offer
      only the listed names; only an open window can close. */
  predicate Enabled(s: PageState, e: Event) {
    match e
    case TypeServer(_) => !s.connected
    case ChooseAuth(_) => !s.connected
    case TypeCredentials(_, _) => !s.connected
    case ClickConnect(_, _) => s.connectEnabled
    case SelectDatabase(db, _) => s.connected && (db.None? || db.value in s.databases)
    case SelectTable(t, _) => s.connected && (t.None? || t.value in s.tables)
    case CloseWindow(key) => key in s.windows
  }

  /** One event: its handler when the control can raise it, nothing
      otherwise. */
  function Step(s: PageState, e: Event): PageState {
    if !Enabled(s, e) then s
    else match e
      case TypeServer(text) => ServerTextChanged(s, text)
      case ChooseAuth(w) => s.(windowsAuth := w)
      case TypeCredentials(u, p) => s.(user := u, password := p)
      case ClickConnect(listing, confirmed) => ConnectButtonClick(s, listing, confirmed).0
      case SelectDatabase(db, listing) => DatabaseSelected(s, db, listing)
      case SelectTable(t, constructed) => TableSelected(s, t, constructed)
      case CloseWindow(key) => WindowClosed(s, key)
  }

  function Run(s: PageState, events: seq<Event>): PageState
    decreases |events|
  {
    if events == [] then s else Run(Step(s, events[0]), events[1..])
  }

  /** Every event keeps the page valid. */
  lemma StepKeepsValid(s: PageState, e: Event)
    requires Valid(s)
    ensures Valid(Step(s, e))
  {
    var r := Step(s, e);
    if Enabled(s, e) && e.SelectTable? && e.table.Some? && s.database.Some? {
      var key := WindowKey(s.database.value, e.table.value);
      forall k | k in r.windows
        ensures k == WindowKey(r.windows[k].database, r.windows[k].table)
        ensures r.windows[k].database in r.databases
      {
        if k != key {
          assert r.windows[k] == s.windows[k];
        }
      }
    }
  }

  /** From a valid page, and so from the freshly constructed one, any
      sequence of events keeps the page valid. */
  lemma {:induction false} RunKeepsValid(s: PageState, events: seq<Event>)
    requires Valid(s)
    ensures Valid(Run(s, events))
    decreases |events|
  {
    if events != [] {
      StepKeepsValid(s, events[0]);
      RunKeepsValid(Step(s, events[0]), events[1..]);
    }
  }

  /** The page becomes connected only through a click on Connect whose
      database listing arrived, for a typed server name and complete
      credentials. */
  lemma ConnectedOnlyAfterListing(s: PageState, e: Event)
    requires !s.connected && Step(s, e).connected
    ensures e.ClickConnect? && e.listing.Some? && s.server != []
    ensures CheckCredentials(CredentialsOf(s)).None?
    ensures Step(s, e).databases == e.listing.value
  {
  }

  /** While connected, the server, the authentication choice and the
      credentials cannot change, so every table window opened in one
      session connects the same way. */
  lemma {:induction false} ConnectionLockedWhileConnected(s: PageState, events: seq<Event>)
    requires s.connected
    requires forall k :: 0 <= k <= |events| ==> Run(s, events[..k]).connected
    ensures var r := Run(s, events);
            r.server == s.server && r.windowsAuth == s.windowsAuth && r.user == s.user && r.password == s.password
    decreases |events|
  {
    if events != [] {
      var t := Step(s, events[0]);
      assert Run(s, events[..1]) == t by {
        assert events[..1][1..] == [];
      }
      forall k | 0 <= k <= |events[1..]|
        ensures Run(t, events[1..][..k]).connected
      {
        assert events[..k + 1] == [events[0]] + events[1..][..k];
        assert Run(s, events[..k + 1]) == Run(t, events[1..][..k]);
      }
      ConnectionLockedWhileConnected(t, events[1..]);
    }
  }

  /** The Connect button is never clickable with an empty server box, so
      `ConnectToServer`'s own empty-name check never fires on a valid page. */
  lemma EmptyServerNeverReachesConnect(s: PageState, listing: Option<seq<string>>, confirmed: bool)
    requires Valid(s) && Enabled(s, ClickConnect(listing, confirmed)) && !s.connected
    ensures ConnectToServer(s, listing).1 != NoServer
  {
  }

  /** Selecting the same table of the same database twice opens one window. */
  lemma ReselectOpensNothing(s: PageState, table: string, constructed: bool, constructed2: bool)
    requires s.database.Some?
    ensures var s1 := TableSelected(s, Some(table), constructed);
            WindowKey(s.database.value, table) in s1.windows ==>
              TableSelected(s1, Some(table), constructed2) == s1
  {
  }

  /** The key is not injective: database "a_b" with table "c" and database
      "a" with table "b_c" share the key "a_b_c", so once the first is open,
      selecting the second brings the first window forward and no window on
      the second table is ever opened. */
  lemma WindowKeyCollides(s: PageState, constructed: bool)
    requires Valid(s) && s.database == Some("a_b") && "a_b_c" !in s.windows && constructed
    ensures var s1 := TableSelected(s, Some("c"), constructed);
            var s2 := TableSelected(s1.(database := Some("a")), Some("b_c"), constructed);
            && s2.windows == s1.windows
            && "a_b_c" in s2.windows
            && s2.windows["a_b_c"] == TableWindowRef("a_b", "c")
            && (forall key :: key in s2.windows ==> s2.windows[key] != TableWindowRef("a", "b_c"))
  {
    assert WindowKey("a_b", "c") == "a_b_c";
    assert WindowKey("a", "b_c") == "a_b_c";
    var s1 := TableSelected(s, Some("c"), constructed);
    assert s1.windows == s.windows["a_b_c" := TableWindowRef("a_b", "c")];
    var s2 := TableSelected(s1.(database := Some("a")), Some("b_c"), constructed);
    assert s2.windows == s1.windows;
    forall key | key in s2.windows ensures s2.windows[key] != TableWindowRef("a", "b_c") {
      if key == "a_b_c" {
        assert s2.windows[key] == TableWindowRef("a_b", "c");
      } else {
        assert s1.windows[key] == s.windows[key];
        // A window on ("a", "b_c") would sit under "a_b_c", which is free.
        assert key == WindowKey(s.windows[key].database, s.windows[key].table);
      }
    }
  }
}
