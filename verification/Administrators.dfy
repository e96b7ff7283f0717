/** The administrators table: stored passwords, logins that upgrade them in place, renames and removals. */
module Administrators {
  import opened Bytes
  import opened Order
  import opened PasswordHash
  import opened CourseTables
  import opened CourseStore

  /** The table maps a username to its stored password: an encoding, or plain text from before encodings. */
  datatype AdminDb = AdminDb(isOpen: bool, table: map<Text, Text>, lastError: Text)

  /** The choices of engine and random source in one call; the booleans say whether a probe could be carried out. */
  datatype AdminEngine = AdminEngine(fetch: bool, existsOld: bool, existsNew: bool, salt: Option<Salt>, write: Outcome)

  const HASH_FAILED := Ascii("Failed to hash password.")
  const OLD_NOT_FOUND := Ascii("Old username not found.")
  const NEW_TAKEN := Ascii("New username already taken.")
  const NOT_FOUND := Ascii("Username not found.")

  /** UPDATE and DELETE report an error text only when they cannot be prepared. */
  function NoteIfUnprepared(db: AdminDb, o: Outcome): AdminDb {
    if o.PrepareFailed? then db.(lastError := o.msg) else db
  }

  function ToStore(kdf: Kdf, password: Text, salt: Option<Salt>): Text {
    if IsEncoded(password) then password else Make(kdf, password, ITERATIONS, salt)
  }

  function InsertAdmin(kdf: Kdf, db: AdminDb, username: Text, password: Text, e: AdminEngine): (AdminDb, bool) {
    if !db.isOpen then (db.(lastError := NOT_OPEN), false) else
    var stored := ToStore(kdf, password, e.salt);
    if stored == [] then (db.(lastError := HASH_FAILED), false)
    else if e.write.Done? then (db.(table := db.table[CString(username) := CString(stored)]), true)
    else (db.(lastError := e.write.msg), false)
  }

  function VerifyLogin(kdf: Kdf, db: AdminDb, username: Text, password: Text, e: AdminEngine): (AdminDb, bool) {
    if !db.isOpen then (db.(lastError := NOT_OPEN), false)
    else if !e.fetch || CString(username) !in db.table then (db, false) else
    var stored := db.table[CString(username)];
    if IsEncoded(stored) then (db, Verify(kdf, password, stored))
    else if stored != password then (db, false) else
    var upgraded := Make(kdf, password, ITERATIONS, e.salt);
    (if upgraded != [] && e.write.Done? then db.(table := db.table[CString(username) := CString(upgraded)]) else db,
        true)
  }

  predicate Exists(db: AdminDb, username: Text, probe: bool) {
    db.isOpen && probe && CString(username) in db.table
  }

  function Rename(db: AdminDb, oldName: Text, newName: Text, e: AdminEngine): (AdminDb, bool) {
    if !db.isOpen then (db.(lastError := NOT_OPEN), false)
    else if oldName == newName then (db, true)
    else if !Exists(db, oldName, e.existsOld) then (db.(lastError := OLD_NOT_FOUND), false)
    else if Exists(db, newName, e.existsNew) then (db.(lastError := NEW_TAKEN), false)
    else if !e.write.Done? then (NoteIfUnprepared(db, e.write), false)
    else if CString(newName) in db.table && CString(newName) != CString(oldName)
        then (db, false)  // the primary key refuses
    else (db.(table := (db.table - {CString(oldName)})[CString(newName) := db.table[CString(oldName)]]), true)
  }

  /** A rename from a to b as the database sees it: not refused, and carried out. */
  predicate RenameDone(db: AdminDb, a: Text, b: Text, e: AdminEngine) {
    && db.isOpen && e.existsOld && CString(a) in db.table && e.write.Done?
    && (CString(b) !in db.table || (CString(b) == CString(a) && !e.existsNew))
  }

  function RemoveAdmin(db: AdminDb, username: Text, e: AdminEngine): (AdminDb, bool) {
    if !db.isOpen then (db.(lastError := NOT_OPEN), false)
    else if !e.write.Done? then (NoteIfUnprepared(db, e.write), false)
    else if CString(username) !in db.table then (db.(lastError := NOT_FOUND), false)
    else (db.(table := db.table - {CString(username)}), true)
  }

  /** SELECT username ... ORDER BY username. */
  function SortedNames(table: map<Text, Text>): (names: seq<Text>)
    ensures |names| == |table|
  {
    var columns := set u | u in table :: [Str(u)];
    SingletonColumns(table.Keys);
    var sorted := Ascending(columns);
    seq(|sorted|, i requires 0 <= i < |sorted| => assert sorted[i] in columns; sorted[i][0].t)
  }

  lemma {:induction false} SingletonColumns(names: set<Text>)
    ensures |(set u | u in names :: [Str(u)])| == |names|
  {
    var columns := set u | u in names :: [Str(u)];
    if names == {} {
      assert columns == {};
    } else {
      var x :| x in names;
      SingletonColumns(names - {x});
      assert columns == (set u | u in names - {x} :: [Str(u)]) + {[Str(x)]};
      assert forall u: Text :: [Str(u)][0] == Str(u);
      assert [Str(x)] !in (set u | u in names - {x} :: [Str(u)]);
    }
  }

  lemma NamesAreColumns(table: map<Text, Text>)
    ensures var sorted, names := Ascending(set u | u in table :: [Str(u)]), SortedNames(table);
      && |names| == |sorted| && (forall i :: 0 <= i < |names| ==> sorted[i] == [Str(names[i])])
      && forall u :: u in names <==> u in table
  {
    hide Ascending;
    var columns := set u | u in table :: [Str(u)];
    var sorted, names := Ascending(columns), SortedNames(table);
    forall i | 0 <= i < |names| ensures sorted[i] == [Str(names[i])] && names[i] in table {
      assert sorted[i] in columns;
    }
    forall u | u in table ensures u in names {
      assert [Str(u)] in columns;
      var i :| 0 <= i < |sorted| && sorted[i] == [Str(u)];
      assert names[i] == u;
    }
  }

  /** Each account is listed once, in order. */
  lemma NamesAreTheAccounts(table: map<Text, Text>)
    ensures var names := SortedNames(table);
      && NoDuplicates(names) && (forall u :: u in names <==> u in table)
      && forall i, j :: 0 <= i < j < |names| ==> TextLe(names[i], names[j])
  {
    hide Ascending;
    hide SortedNames;
    var columns := set u | u in table :: [Str(u)];
    var sorted, names := Ascending(columns), SortedNames(table);
    NamesAreColumns(table);
    AscendingIsSorted(columns);
    forall i, j | 0 <= i < j < |names| ensures names[i] != names[j] && TextLe(names[i], names[j]) {
      assert ColumnsLe(sorted[i], sorted[j]) && sorted[i] != sorted[j];
    }
  }

  function ListUsernames(db: AdminDb, cur: Cursor): (AdminDb, seq<Text>) {
    if !db.isOpen then (db.(lastError := NOT_OPEN), [])
    else if cur.PrepareFails? then (db.(lastError := cur.msg), [])
    else (db, Collected(SortedNames(db.table), cur))
  }

  // ---- what a stored password means ----

  /** The passwords the table accepts for u, whatever the engine does. */
  predicate LogsIn(kdf: Kdf, table: map<Text, Text>, u: Text, q: Text) {
    u in table && if IsEncoded(table[u]) then Verify(kdf, q, table[u]) else q == table[u]
  }

  /** The name is looked up as bound, so a name followed by a NUL and anything else logs in like the name. */
  lemma LoginSucceedsWhenAccepted(kdf: Kdf, db: AdminDb, u: Text, q: Text, e: AdminEngine)
    ensures VerifyLogin(kdf, db, u, q, e).1 <==> db.isOpen && e.fetch && LogsIn(kdf, db.table, CString(u), q)
  {
  }

  /** Between two tables: every account but u is as it was. */
  ghost predicate OthersAlike(before: map<Text, Text>, after: map<Text, Text>, except: set<Text>) {
    forall v :: v !in except ==> (v in after <==> v in before) && (v in before ==> after[v] == before[v])
  }

  /**
   * A successful insert_or_replace: the account named by the text before a NUL accepts exactly the passwords whose
   * derivation equals the new one's, in particular the new password itself; a failed one changes no account.
   */
  lemma InsertedPasswordWorks(kdf: Kdf, db: AdminDb, u: Text, p: Text, e: AdminEngine)
    ensures var r := InsertAdmin(kdf, db, u, p, e);
      var name := CString(u);
      && (!r.1 ==> r.0.table == db.table)
      && (r.1 ==> name in r.0.table && OthersAlike(db.table, r.0.table, {name}))
      && (r.1 && !IsEncoded(p) ==> e.salt.Some? && LogsIn(kdf, r.0.table, name, p))
      && (r.1 && !IsEncoded(p) ==>
            forall q :: LogsIn(kdf, r.0.table, name, q) <==>
                kdf(q, e.salt.value, ITERATIONS) == kdf(p, e.salt.value, ITERATIONS))
      && (r.1 && IsEncoded(p) ==> forall q :: LogsIn(kdf, r.0.table, name, q) <==> Verify(kdf, q, CString(p)))
  {
    var r := InsertAdmin(kdf, db, u, p, e);
    hide Verify;
    hide Make;
    hide IsEncoded;
    if r.1 && IsEncoded(p) {
      CutStaysEncoded(p);
    } else if r.1 {
      MadeEntryWorks(kdf, p, e.salt);
    }
  }

  /** An entry made from p, as it is bound. */
  lemma MadeEntryWorks(kdf: Kdf, p: Text, salt: Option<Salt>)
    requires Make(kdf, p, ITERATIONS, salt) != []
    ensures salt.Some? && CString(Make(kdf, p, ITERATIONS, salt)) == Make(kdf, p, ITERATIONS, salt)
    ensures IsEncoded(Make(kdf, p, ITERATIONS, salt))
    ensures forall q ::
      Verify(kdf, q, Make(kdf, p, ITERATIONS, salt)) <==>
        kdf(q, salt.value, ITERATIONS) == kdf(p, salt.value, ITERATIONS)
  {
    assert salt.Some? && kdf(p, salt.value, ITERATIONS).Some?;
    hide Verify;
    hide Make;
    MakeHasNoNul(kdf, p, ITERATIONS, salt);
    MakeIsEncoded(kdf, p, ITERATIONS, salt);
    forall q
      ensures Verify(kdf, q, Make(kdf, p, ITERATIONS, salt)) <==>
        kdf(q, salt.value, ITERATIONS) == kdf(p, salt.value, ITERATIONS)
    {
      VerifyOfMake(kdf, p, q, ITERATIONS, salt.value);
    }
  }

  /** Replacing a plain-text entry by its encoding. */
  lemma UpgradeKeepsLogins(kdf: Kdf, table: map<Text, Text>, u: Text, p: Text, salt: Option<Salt>)
    requires u in table && table[u] == p && !IsEncoded(p) && Make(kdf, p, ITERATIONS, salt) != []
    ensures var after := table[u := CString(Make(kdf, p, ITERATIONS, salt))];
      IsEncoded(after[u]) && forall v, q :: LogsIn(kdf, table, v, q) ==> LogsIn(kdf, after, v, q)
  {
    hide Verify;
    hide Make;
    hide IsEncoded;
    MadeEntryWorks(kdf, p, salt);
  }

  /**
   * A login never locks anyone out: the accounts stay the same, a plain-text entry equal to the given password is
   * re-encoded exactly when hashing and writing work, and every password accepted before is accepted after.
   */
  lemma LoginKeepsLogins(kdf: Kdf, db: AdminDb, u: Text, p: Text, e: AdminEngine)
    ensures var after := VerifyLogin(kdf, db, u, p, e).0.table;
      var name := CString(u);
      && after.Keys == db.table.Keys
      && OthersAlike(db.table, after, {name})
      && (after != db.table ==> name in db.table && db.table[name] == p && !IsEncoded(p) && IsEncoded(after[name]))
      && (after != db.table <==>
            && db.isOpen && e.fetch && name in db.table && db.table[name] == p && !IsEncoded(p)
            && Make(kdf, p, ITERATIONS, e.salt) != [] && e.write.Done?)
      && forall v, q :: LogsIn(kdf, db.table, v, q) ==> LogsIn(kdf, after, v, q)
  {
    hide Verify;
    hide Make;
    hide IsEncoded;
    var after := VerifyLogin(kdf, db, u, p, e).0.table;
    if after != db.table {
      assert after == db.table[CString(u) := CString(Make(kdf, p, ITERATIONS, e.salt))]
          && Make(kdf, p, ITERATIONS, e.salt) != [];
      UpgradeKeepsLogins(kdf, db.table, CString(u), p, e.salt);
    }
    if Make(kdf, p, ITERATIONS, e.salt) != [] { MadeEntryWorks(kdf, p, e.salt); }
  }

  lemma RenamedTable(table: map<Text, Text>, a: Text, b: Text)
    requires a in table && (b !in table || a == b)
    ensures var after := (table - {a})[b := table[a]];
      && |after| == |table| && OthersAlike(table, after, {a, b})
      && b in after && after[b] == table[a] && (a != b ==> a !in after)
  {
    var after := (table - {a})[b := table[a]];
    assert after.Keys == table.Keys - {a} + {b};
    assert |after.Keys| == |table.Keys|;
    assert |after| == |after.Keys| && |table| == |table.Keys|;
  }

  /**
   * rename to a different name: succeeds exactly when the old name exists, the new one does not (or is the same up to
   * a NUL and not seen to exist) and no statement fails; then the new name takes over the old one's stored password,
   * and so exactly its logins, and nobody else is touched.
   */
  lemma RenameTransfersLogins(kdf: Kdf, db: AdminDb, oldName: Text, newName: Text, e: AdminEngine)
    requires oldName != newName
    ensures var r := Rename(db, oldName, newName, e);
      var a, b := CString(oldName), CString(newName);
      && (r.1 <==> RenameDone(db, oldName, newName, e))
      && (!r.1 ==> r.0.table == db.table)
      && (r.1 ==> (a != b ==> a !in r.0.table) && |r.0.table| == |db.table| && OthersAlike(db.table, r.0.table, {a, b}))
      && (r.1 ==> forall q :: LogsIn(kdf, r.0.table, b, q) <==> LogsIn(kdf, db.table, a, q))
  {
    hide IsEncoded;
    hide Verify;
    hide CString;
    var r := Rename(db, oldName, newName, e);
    if r.1 {
      RenamedTable(db.table, CString(oldName), CString(newName));
    }
    hide OthersAlike;
  }

  lemma RemoveTakesOne(kdf: Kdf, db: AdminDb, u: Text, e: AdminEngine)
    ensures var r := RemoveAdmin(db, u, e);
      && (r.1 <==> db.isOpen && e.write.Done? && CString(u) in db.table)
      && (!r.1 ==> r.0.table == db.table)
      && (r.1 ==> CString(u) !in r.0.table && OthersAlike(db.table, r.0.table, {CString(u)}))
  {
  }

  /** Which text a failed call leaves: the connection's, the call's own, the engine's, or the one from before. */
  lemma FailuresAreNamed(kdf: Kdf, db: AdminDb, u: Text, v: Text, p: Text, e: AdminEngine)
    ensures var r := InsertAdmin(kdf, db, u, p, e);
      !r.1 ==> r.0.lastError == (if !db.isOpen then Ascii("Database is not open.")
                                 else if ToStore(kdf, p, e.salt) == [] then Ascii("Failed to hash password.")
                                 else e.write.msg)
    ensures var r := Rename(db, u, v, e);
      !r.1 ==> r.0.lastError == (if !db.isOpen then Ascii("Database is not open.")
                                 else if !e.existsOld || CString(u) !in db.table then Ascii("Old username not found.")
                                 else if e.existsNew && CString(v) in db.table then Ascii("New username already taken.")
                                 else if e.write.PrepareFailed? then e.write.msg else db.lastError)
    ensures var r := RemoveAdmin(db, u, e);
      !r.1 ==> r.0.lastError == (if !db.isOpen then Ascii("Database is not open.")
                                 else if e.write.PrepareFailed? then e.write.msg
                                 else if e.write.Done? then Ascii("Username not found.") else db.lastError)
  {
    hide ToStore;
    hide CString;
    hide Ascii;
  }

  // ---- the account injected at start-up ----

  const DEFAULT_NAME := Ascii("admin")
  const DEFAULT_PASSWORD := Ascii("admin123")

  function StartUp(kdf: Kdf, db: AdminDb, e1: AdminEngine, e2: AdminEngine): AdminDb {
    var r := VerifyLogin(kdf, db, DEFAULT_NAME, DEFAULT_PASSWORD, e1);
    if r.1 then r.0 else InsertAdmin(kdf, r.0, DEFAULT_NAME, DEFAULT_PASSWORD, e2).0
  }

  lemma DefaultNameIsPlain()
    ensures CString(DEFAULT_NAME) == DEFAULT_NAME
  {
    assert forall i :: 0 <= i < |DEFAULT_NAME| ==> DEFAULT_NAME[i] as int == "admin"[i] as int;
  }

  /** Starting up touches no account but the default one, locks nobody out, and adds that account at most. */
  lemma StartUpKeepsOthers(kdf: Kdf, db: AdminDb, e1: AdminEngine, e2: AdminEngine)
    ensures var after := StartUp(kdf, db, e1, e2).table;
      && OthersAlike(db.table, after, {Ascii("admin")})
      && (after.Keys == db.table.Keys || after.Keys == db.table.Keys + {Ascii("admin")})
      && (e1.fetch && db.isOpen && LogsIn(kdf, db.table, Ascii("admin"), Ascii("admin123")) ==>
            after.Keys == db.table.Keys && forall v, q :: LogsIn(kdf, db.table, v, q) ==> LogsIn(kdf, after, v, q))
  {
    DefaultNameIsPlain();
    var r := VerifyLogin(kdf, db, DEFAULT_NAME, DEFAULT_PASSWORD, e1);
    LoginKeepsLogins(kdf, db, DEFAULT_NAME, DEFAULT_PASSWORD, e1);
    LoginSucceedsWhenAccepted(kdf, db, DEFAULT_NAME, DEFAULT_PASSWORD, e1);
    InsertedPasswordWorks(kdf, r.0, DEFAULT_NAME, DEFAULT_PASSWORD, e2);
    InsertAddsName(kdf, r.0, DEFAULT_NAME, DEFAULT_PASSWORD, e2);
    hide VerifyLogin;
    hide InsertAdmin;
    hide LogsIn;
    hide Verify;
    hide CString;
    hide Ascii;
  }

  lemma InsertAddsName(kdf: Kdf, db: AdminDb, u: Text, p: Text, e: AdminEngine)
    ensures var after := InsertAdmin(kdf, db, u, p, e).0.table.Keys;
      after == db.table.Keys || after == db.table.Keys + {CString(u)}
  {
    hide ToStore;
    hide CString;
  }

  /** If hashing and writing work, the server starts with a non-empty table in which the default login succeeds. */
  lemma StartUpLeavesAnAccount(kdf: Kdf, db: AdminDb, e1: AdminEngine, e2: AdminEngine)
    requires db.isOpen && e2.write.Done? && e2.salt.Some? && kdf(DEFAULT_PASSWORD, e2.salt.value, ITERATIONS).Some?
    ensures var after := StartUp(kdf, db, e1, e2);
      after.isOpen && after.table != map[] && LogsIn(kdf, after.table, DEFAULT_NAME, DEFAULT_PASSWORD)
  {
    DefaultNameIsPlain();
    hide CString;
    var r := VerifyLogin(kdf, db, DEFAULT_NAME, DEFAULT_PASSWORD, e1);
    LoginKeepsLogins(kdf, db, DEFAULT_NAME, DEFAULT_PASSWORD, e1);
    LoginSucceedsWhenAccepted(kdf, db, DEFAULT_NAME, DEFAULT_PASSWORD, e1);
    if !r.1 {
      assert DEFAULT_PASSWORD[0] as int == 'a' as int && PREFIX[0] as int == 'p' as int;
      assert !IsEncoded(DEFAULT_PASSWORD);
      InsertedPasswordWorks(kdf, r.0, DEFAULT_NAME, DEFAULT_PASSWORD, e2);
    }
    assert DEFAULT_NAME in StartUp(kdf, db, e1, e2).table;
  }
}
