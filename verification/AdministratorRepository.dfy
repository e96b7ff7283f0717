/** AdministratorRepository: the connection that holds the administrators table. */
module AdministratorStore {
  import opened Bytes
  import opened PasswordHash
  import opened CourseTables
  import opened CourseStore
  import opened Administrators

  class AdministratorRepository {
    const kdf: Kdf
    var isOpen: bool
    var table: map<Text, Text>
    var lastError: Text

    function State(): AdminDb reads this { AdminDb(isOpen, table, lastError) }

    constructor (kdf: Kdf, isOpen: bool, table: map<Text, Text>)
      ensures this.kdf == kdf && State() == AdminDb(isOpen, table, [])
    {
      this.kdf, this.isOpen, this.table, this.lastError := kdf, isOpen, table, [];
    }

    method Close()
      modifies `isOpen
      ensures State() == old(State()).(isOpen := false)
    {
      isOpen := false;
    }

    method FetchPassword(username: Text, probe: bool) returns (found: bool, out: Text)
      ensures found <==> probe && CString(username) in table
      ensures found ==> out == table[CString(username)]
    {
      if !probe || CString(username) !in table { return false, []; }
      return true, table[CString(username)];
    }

    method WritePassword(username: Text, encoded: Text, o: Outcome) returns (ok: bool)
      modifies `table
      ensures ok == o.Done?
      ensures table == if ok && CString(username) in old(table) then old(table)[CString(username) := CString(encoded)]
          else old(table)
    {
      if !o.Done? { return false; }
      if CString(username) in table { table := table[CString(username) := CString(encoded)]; }
      return true;
    }

    method InsertOrReplace(username: Text, password: Text, e: AdminEngine) returns (ok: bool)
      modifies this
      ensures (State(), ok) == InsertAdmin(kdf, old(State()), username, password, e)
    {
      if !isOpen { lastError := NOT_OPEN; return false; }
      var stored := password;
      if !IsEncoded(password) { stored := MakeEncoding(kdf, password, ITERATIONS, e.salt); }
      if stored == [] { lastError := HASH_FAILED; return false; }
      if !e.write.Done? { lastError := e.write.msg; return false; }
      table := table[CString(username) := CString(stored)];
      return true;
    }

    /**
     * A plain-text entry that matches is replaced by its encoding; if that cannot be written the login still counts.
     */
    method VerifyLogin(username: Text, password: Text, e: AdminEngine) returns (ok: bool)
      modifies this
      ensures (State(), ok) == Administrators.VerifyLogin(kdf, old(State()), username, password, e)
    {
      if !isOpen { lastError := NOT_OPEN; return false; }
      var found, stored := FetchPassword(username, e.fetch);
      if !found { return false; }
      if IsEncoded(stored) {
        ok := VerifyEncoding(kdf, password, stored);
        return;
      }
      if stored == password {
        var upgraded := MakeEncoding(kdf, password, ITERATIONS, e.salt);
        if upgraded != [] {
          var written := WritePassword(username, upgraded, e.write);
        }
        return true;
      }
      return false;
    }

    method ListUsernames(cur: Cursor) returns (out: seq<Text>)
      modifies `lastError
      ensures (State(), out) == Administrators.ListUsernames(old(State()), cur)
    {
      hide SortedNames;
      out := [];
      if !isOpen { lastError := NOT_OPEN; return; }
      if cur.PrepareFails? { lastError := cur.msg; return; }
      var names := SortedNames(table);
      var i := 0;
      while i < |names| && !(cur.BreaksAfter? && i == cur.n)
        invariant 0 <= i <= |names| && out == names[..i]
        invariant cur.BreaksAfter? ==> i <= cur.n
      {
        out := out + [names[i]];
        i := i + 1;
      }
      assert names[..|names|] == names;
    }

    method HasAccount(username: Text, probe: bool) returns (found: bool)
      ensures found == Exists(State(), username, probe)
    {
      if !isOpen { return false; }
      if !probe { return false; }
      found := CString(username) in table;
    }

    method Rename(oldName: Text, newName: Text, e: AdminEngine) returns (ok: bool)
      modifies this
      ensures (State(), ok) == Administrators.Rename(old(State()), oldName, newName, e)
    {
      if !isOpen { lastError := NOT_OPEN; return false; }
      if oldName == newName { return true; }
      var present := HasAccount(oldName, e.existsOld);
      if !present { lastError := OLD_NOT_FOUND; return false; }
      var taken := HasAccount(newName, e.existsNew);
      if taken { lastError := NEW_TAKEN; return false; }
      if e.write.PrepareFailed? { lastError := e.write.msg; return false; }
      if !e.write.Done? { return false; }
      var a, b := CString(oldName), CString(newName);
      if b in table && b != a { return false; }
      table := (table - {a})[b := table[a]];
      return true;
    }

    method Remove(username: Text, e: AdminEngine) returns (ok: bool)
      modifies this
      ensures (State(), ok) == RemoveAdmin(old(State()), username, e)
    {
      if !isOpen { lastError := NOT_OPEN; return false; }
      if e.write.PrepareFailed? { lastError := e.write.msg; return false; }
      var name := CString(username);
      assert name !in table ==> table - {name} == table;
      var changes := if e.write.Done? && name in table then 1 else 0;
      if e.write.Done? { table := table - {name}; }
      if !e.write.Done? { return false; }
      if changes == 0 { lastError := NOT_FOUND; return false; }
      return true;
    }
  }
}
