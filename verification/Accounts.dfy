/** User accounts: batch import, registration, profile updates and the rules that
    keep addresses unique and an administrator active (internal/auth/import.go,
    internal/auth/service.go, internal/repository/sqlite/store.go). */
module Accounts {
  import opened Domain

  datatype Account = Account(username: string, email: string, password: string, administrator: bool, disabled: bool, mustChange: bool)

  type Users = map<string, Account>

  // ---------------------------------------------------------------------
  // Names and addresses

  function NormalizeUsername(value: string): string {
    Lower(Trim(value))
  }

  predicate ValidUsername(value: string) {
    && 3 <= |value| <= 64
    && (forall i :: 0 <= i < |value| ==>
          ('a' <= value[i] <= 'z') || ('0' <= value[i] <= '9') || (i > 0 && value[i] in {'.', '_', '-'}))
  }

  predicate ValidDisplayName(value: string) {
    |Trim(value)| <= 120
  }

  /** `addressOk` is what the mail address parser accepts unchanged. */
  predicate ValidEmail(value: string, addressOk: string -> bool) {
    Trim(value) == "" || (addressOk(Trim(value)) && |Trim(value)| <= 254)
  }

  ghost predicate HasEmail(users: Users, id: string, email: string) {
    id in users && Lower(users[id].email) == Lower(email)
  }

  /** Nobody but `id` has this address, in whatever case. */
  ghost predicate EmailFree(users: Users, email: string, id: string) {
    forall other :: HasEmail(users, other, email) ==> other == id
  }

  /** A lookup of the address, which finds some account that has it, can come back
      with nobody or with `id`. */
  ghost predicate CanPass(users: Users, email: string, id: string) {
    HasEmail(users, id, email) || forall other :: !HasEmail(users, other, email)
  }

  /** While addresses are unique the lookup tells whether the address is free. */
  lemma CanPassIffFree(users: Users, email: string, id: string)
    requires EmailsUnique(users) && email != ""
    ensures CanPass(users, email, id) <==> EmailFree(users, email, id)
  {
    if HasEmail(users, id, email) {
      assert |Lower(users[id].email)| == |email|;
    }
  }

  /** No address belongs to two accounts; the empty one is no address. */
  ghost predicate EmailsUnique(users: Users) {
    forall a, b :: a in users && b in users && a != b && users[a].email != "" ==> Lower(users[a].email) != Lower(users[b].email)
  }

  ghost predicate NamesUnique(users: Users) {
    forall a, b :: a in users && b in users && a != b ==> users[a].username != users[b].username
  }

  ghost predicate HasUsername(users: Users, id: string, username: string) {
    id in users && users[id].username == username
  }

  /** The account an import row targets; "" is the one still to be created. */
  ghost function Target(users: Users, username: string): string {
    if exists id :: HasUsername(users, id, username) then var id :| HasUsername(users, id, username); id else ""
  }

  ghost predicate Known(users: Users, username: string) {
    exists id :: HasUsername(users, id, username)
  }

  predicate Tight(s: string) {
    s == "" || (!IsSpace(s[0]) && !IsSpace(s[|s| - 1]))
  }

  lemma {:induction false} TrimLeftStarts(s: string)
    ensures TrimLeft(s) == "" || !IsSpace(TrimLeft(s)[0])
  {
    if s != "" && IsSpace(s[0]) {
      TrimLeftStarts(s[1..]);
    }
  }

  lemma {:induction false} TrimRightEnds(s: string)
    ensures TrimRight(s) == "" || (|TrimRight(s)| <= |s| && TrimRight(s)[0] == s[0] && !IsSpace(TrimRight(s)[|TrimRight(s)| - 1]))
  {
    if s != "" && IsSpace(s[|s| - 1]) {
      TrimRightEnds(s[..|s| - 1]);
    }
  }

  lemma TrimIsTight(s: string)
    ensures Tight(Trim(s))
  {
    TrimLeftStarts(s);
    TrimRightEnds(TrimLeft(s));
  }

  lemma TightIsTrimmed(s: string)
    requires Tight(s)
    ensures Trim(s) == s && Trim(Lower(s)) == Lower(s)
  {
  }

  // ---------------------------------------------------------------------
  // Checks of one row and of a batch

  datatype ImportRow = ImportRow(username: string, email: string, displayName: string)

  predicate RowValid(row: ImportRow, addressOk: string -> bool) {
    ValidUsername(NormalizeUsername(row.username)) && ValidEmail(row.email, addressOk) && ValidDisplayName(row.displayName)
  }

  function RowEmail(row: ImportRow): string {
    Lower(Trim(row.email))
  }

  /** No two rows give the same address. */
  ghost predicate AddressesDistinct(rows: seq<ImportRow>) {
    forall i, j :: 0 <= i < j < |rows| && RowEmail(rows[i]) != "" ==> RowEmail(rows[i]) != RowEmail(rows[j])
  }

  ghost predicate UsernamesDistinct(rows: seq<ImportRow>) {
    forall i, j :: 0 <= i < j < |rows| ==> NormalizeUsername(rows[i].username) != NormalizeUsername(rows[j].username)
  }

  /** What the batch itself must satisfy, whoever is in the store. */
  ghost predicate RowsValid(rows: seq<ImportRow>, addressOk: string -> bool) {
    && 0 < |rows| <= 1000 && (forall i :: 0 <= i < |rows| ==> RowValid(rows[i], addressOk))
    && UsernamesDistinct(rows) && AddressesDistinct(rows)
  }

  ghost predicate RowPasses(users: Users, row: ImportRow) {
    RowEmail(row) != "" ==> CanPass(users, RowEmail(row), Target(users, NormalizeUsername(row.username)))
  }

  /** What validateImportInputs lets through. */
  ghost predicate Importable(users: Users, rows: seq<ImportRow>, addressOk: string -> bool) {
    RowsValid(rows, addressOk) && forall i :: 0 <= i < |rows| ==> RowPasses(users, rows[i])
  }

  /** What prepareUser accepts for a new account. */
  ghost predicate Creatable(users: Users, row: ImportRow, addressOk: string -> bool) {
    RowValid(row, addressOk) && !Known(users, NormalizeUsername(row.username)) && (Trim(row.email) != "" ==> CanPass(users, Trim(row.email), ""))
  }

  ghost predicate ProfileAllowed(users: Users, actor: string, target: string, email: string, addressOk: string -> bool) {
    && MayAdminister(users, actor) && target in users && ValidEmail(email, addressOk)
    && (Trim(email) != "" ==> CanPass(users, Trim(email), target))
  }

  // ---------------------------------------------------------------------
  // Who may do what

  predicate ActiveAdministrator(users: Users, id: string) {
    id in users && users[id].administrator && !users[id].disabled
  }

  /** requireAdministrator. */
  predicate MayAdminister(users: Users, actor: string) {
    ActiveAdministrator(users, actor) && !users[actor].mustChange
  }

  ghost predicate SomeAdministrator(users: Users) {
    exists id :: ActiveAdministrator(users, id)
  }

  predicate DisableAllowed(users: Users, actor: string, target: string, disabled: bool) {
    MayAdminister(users, actor) && target in users && !(actor == target && disabled)
  }

  predicate DeleteAllowed(users: Users, actor: string, target: string, ownsWorkspaces: bool) {
    MayAdminister(users, actor) && actor != target && target in users && users[target].disabled && !ownsWorkspaces
  }

  /** What the table's constraints guarantee. */
  ghost predicate Keyed(users: Users) {
    NamesUnique(users) && "" !in users
  }

  // ---------------------------------------------------------------------
  // What a batch commits

  /** One entry of the import transaction, prepared before it begins. */
  datatype Entry = Add(id: string, account: Account) | Readdress(id: string, email: string)

  function EntryEmail(e: Entry): string {
    if e.Add? then e.account.email else e.email
  }

  function NewAccount(row: ImportRow, password: string): Account {
    Account(NormalizeUsername(row.username), Trim(row.email), password, false, false, true)
  }

  ghost function PlannedEntry(users: Users, row: ImportRow, id: string, password: string): Entry {
    var username := NormalizeUsername(row.username);
    if Known(users, username) then Readdress(Target(users, username), Trim(row.email)) else Add(id, NewAccount(row, password))
  }

  ghost function Planned(users: Users, rows: seq<ImportRow>, ids: seq<string>, passwords: seq<string>): seq<Entry>
    requires |ids| == |passwords| == |rows|
  {
    seq(|rows|, i requires 0 <= i < |rows| => PlannedEntry(users, rows[i], ids[i], passwords[i]))
  }

  /** The primary key and the unique username, or a row to update. */
  ghost predicate Storable(users: Users, e: Entry) {
    if e.Add? then e.id !in users && !Known(users, e.account.username) else e.id in users
  }

  function Stored(users: Users, e: Entry): Users
    requires e.Readdress? ==> e.id in users
  {
    if e.Add? then users[e.id := e.account]
    else if e.email == "" then users
    else users[e.id := users[e.id].(email := e.email)]
  }

  /** The transaction: every entry in turn, or nothing. */
  ghost function Batch(users: Users, entries: seq<Entry>): Option<Users> {
    if entries == [] then Some(users)
    else
      var before := Batch(users, entries[..|entries| - 1]);
      var e := entries[|entries| - 1];
      if before.Some? && Storable(before.value, e) then Some(Stored(before.value, e)) else None
  }

  ghost function Names(rows: seq<ImportRow>, n: nat): set<string>
    requires n <= |rows|
  {
    set i | 0 <= i < n :: NormalizeUsername(rows[i].username)
  }

  ghost function Addresses(rows: seq<ImportRow>, n: nat): set<string>
    requires n <= |rows|
  {
    set i | 0 <= i < n && RowEmail(rows[i]) != "" :: RowEmail(rows[i])
  }

  /** Row `i` is valid and repeats nothing of the rows before it. */
  ghost predicate RowNovel(rows: seq<ImportRow>, i: nat, addressOk: string -> bool)
    requires i < |rows|
  {
    && RowValid(rows[i], addressOk) && NormalizeUsername(rows[i].username) !in Names(rows, i)
    && RowEmail(rows[i]) !in Addresses(rows, i)
  }

  lemma SeenGrows(rows: seq<ImportRow>, n: nat)
    requires n < |rows|
    ensures Names(rows, n + 1) == Names(rows, n) + {NormalizeUsername(rows[n].username)}
    ensures Addresses(rows, n + 1) == if RowEmail(rows[n]) != "" then Addresses(rows, n) + {RowEmail(rows[n])} else Addresses(rows, n)
  {
  }

  lemma ValidRowsAreNovel(rows: seq<ImportRow>, i: nat, addressOk: string -> bool)
    requires RowsValid(rows, addressOk) && i < |rows|
    ensures RowNovel(rows, i, addressOk)
  {
  }

  /** Checking row after row decides the conditions on the whole batch. */
  lemma NovelRowsAreValid(rows: seq<ImportRow>, addressOk: string -> bool)
    requires 0 < |rows| <= 1000 && forall i :: 0 <= i < |rows| ==> RowNovel(rows, i, addressOk)
    ensures RowsValid(rows, addressOk)
  {
    forall i | 0 <= i < |rows| ensures RowValid(rows[i], addressOk) {
      assert RowNovel(rows, i, addressOk);
    }
    forall i, j | 0 <= i < j < |rows|
      ensures NormalizeUsername(rows[i].username) != NormalizeUsername(rows[j].username)
      ensures RowEmail(rows[i]) != "" ==> RowEmail(rows[i]) != RowEmail(rows[j])
    {
      assert RowNovel(rows, j, addressOk);
      assert NormalizeUsername(rows[i].username) in Names(rows, j);
      assert RowEmail(rows[i]) != "" ==> RowEmail(rows[i]) in Addresses(rows, j);
    }
  }

  lemma LowerTrims(email: string)
    ensures Trim(Lower(Trim(email))) == Lower(Trim(email)) && Lower(Lower(Trim(email))) == Lower(Trim(email))
  {
    TrimIsTight(email);
    TightIsTrimmed(Trim(email));
    LowerTwice(Trim(email));
  }

  lemma AtLeastTwo(s: set<string>, a: string, b: string)
    requires a in s && b in s && a != b
    ensures |s| >= 2
  {
    assert s == {a, b} + (s - {a, b});
  }

  // ---------------------------------------------------------------------
  // The service's checks and the store's statements. No lock spans the two: other
  // requests may write between a check and the statement that follows it.

  class AccountStore {
    var users: Users

    constructor ()
      ensures users == map[]
    {
      users := map[];
    }

    /** FindUserByEmail compares lower-cased. */
    method FindByEmail(email: string) returns (found: Option<string>)
      ensures found.Some? ==> HasEmail(users, found.value, email)
      ensures found.None? ==> forall id :: !HasEmail(users, id, email)
    {
      var todo := users.Keys;
      while todo != {}
        invariant todo <= users.Keys
        invariant forall id :: id in users && id !in todo ==> Lower(users[id].email) != Lower(email)
        decreases todo
      {
        var id :| id in todo;
        if Lower(users[id].email) == Lower(email) {
          return Some(id);
        }
        todo := todo - {id};
      }
      return None;
    }

    method FindByUsername(username: string) returns (found: Option<string>)
      ensures found.Some? ==> HasUsername(users, found.value, username)
      ensures found.None? ==> !Known(users, username)
    {
      var todo := users.Keys;
      while todo != {}
        invariant todo <= users.Keys
        invariant forall id :: id in users && id !in todo ==> users[id].username != username
        decreases todo
      {
        var id :| id in todo;
        if users[id].username == username {
          return Some(id);
        }
        todo := todo - {id};
      }
      return None;
    }

    /** emailAvailable: unused, or the account's own. It decides whether an address
        is free as long as no address is held twice. */
    method EmailAvailable(email: string, id: string) returns (available: bool)
      ensures available ==> Trim(email) == "" || CanPass(users, Trim(email), id)
      ensures EmailsUnique(users) ==> (available <==> Trim(email) == "" || EmailFree(users, Trim(email), id))
    {
      if Trim(email) == "" {
        return true;
      }
      var found := FindByEmail(Trim(email));
      if EmailsUnique(users) {
        CanPassIffFree(users, Trim(email), id);
      }
      return found.None? || found.value == id;
    }

    method TargetOf(username: string) returns (target: string)
      requires Keyed(users)
      ensures target == Target(users, username) && (target != "" <==> Known(users, username))
    {
      var found := FindByUsername(username);
      if found.Some? {
        assert forall id :: HasUsername(users, id, username) ==> id == found.value;
        return found.value;
      }
      return "";
    }

    /** The row's address is blank or free for the account the row targets. */
    method RowAvailable(row: ImportRow) returns (available: bool)
      requires Keyed(users)
      ensures available ==> RowPasses(users, row)
      ensures EmailsUnique(users) ==> (available <==> RowPasses(users, row))
    {
      var target := TargetOf(NormalizeUsername(row.username));
      LowerTrims(row.email);
      if EmailsUnique(users) && RowEmail(row) != "" {
        CanPassIffFree(users, RowEmail(row), target);
      }
      available := EmailAvailable(RowEmail(row), target);
    }

    method ValidateImportInputs(rows: seq<ImportRow>, addressOk: string -> bool) returns (ok: bool)
      requires Keyed(users)
      ensures ok ==> Importable(users, rows, addressOk)
      ensures EmailsUnique(users) ==> (ok <==> Importable(users, rows, addressOk))
    {
      if |rows| == 0 || |rows| > 1000 {
        return false;
      }
      var seenUsers: set<string>, seenEmails: set<string> := {}, {};
      for i := 0 to |rows|
        invariant seenUsers == Names(rows, i) && seenEmails == Addresses(rows, i)
        invariant forall k :: 0 <= k < i ==> RowNovel(rows, k, addressOk)
        invariant forall k :: 0 <= k < i ==> RowPasses(users, rows[k])
      {
        if RowsValid(rows, addressOk) {
          ValidRowsAreNovel(rows, i, addressOk);
        }
        var passes := CheckRow(rows, i, seenUsers, seenEmails, addressOk);
        if !passes {
          return false;
        }
        SeenGrows(rows, i);
        seenUsers := seenUsers + {NormalizeUsername(rows[i].username)};
        seenEmails := if RowEmail(rows[i]) != "" then seenEmails + {RowEmail(rows[i])} else seenEmails;
      }
      NovelRowsAreValid(rows, addressOk);
      return true;
    }

    method CheckRow(rows: seq<ImportRow>, i: nat, seenUsers: set<string>, seenEmails: set<string>,
                    addressOk: string -> bool) returns (ok: bool)
      requires Keyed(users) && i < |rows| && seenUsers == Names(rows, i) && seenEmails == Addresses(rows, i)
      ensures ok ==> RowNovel(rows, i, addressOk) && RowPasses(users, rows[i])
      ensures EmailsUnique(users) ==> (ok <==> RowNovel(rows, i, addressOk) && RowPasses(users, rows[i]))
    {
      if !RowValid(rows[i], addressOk) || NormalizeUsername(rows[i].username) in seenUsers {
        return false;
      }
      if RowEmail(rows[i]) == "" {
        return true;
      }
      if RowEmail(rows[i]) in seenEmails {
        return false;
      }
      ok := RowAvailable(rows[i]);
    }

    /** The first half of an import: the batch as it will be committed. */
    method PlanImport(actor: string, rows: seq<ImportRow>, ids: seq<string>, passwords: seq<string>,
                      addressOk: string -> bool)
      returns (plan: Option<seq<Entry>>)
      requires Keyed(users) && |ids| == |passwords| == |rows|
      ensures plan.Some? ==> MayAdminister(users, actor) && Importable(users, rows, addressOk) && plan.value == Planned(users, rows, ids, passwords)
      ensures EmailsUnique(users) ==> (plan.Some? <==> MayAdminister(users, actor) && Importable(users, rows, addressOk))
    {
      if !MayAdminister(users, actor) {
        return None;
      }
      var valid := ValidateImportInputs(rows, addressOk);
      if !valid {
        return None;
      }
      var entries := [];
      for i := 0 to |rows|
        invariant |entries| == i && entries == Planned(users, rows, ids, passwords)[..i]
      {
        var username := NormalizeUsername(rows[i].username);
        var target := TargetOf(username);
        var entry := if target != "" then Readdress(target, Trim(rows[i].email)) else Add(ids[i], NewAccount(rows[i], passwords[i]));
        entries := entries + [entry];
      }
      return Some(entries);
    }

    /** The store's ImportUsers: rolled back as a whole when an entry fails. */
    method ImportUsers(entries: seq<Entry>) returns (ok: bool)
      modifies this
      ensures ok <==> Batch(old(users), entries).Some?
      ensures users == if ok then Batch(old(users), entries).value else old(users)
    {
      var before := users;
      for i := 0 to |entries|
        invariant Batch(before, entries[..i]) == Some(users)
      {
        assert entries[..i + 1][..i] == entries[..i];
        var stored := Store(entries[i]);
        if !stored {
          BatchFails(before, entries, i + 1);
          users := before;
          return false;
        }
      }
      assert entries[..|entries|] == entries;
      return true;
    }

    /** One INSERT or UPDATE of the transaction. */
    method Store(e: Entry) returns (ok: bool)
      modifies this
      ensures ok <==> Storable(old(users), e)
      ensures users == if ok then Stored(old(users), e) else old(users)
    {
      if e.Add? {
        var taken := FindByUsername(e.account.username);
        if e.id in users || taken.Some? {
          assert taken.Some? ==> Known(users, e.account.username);
          return false;
        }
        users := users[e.id := e.account];
      } else {
        if e.id !in users {
          return false;
        }
        if e.email != "" {
          users := users[e.id := users[e.id].(email := e.email)];
        }
      }
      return true;
    }

    /** prepareUser. */
    method PrepareUser(row: ImportRow, addressOk: string -> bool) returns (ok: bool)
      requires Keyed(users)
      ensures ok ==> Creatable(users, row, addressOk)
      ensures EmailsUnique(users) ==> (ok <==> Creatable(users, row, addressOk))
    {
      if !RowValid(row, addressOk) {
        return false;
      }
      var existing := FindByUsername(NormalizeUsername(row.username));
      if existing.Some? {
        assert Known(users, NormalizeUsername(row.username));
        return false;
      }
      if EmailsUnique(users) && Trim(row.email) != "" {
        CanPassIffFree(users, Trim(row.email), "");
      }
      ok := EmailAvailable(row.email, "");
    }

    /** UpdateUserProfile up to the store's update. */
    method CheckProfile(actor: string, target: string, email: string, addressOk: string -> bool) returns (ok: bool)
      ensures ok ==> ProfileAllowed(users, actor, target, email, addressOk)
      ensures EmailsUnique(users) ==> (ok <==> ProfileAllowed(users, actor, target, email, addressOk))
    {
      if !MayAdminister(users, actor) || target !in users || !ValidEmail(email, addressOk) {
        return false;
      }
      if EmailsUnique(users) && Trim(email) != "" {
        CanPassIffFree(users, Trim(email), target);
      }
      ok := EmailAvailable(email, target);
    }

    method StoreProfile(target: string, email: string) returns (found: bool)
      modifies this
      ensures found == (target in old(users))
      ensures users == if found then old(users)[target := old(users)[target].(email := email)] else old(users)
    {
      found := target in users;
      if found {
        users := users[target := users[target].(email := email)];
      }
    }

    /** SetUserDisabled up to the store's update: an active administrator who is not
        the target is left, so the count decides nothing. */
    method CheckDisable(actor: string, target: string, disabled: bool) returns (ok: bool)
      ensures ok <==> DisableAllowed(users, actor, target, disabled)
    {
      if !MayAdminister(users, actor) || (actor == target && disabled) || target !in users {
        return false;
      }
      if disabled && users[target].administrator && !users[target].disabled {
        var active := set id | id in users && ActiveAdministrator(users, id);
        assert {actor, target} <= active;
        AtLeastTwo(active, actor, target);
        if |active| <= 1 {
          return false;
        }
      }
      return true;
    }

    method StoreDisabled(target: string, disabled: bool) returns (found: bool)
      modifies this
      ensures found == (target in old(users))
      ensures users == if found then old(users)[target := old(users)[target].(disabled := disabled)] else old(users)
    {
      found := target in users;
      if found {
        users := users[target := users[target].(disabled := disabled)];
      }
    }

    method CheckDelete(actor: string, target: string, ownsWorkspaces: bool) returns (ok: bool)
      ensures ok <==> DeleteAllowed(users, actor, target, ownsWorkspaces)
    {
      if !MayAdminister(users, actor) || actor == target || target !in users || !users[target].disabled || ownsWorkspaces {
        return false;
      }
      return true;
    }

    method StoreDelete(target: string) returns (found: bool)
      modifies this
      ensures found == (target in old(users))
      ensures users == old(users) - {target}
    {
      found := target in users;
      users := users - {target};
    }
  }

  /** A failing entry fails the batch. */
  lemma {:induction false} BatchFails(users: Users, entries: seq<Entry>, n: nat)
    requires n <= |entries| && Batch(users, entries[..n]).None?
    ensures Batch(users, entries).None?
  {
    if n == |entries| {
      assert entries[..n] == entries;
    } else {
      assert entries[..|entries| - 1][..n] == entries[..n];
      BatchFails(users, entries[..|entries| - 1], n);
    }
  }
}
