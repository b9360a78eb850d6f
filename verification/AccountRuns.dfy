/** Accounts over whole runs. Every operation first checks the store and then writes
    in one statement or transaction; anything may be written between the two. */
module AccountRuns {
  import opened Domain
  import opened Accounts

  // ---------------------------------------------------------------------
  // Requests and what they write

  datatype Request =
    | Import(actor: string, rows: seq<ImportRow>, ids: seq<string>, passwords: seq<string>)
    | Create(id: string, row: ImportRow, password: string, administrator: bool, mustChange: bool)
    | Profile(actor: string, target: string, email: string)
    | SetDisabled(actor: string, target: string, disabled: bool)
    | Delete(actor: string, target: string, ownsWorkspaces: bool)

  /** What a checked request goes on to write. */
  datatype Write =
    | Entries(entries: seq<Entry>)
    | Email(target: string, email: string)
    | Disabled(target: string, disabled: bool)
    | Gone(target: string)

  /** The generated IDs are new and distinct. */
  ghost predicate FreshIds(users: Users, ids: seq<string>) {
    && (forall i :: 0 <= i < |ids| ==> ids[i] !in users && ids[i] != "")
    && (forall i, j :: 0 <= i < j < |ids| ==> ids[i] != ids[j])
  }

  ghost predicate Passes(users: Users, r: Request, addressOk: string -> bool) {
    match r
    case Import(actor, rows, ids, passwords) =>
      |ids| == |passwords| == |rows| && FreshIds(users, ids) && MayAdminister(users, actor) && Importable(users, rows, addressOk)
    case Create(id, row, _, _, _) => id !in users && id != "" && Creatable(users, row, addressOk)
    case Profile(actor, target, email) => ProfileAllowed(users, actor, target, email, addressOk)
    case SetDisabled(actor, target, disabled) => DisableAllowed(users, actor, target, disabled)
    case Delete(actor, target, ownsWorkspaces) => DeleteAllowed(users, actor, target, ownsWorkspaces)
  }

  ghost function WriteOf(users: Users, r: Request): Write
    requires r.Import? ==> |r.ids| == |r.passwords| == |r.rows|
  {
    match r
    case Import(_, rows, ids, passwords) => Entries(Planned(users, rows, ids, passwords))
    case Create(id, row, password, administrator, mustChange) =>
      Entries([Add(id, NewAccount(row, password).(administrator := administrator, mustChange := mustChange))])
    case Profile(_, target, email) => Email(target, Trim(email))
    case SetDisabled(_, target, disabled) => Disabled(target, disabled)
    case Delete(_, target, _) => Gone(target)
  }

  /** The statement or transaction, with the constraints of the table. */
  ghost function Written(users: Users, w: Write): Users {
    match w
    case Entries(entries) => if Batch(users, entries).Some? then Batch(users, entries).value else users
    case Email(target, email) => if target in users then users[target := users[target].(email := email)] else users
    case Disabled(target, disabled) => if target in users then users[target := users[target].(disabled := disabled)] else users
    case Gone(target) => users - {target}
  }

  /** Who may change what: an active administrator who need not change the own
      password first. Nobody disables or deletes the own account, and an account
      is deleted only when it is disabled and owns no workspace. */
  lemma WhoMayWrite(users: Users, actor: string, target: string, email: string, flag: bool, addressOk: string -> bool)
    ensures var may := actor in users && users[actor].administrator && !users[actor].disabled && !users[actor].mustChange;
            && (Passes(users, SetDisabled(actor, target, flag), addressOk) <==> may && target in users && (actor == target ==> !flag))
            && (Passes(users, Delete(actor, target, flag), addressOk) <==>
                  may && target in users && actor != target && users[target].disabled && !flag)
            && (Passes(users, Profile(actor, target, email), addressOk) ==> may && target in users)
            && (may && target in users && Trim(email) == "" ==> Passes(users, Profile(actor, target, email), addressOk))
  {
  }

  // ---------------------------------------------------------------------
  // What a batch leaves

  /** A batch names every account and every address at most once. */
  ghost predicate WellFormed(entries: seq<Entry>) {
    && (forall i :: 0 <= i < |entries| ==> entries[i].id != "")
    && (forall i, j :: 0 <= i < j < |entries| ==> entries[i].id != entries[j].id)
    && (forall i, j :: 0 <= i < j < |entries| && EntryEmail(entries[i]) != "" ==>
          Lower(EntryEmail(entries[i])) != Lower(EntryEmail(entries[j])))
  }

  /** Entry `i` gives account `id` an address. */
  ghost predicate GivesAddress(entries: seq<Entry>, i: nat, id: string) {
    i < |entries| && entries[i].id == id && EntryEmail(entries[i]) != ""
  }

  /** The batch gives the account an address. */
  ghost predicate Readdressed(entries: seq<Entry>, id: string) {
    exists i: nat :: GivesAddress(entries, i, id)
  }

  /** Entry `i` took effect. */
  ghost predicate Took(users: Users, entries: seq<Entry>, after: Users, i: nat)
    requires i < |entries|
  {
    var e := entries[i];
    && e.id in after && (e.Add? <==> e.id !in users) && (e.Add? ==> after[e.id] == e.account)
    && (EntryEmail(e) != "" ==> after[e.id].email == EntryEmail(e))
  }

  /** An account that existed keeps all but its address, and that unless the batch gives it one. */
  ghost predicate Kept(users: Users, entries: seq<Entry>, after: Users, id: string)
    requires id in users
  {
    id in after && after[id] == users[id].(email := after[id].email) && (!Readdressed(entries, id) ==> after[id] == users[id])
  }

  ghost predicate Names(entries: seq<Entry>, i: nat, id: string) {
    i < |entries| && entries[i].id == id
  }

  /** What the accounts are after entries with distinct IDs. */
  ghost predicate Leaves(users: Users, entries: seq<Entry>, after: Users) {
    && (forall i :: 0 <= i < |entries| ==> Took(users, entries, after, i))
    && (forall id :: id in users ==> Kept(users, entries, after, id))
    && (forall id :: id in after && id !in users ==> exists i: nat :: Names(entries, i, id))
    && (NamesUnique(users) ==> NamesUnique(after))
  }

  lemma EntryTakes(users: Users, entries: seq<Entry>, before: Users, i: nat)
    requires i < |entries| && WellFormed(entries) && Leaves(users, entries[..|entries| - 1], before)
    requires Storable(before, entries[|entries| - 1])
    ensures Took(users, entries, Stored(before, entries[|entries| - 1]), i)
  {
    var n := |entries| - 1;
    if i < n {
      assert Took(users, entries[..n], before, i);
    } else if entries[n].id in users {
      assert Kept(users, entries[..n], before, entries[n].id);
    } else {
      forall k: nat ensures !Names(entries[..n], k, entries[n].id) {
      }
    }
  }

  lemma EntryKeeps(users: Users, entries: seq<Entry>, before: Users, id: string)
    requires entries != [] && WellFormed(entries) && Leaves(users, entries[..|entries| - 1], before)
    requires Storable(before, entries[|entries| - 1]) && id in users
    ensures Kept(users, entries, Stored(before, entries[|entries| - 1]), id)
  {
    var n := |entries| - 1;
    assert Kept(users, entries[..n], before, id);
    if !Readdressed(entries, id) {
      assert !GivesAddress(entries, n, id);
      if i: nat :| GivesAddress(entries[..n], i, id) {
        assert GivesAddress(entries, i, id);
      }
    }
  }

  lemma EntryNames(users: Users, entries: seq<Entry>, before: Users, id: string)
    requires entries != [] && Leaves(users, entries[..|entries| - 1], before)
    requires Storable(before, entries[|entries| - 1])
    requires id in Stored(before, entries[|entries| - 1]) && id !in users
    ensures exists i: nat :: Names(entries, i, id)
  {
    var n := |entries| - 1;
    if id in before {
      var i: nat :| Names(entries[..n], i, id);
      assert Names(entries, i, id);
    } else {
      assert Names(entries, n, id);
    }
  }

  lemma EntryLeaves(users: Users, entries: seq<Entry>, before: Users)
    requires entries != [] && WellFormed(entries) && Leaves(users, entries[..|entries| - 1], before)
    requires Storable(before, entries[|entries| - 1])
    ensures Leaves(users, entries, Stored(before, entries[|entries| - 1]))
  {
    var after := Stored(before, entries[|entries| - 1]);
    forall i | 0 <= i < |entries| ensures Took(users, entries, after, i) {
      EntryTakes(users, entries, before, i);
    }
    forall id | id in users ensures Kept(users, entries, after, id) {
      EntryKeeps(users, entries, before, id);
    }
    forall id | id in after && id !in users ensures exists i: nat :: Names(entries, i, id) {
      EntryNames(users, entries, before, id);
    }
    EntryKeepsNames(before, entries[|entries| - 1]);
  }

  lemma EntryKeepsNames(users: Users, e: Entry)
    requires Storable(users, e)
    ensures NamesUnique(users) ==> NamesUnique(Stored(users, e))
  {
    if e.Add? {
      forall id | id in users ensures users[id].username != e.account.username {
        assert !HasUsername(users, id, e.account.username);
      }
    }
  }

  lemma {:induction false} BatchLeaves(users: Users, entries: seq<Entry>)
    requires WellFormed(entries) && Batch(users, entries).Some?
    ensures Leaves(users, entries, Batch(users, entries).value)
  {
    if entries != [] {
      BatchLeaves(users, entries[..|entries| - 1]);
      EntryLeaves(users, entries, Batch(users, entries[..|entries| - 1]).value);
    }
  }

  // ---------------------------------------------------------------------
  // Addresses

  /** The address of entry `i` is held by nobody who keeps it. */
  ghost predicate StillFree(users: Users, entries: seq<Entry>, i: nat)
    requires i < |entries|
  {
    forall id :: HasEmail(users, id, EntryEmail(entries[i])) ==> id == entries[i].id || Readdressed(entries, id)
  }

  /** The addresses a write gives out are free when it takes effect. */
  ghost predicate AddressesFree(users: Users, w: Write) {
    match w
    case Entries(entries) =>
      Batch(users, entries).Some? ==> forall i :: 0 <= i < |entries| && EntryEmail(entries[i]) != "" ==> StillFree(users, entries, i)
    case Email(target, email) => target in users && email != "" ==> EmailFree(users, email, target)
    case _ => true
  }

  lemma TakenAddressIsShared(users: Users, entries: seq<Entry>, after: Users, i: nat, id: string)
    requires i < |entries| && EntryEmail(entries[i]) != "" && Leaves(users, entries, after)
    requires HasEmail(users, id, EntryEmail(entries[i])) && id != entries[i].id && !Readdressed(entries, id)
    ensures !EmailsUnique(after)
  {
    assert Kept(users, entries, after, id);
    assert Took(users, entries, after, i);
  }

  /** An account got its address from the batch, had it, or has none. */
  lemma HolderAfter(users: Users, entries: seq<Entry>, after: Users, id: string)
    requires Leaves(users, entries, after) && id in after
    ensures Readdressed(entries, id) || (id in users && after[id] == users[id]) || after[id].email == ""
  {
    if id in users {
      assert Kept(users, entries, after, id);
    } else {
      var i: nat :| Names(entries, i, id);
      assert Took(users, entries, after, i);
      assert EntryEmail(entries[i]) != "" ==> GivesAddress(entries, i, id);
    }
  }

  /** An address from the batch is nobody else's. */
  lemma GivenAddressIsOwn(users: Users, entries: seq<Entry>, after: Users, i: nat, id: string)
    requires WellFormed(entries) && Leaves(users, entries, after) && id in after
    requires i < |entries| && EntryEmail(entries[i]) != "" && StillFree(users, entries, i) && id != entries[i].id
    ensures Lower(after[id].email) != Lower(EntryEmail(entries[i]))
  {
    HolderAfter(users, entries, after, id);
    if j: nat :| GivesAddress(entries, j, id) {
      assert Took(users, entries, after, j);
    } else if after[id].email != "" {
      assert !HasEmail(users, id, EntryEmail(entries[i]));
    } else {
      assert |Lower(after[id].email)| != |Lower(EntryEmail(entries[i]))|;
    }
  }

  lemma FreeAddressesStayUnique(users: Users, entries: seq<Entry>, after: Users, a: string, b: string)
    requires EmailsUnique(users) && WellFormed(entries) && Leaves(users, entries, after)
    requires forall i :: 0 <= i < |entries| && EntryEmail(entries[i]) != "" ==> StillFree(users, entries, i)
    requires a in after && b in after && a != b && after[a].email != ""
    ensures Lower(after[a].email) != Lower(after[b].email)
  {
    HolderAfter(users, entries, after, a);
    HolderAfter(users, entries, after, b);
    if i: nat :| GivesAddress(entries, i, a) {
      assert Took(users, entries, after, i);
      GivenAddressIsOwn(users, entries, after, i, b);
    } else if j: nat :| GivesAddress(entries, j, b) {
      assert Took(users, entries, after, j);
      GivenAddressIsOwn(users, entries, after, j, a);
    } else if after[b].email == "" {
      assert |Lower(after[a].email)| != |Lower(after[b].email)|;
    }
  }

  lemma BatchKeepsEmailsIff(users: Users, entries: seq<Entry>)
    requires EmailsUnique(users) && WellFormed(entries)
    ensures EmailsUnique(Written(users, Entries(entries))) <==> AddressesFree(users, Entries(entries))
  {
    if Batch(users, entries).Some? {
      BatchLeaves(users, entries);
      var after := Batch(users, entries).value;
      if forall i :: 0 <= i < |entries| && EntryEmail(entries[i]) != "" ==> StillFree(users, entries, i) {
        forall a, b | a in after && b in after && a != b && after[a].email != "" ensures Lower(after[a].email) != Lower(after[b].email) {
          FreeAddressesStayUnique(users, entries, after, a, b);
        }
      } else {
        var i :| 0 <= i < |entries| && EntryEmail(entries[i]) != "" && !StillFree(users, entries, i);
        var id :| HasEmail(users, id, EntryEmail(entries[i])) && id != entries[i].id && !Readdressed(entries, id);
        TakenAddressIsShared(users, entries, after, i, id);
      }
    }
  }

  lemma EmailKeepsEmailsIff(users: Users, target: string, email: string)
    requires EmailsUnique(users)
    ensures EmailsUnique(Written(users, Email(target, email))) <==> AddressesFree(users, Email(target, email))
  {
    var after := Written(users, Email(target, email));
    if target in users && email != "" && !EmailFree(users, email, target) {
      var other :| HasEmail(users, other, email) && other != target;
      assert after[other] == users[other] && after[target].email == email;
    } else if target in users {
      forall a, b | a in after && b in after && a != b && after[a].email != "" ensures Lower(after[a].email) != Lower(after[b].email) {
        assert |Lower(after[a].email)| == |after[a].email| && |Lower(after[b].email)| == |after[b].email|;
        assert a == target && Lower(email) == Lower(after[b].email) ==> HasEmail(users, b, email);
        assert b == target && Lower(email) == Lower(after[a].email) ==> HasEmail(users, a, email);
      }
    }
  }

  /** Whatever was checked before: a write keeps addresses unique exactly when those
      it gives out are free, or given up by the same batch, when it takes effect. */
  lemma WriteKeepsEmailsIff(users: Users, w: Write)
    requires EmailsUnique(users) && (w.Entries? ==> WellFormed(w.entries))
    ensures EmailsUnique(Written(users, w)) <==> AddressesFree(users, w)
  {
    match w
    case Entries(entries) => BatchKeepsEmailsIff(users, entries);
    case Email(target, email) => EmailKeepsEmailsIff(users, target, email);
    case _ =>
  }

  /** For a registration: nobody has the address when the account is inserted. */
  lemma RegistrationKeepsEmailsIff(users: Users, id: string, account: Account)
    requires EmailsUnique(users) && id != "" && id !in users && !Known(users, account.username)
    ensures Written(users, Entries([Add(id, account)])) == users[id := account]
    ensures EmailsUnique(users[id := account]) <==> account.email == "" || EmailFree(users, account.email, id)
  {
    var entries := [Add(id, account)];
    assert entries[..0] == [];
    assert Batch(users, entries[..0]) == Some(users);
    WriteKeepsEmailsIff(users, Entries(entries));
    forall other | other in users ensures !Readdressed(entries, other) {
    }
    assert account.email != "" ==> (StillFree(users, entries, 0) <==> EmailFree(users, account.email, id));
  }

  // ---------------------------------------------------------------------
  // Administrators

  ghost predicate AnotherAdministrator(users: Users, target: string) {
    exists id :: id != target && ActiveAdministrator(users, id)
  }

  /** Somebody else is left to administer when the account is taken out. */
  ghost predicate LeavesAdministrator(users: Users, w: Write) {
    match w
    case Disabled(target, disabled) => disabled ==> AnotherAdministrator(users, target)
    case Gone(target) => AnotherAdministrator(users, target)
    case _ => true
  }

  lemma EntriesKeepAdministrators(users: Users, entries: seq<Entry>, id: string)
    requires WellFormed(entries) && ActiveAdministrator(users, id)
    ensures ActiveAdministrator(Written(users, Entries(entries)), id)
  {
    if Batch(users, entries).Some? {
      BatchLeaves(users, entries);
    }
  }

  /** A write keeps an active administrator exactly when it leaves another one. */
  lemma WriteKeepsAdministratorIff(users: Users, w: Write)
    requires SomeAdministrator(users) && (w.Entries? ==> WellFormed(w.entries))
    ensures SomeAdministrator(Written(users, w)) <==> LeavesAdministrator(users, w)
  {
    var id :| ActiveAdministrator(users, id);
    var after := Written(users, w);
    match w
    case Entries(entries) =>
      EntriesKeepAdministrators(users, entries, id);
    case Email(target, _) => assert ActiveAdministrator(after, id);
    case Disabled(target, disabled) =>
      if !disabled {
        assert ActiveAdministrator(after, id);
      } else {
        TakenOut(users, after, target);
      }
    case Gone(target) => TakenOut(users, after, target);
  }

  lemma TakenOut(users: Users, after: Users, target: string)
    requires !ActiveAdministrator(after, target)
    requires forall id :: id != target ==> (ActiveAdministrator(after, id) <==> ActiveAdministrator(users, id))
    ensures SomeAdministrator(after) <==> AnotherAdministrator(users, target)
  {
    if other :| other != target && ActiveAdministrator(users, other) {
      assert ActiveAdministrator(after, other);
    }
  }

  // ---------------------------------------------------------------------
  // A write that meets the accounts it was checked against

  lemma PlanTargets(users: Users, rows: seq<ImportRow>, ids: seq<string>, passwords: seq<string>, i: nat)
    requires |ids| == |passwords| == |rows| && FreshIds(users, ids) && Keyed(users) && i < |rows|
    ensures var e := Planned(users, rows, ids, passwords)[i];
            && e.id != "" && EntryEmail(e) == Trim(rows[i].email)
            && (if e.Add? then e.id == ids[i] && !Known(users, NormalizeUsername(rows[i].username))
                               && e.account.username == NormalizeUsername(rows[i].username)
                else HasUsername(users, e.id, NormalizeUsername(rows[i].username)))
            && (e.Readdress? ==> e.id == Target(users, NormalizeUsername(rows[i].username)))
            && (e.Add? ==> Target(users, NormalizeUsername(rows[i].username)) == "")
  {
  }

  lemma PlanIsWellFormed(users: Users, rows: seq<ImportRow>, ids: seq<string>, passwords: seq<string>)
    requires |ids| == |passwords| == |rows| && FreshIds(users, ids) && Keyed(users)
    requires UsernamesDistinct(rows) && AddressesDistinct(rows)
    ensures WellFormed(Planned(users, rows, ids, passwords))
  {
    var plan := Planned(users, rows, ids, passwords);
    forall i | 0 <= i < |rows| ensures plan[i].id != "" {
      PlanTargets(users, rows, ids, passwords, i);
    }
    forall i, j | 0 <= i < j < |plan|
      ensures plan[i].id != plan[j].id
      ensures EntryEmail(plan[i]) != "" ==> Lower(EntryEmail(plan[i])) != Lower(EntryEmail(plan[j]))
    {
      PlanTargets(users, rows, ids, passwords, i);
      PlanTargets(users, rows, ids, passwords, j);
      assert |RowEmail(rows[i])| == |Trim(rows[i].email)|;
    }
  }

  lemma PlannedEntryFits(users: Users, rows: seq<ImportRow>, ids: seq<string>, passwords: seq<string>, n: nat, before: Users)
    requires |ids| == |passwords| == |rows| && FreshIds(users, ids) && Keyed(users) && n < |rows|
    requires UsernamesDistinct(rows) && AddressesDistinct(rows)
    requires Leaves(users, Planned(users, rows, ids, passwords)[..n], before)
    ensures Storable(before, Planned(users, rows, ids, passwords)[n])
  {
    var plan := Planned(users, rows, ids, passwords);
    var username := NormalizeUsername(rows[n].username);
    PlanTargets(users, rows, ids, passwords, n);
    if plan[n].Readdress? {
      assert Kept(users, plan[..n], before, plan[n].id);
    } else {
      PlanIsWellFormed(users, rows, ids, passwords);
      forall k: nat ensures !Names(plan[..n], k, plan[n].id) {
      }
      forall id | id in before ensures before[id].username != username {
        if id in users {
          assert Kept(users, plan[..n], before, id) && !HasUsername(users, id, username);
        } else {
          var k: nat :| Names(plan[..n], k, id);
          PlanTargets(users, rows, ids, passwords, k);
          assert Took(users, plan[..n], before, k);
        }
      }
    }
  }

  lemma BatchContinues(users: Users, entries: seq<Entry>, n: nat)
    requires 0 < n <= |entries| && Batch(users, entries[..n - 1]).Some? && Storable(Batch(users, entries[..n - 1]).value, entries[n - 1])
    ensures Batch(users, entries[..n]).Some?
  {
    assert entries[..n][..n - 1] == entries[..n - 1];
  }

  lemma {:induction false} PlannedBatchFits(users: Users, rows: seq<ImportRow>, ids: seq<string>, passwords: seq<string>, n: nat)
    requires |ids| == |passwords| == |rows| && FreshIds(users, ids) && Keyed(users) && n <= |rows|
    requires UsernamesDistinct(rows) && AddressesDistinct(rows)
    ensures Batch(users, Planned(users, rows, ids, passwords)[..n]).Some?
  {
    if n > 0 {
      var plan := Planned(users, rows, ids, passwords);
      PlannedBatchFits(users, rows, ids, passwords, n - 1);
      PlanIsWellFormed(users, rows, ids, passwords);
      BatchLeaves(users, plan[..n - 1]);
      PlannedEntryFits(users, rows, ids, passwords, n - 1, Batch(users, plan[..n - 1]).value);
      BatchContinues(users, plan, n);
    }
  }

  lemma PlannedAddressIsFree(users: Users, rows: seq<ImportRow>, ids: seq<string>, passwords: seq<string>, i: nat)
    requires |ids| == |passwords| == |rows| && FreshIds(users, ids) && Keyed(users) && i < |rows|
    requires EmailsUnique(users) && RowPasses(users, rows[i]) && Trim(rows[i].email) != ""
    ensures StillFree(users, Planned(users, rows, ids, passwords), i)
  {
    PlanTargets(users, rows, ids, passwords, i);
    var e := Planned(users, rows, ids, passwords)[i];
    assert |RowEmail(rows[i])| == |Trim(rows[i].email)|;
    CanPassIffFree(users, RowEmail(rows[i]), Target(users, NormalizeUsername(rows[i].username)));
    LowerTwice(Trim(rows[i].email));
    forall id | HasEmail(users, id, EntryEmail(e)) ensures id == e.id {
      assert HasEmail(users, id, RowEmail(rows[i]));
    }
  }

  /** A request whose write meets the accounts it was checked against goes through
      and gives out free addresses. */
  lemma CheckedImportMeets(users: Users, r: Request, addressOk: string -> bool)
    requires EmailsUnique(users) && Keyed(users) && r.Import? && Passes(users, r, addressOk)
    ensures WellFormed(WriteOf(users, r).entries) && Batch(users, WriteOf(users, r).entries).Some?
    ensures AddressesFree(users, WriteOf(users, r))
  {
    var plan := Planned(users, r.rows, r.ids, r.passwords);
    PlanIsWellFormed(users, r.rows, r.ids, r.passwords);
    PlannedBatchFits(users, r.rows, r.ids, r.passwords, |r.rows|);
    assert plan[..|r.rows|] == plan;
    forall i | 0 <= i < |plan| && EntryEmail(plan[i]) != "" ensures StillFree(users, plan, i) {
      PlanTargets(users, r.rows, r.ids, r.passwords, i);
      PlannedAddressIsFree(users, r.rows, r.ids, r.passwords, i);
    }
  }

  lemma SingleEntry(users: Users, e: Entry)
    requires Storable(users, e)
    ensures Batch(users, [e]) == Some(Stored(users, e))
  {
    assert [e][..0] == [];
  }

  /** A write against the accounts it was checked against meets every condition. */
  lemma CheckedWriteMeets(users: Users, r: Request, addressOk: string -> bool)
    requires EmailsUnique(users) && Keyed(users) && Passes(users, r, addressOk)
    ensures var w := WriteOf(users, r);
            && (w.Entries? ==> WellFormed(w.entries) && Batch(users, w.entries).Some?)
            && AddressesFree(users, w) && LeavesAdministrator(users, w)
  {
    match r
    case Import(_, _, _, _) => CheckedImportMeets(users, r, addressOk);
    case Create(id, row, password, _, _) =>
      var e := WriteOf(users, r).entries[0];
      SingleEntry(users, e);
      if Trim(row.email) != "" {
        CanPassIffFree(users, Trim(row.email), "");
        forall other ensures !HasEmail(users, other, Trim(row.email)) {
        }
      }
    case Profile(_, target, email) =>
      if Trim(email) != "" {
        CanPassIffFree(users, Trim(email), target);
      }
    case SetDisabled(actor, target, disabled) => assert disabled ==> actor != target && ActiveAdministrator(users, actor);
    case Delete(actor, target, _) => assert actor != target && ActiveAdministrator(users, actor);
  }

  // ---------------------------------------------------------------------
  // Whole runs

  /** `pending` holds the writes of requests that were checked and have not written. */
  datatype System = System(users: Users, pending: map<nat, Write>)

  datatype Step =
    | Bootstrap(id: string, row: ImportRow, password: string)
    | Check(request: nat, what: Request)
    | Store(request: nat)
    | SetPassword(target: string, password: string, mustChange: bool)

  ghost predicate Enabled(s: System, step: Step, addressOk: string -> bool) {
    match step
    case Bootstrap(id, row, _) => s == System(map[], map[]) && id != "" && RowValid(row, addressOk)
    case Check(k, r) => s.users != map[] && k !in s.pending && Passes(s.users, r, addressOk)
    case Store(k) => k in s.pending
    case SetPassword(target, _, _) => target in s.users
  }

  ghost function Apply(s: System, step: Step, addressOk: string -> bool): System
    requires Enabled(s, step, addressOk)
  {
    match step
    case Bootstrap(id, row, password) => s.(users := map[id := NewAccount(row, password).(administrator := true)])
    case Check(k, r) => s.(pending := s.pending[k := WriteOf(s.users, r)])
    case Store(k) => System(Written(s.users, s.pending[k]), s.pending - {k})
    case SetPassword(target, password, mustChange) =>
      s.(users := s.users[target := s.users[target].(password := password, mustChange := mustChange)])
  }

  /** Whatever a write was checked against: its batch is well-formed. */
  ghost predicate PendingOk(s: System) {
    forall k :: k in s.pending && s.pending[k].Entries? ==> WellFormed(s.pending[k].entries)
  }

  /** What holds in every run, whatever interferes. */
  ghost predicate Started(s: System) {
    Keyed(s.users) && PendingOk(s)
  }

  /** Addresses are unique and somebody can administer. */
  ghost predicate Sound(users: Users) {
    EmailsUnique(users) && SomeAdministrator(users)
  }

  /** A write meets its conditions when it takes effect. */
  ghost predicate Meets(s: System, step: Step) {
    step.Store? && step.request in s.pending ==>
      AddressesFree(s.users, s.pending[step.request]) && LeavesAdministrator(s.users, s.pending[step.request])
  }

  lemma CheckedIsWellFormed(users: Users, r: Request, addressOk: string -> bool)
    requires Keyed(users) && Passes(users, r, addressOk)
    ensures WriteOf(users, r).Entries? ==> WellFormed(WriteOf(users, r).entries)
  {
    if r.Import? {
      PlanIsWellFormed(users, r.rows, r.ids, r.passwords);
    }
  }

  lemma WriteKeepsKeyed(users: Users, w: Write)
    requires Keyed(users) && (w.Entries? ==> WellFormed(w.entries))
    ensures Keyed(Written(users, w))
  {
    if w.Entries? && Batch(users, w.entries).Some? {
      BatchLeaves(users, w.entries);
      forall i: nat ensures !Names(w.entries, i, "") {
      }
    }
  }

  lemma StepKeepsStarted(s: System, step: Step, addressOk: string -> bool)
    requires Started(s) && Enabled(s, step, addressOk)
    ensures Started(Apply(s, step, addressOk))
  {
    match step
    case Check(_, r) => CheckedIsWellFormed(s.users, r, addressOk);
    case Store(k) => WriteKeepsKeyed(s.users, s.pending[k]);
    case _ =>
  }

  lemma PasswordKeepsSound(users: Users, target: string, password: string, mustChange: bool)
    requires Sound(users) && target in users
    ensures Sound(users[target := users[target].(password := password, mustChange := mustChange)])
  {
    var id :| ActiveAdministrator(users, id);
    assert ActiveAdministrator(users[target := users[target].(password := password, mustChange := mustChange)], id);
  }

  /** One step keeps addresses unique and an administrator active exactly when the
      write it performs, if any, meets its conditions at that moment. */
  lemma StepKeepsSoundIff(s: System, step: Step, addressOk: string -> bool)
    requires Started(s) && Sound(s.users) && Enabled(s, step, addressOk)
    ensures Sound(Apply(s, step, addressOk).users) <==> Meets(s, step)
  {
    match step
    case Store(k) =>
      WriteKeepsEmailsIff(s.users, s.pending[k]);
      WriteKeepsAdministratorIff(s.users, s.pending[k]);
    case SetPassword(target, password, mustChange) => PasswordKeepsSound(s.users, target, password, mustChange);
    case _ =>
  }

  ghost predicate Run(trace: seq<System>, steps: seq<Step>, addressOk: string -> bool) {
    && |trace| == |steps| + 1
    && forall i :: 0 <= i < |steps| ==> Enabled(trace[i], steps[i], addressOk) && trace[i + 1] == Apply(trace[i], steps[i], addressOk)
  }

  /** Over any interleaving of checks and writes usernames stay unique, and the
      addresses are unique and an administrator is active throughout exactly when
      every write meets its conditions when it takes effect. */
  lemma RunsKeepAccountsValidIff(trace: seq<System>, steps: seq<Step>, addressOk: string -> bool)
    requires Run(trace, steps, addressOk) && Started(trace[0]) && Sound(trace[0].users)
    ensures forall i :: 0 <= i < |trace| ==> NamesUnique(trace[i].users)
    ensures (forall i :: 0 <= i < |trace| ==> Sound(trace[i].users)) <==> (forall i :: 0 <= i < |steps| ==> Meets(trace[i], steps[i]))
  {
    RunsStayStarted(trace, steps, addressOk);
    if forall i :: 0 <= i < |steps| ==> Meets(trace[i], steps[i]) {
      for i := 0 to |steps|
        invariant forall k :: 0 <= k <= i ==> Sound(trace[k].users)
      {
        StepKeepsSoundIff(trace[i], steps[i], addressOk);
      }
    } else {
      var i :| 0 <= i < |steps| && !Meets(trace[i], steps[i]);
      if Sound(trace[i].users) {
        StepKeepsSoundIff(trace[i], steps[i], addressOk);
        assert !Sound(trace[i + 1].users);
      }
    }
  }

  lemma RunsStayStarted(trace: seq<System>, steps: seq<Step>, addressOk: string -> bool)
    requires Run(trace, steps, addressOk) && Started(trace[0])
    ensures forall i :: 0 <= i < |trace| ==> Started(trace[i])
  {
    for i := 0 to |steps|
      invariant forall k :: 0 <= k <= i ==> Started(trace[k])
    {
      StepKeepsStarted(trace[i], steps[i], addressOk);
    }
  }

  /** The empty store only takes the first administrator. */
  lemma FirstStepBootstraps(step: Step, addressOk: string -> bool)
    requires Enabled(System(map[], map[]), step, addressOk)
    ensures var after := Apply(System(map[], map[]), step, addressOk); step.Bootstrap? && Started(after) && Sound(after.users)
  {
    assert ActiveAdministrator(Apply(System(map[], map[]), step, addressOk).users, step.id);
  }

  /** Requests that write before anything else is written meet their conditions. */
  lemma UndisturbedRequestKeepsSound(s: System, k: nat, r: Request, addressOk: string -> bool)
    requires Started(s) && Sound(s.users) && Enabled(s, Check(k, r), addressOk)
    ensures var checked := Apply(s, Check(k, r), addressOk);
            && Enabled(checked, Store(k), addressOk) && Meets(checked, Store(k))
            && Sound(Apply(checked, Store(k), addressOk).users)
  {
    var checked := Apply(s, Check(k, r), addressOk);
    CheckedWriteMeets(s.users, r, addressOk);
    StepKeepsStarted(s, Check(k, r), addressOk);
    StepKeepsSoundIff(checked, Store(k), addressOk);
  }

  // ---------------------------------------------------------------------
  // Runs in which the conditions fail

  /** Two requests checked against the same accounts write one after the other. */
  ghost function Both(s: System, j: nat, first: Request, k: nat, second: Request, addressOk: string -> bool): (System, System)
    requires s.users != map[] && j != k && j !in s.pending && k !in s.pending
    requires Passes(s.users, first, addressOk) && Passes(s.users, second, addressOk)
  {
    var checked := Apply(Apply(s, Check(j, first), addressOk), Check(k, second), addressOk);
    var between := Apply(checked, Store(j), addressOk);
    (between, Apply(between, Store(k), addressOk))
  }

  /** Two accounts are registered with one address. */
  lemma SimultaneousRegistrationsShareAddress(s: System, j: nat, first: Request, k: nat, second: Request,
                                              addressOk: string -> bool)
    requires Started(s) && Sound(s.users) && j != k && j !in s.pending && k !in s.pending
    requires Passes(s.users, first, addressOk) && Passes(s.users, second, addressOk) && first.Create? && second.Create?
    requires first.id != second.id && NormalizeUsername(first.row.username) != NormalizeUsername(second.row.username)
    requires RowEmail(first.row) == RowEmail(second.row) != ""
    ensures var (between, after) := Both(s, j, first, k, second, addressOk);
            Sound(between.users) && !Meets(between, Store(k)) && !EmailsUnique(after.users)
            && {first.id, second.id} <= after.users.Keys
  {
    var (between, after) := Both(s, j, first, k, second, addressOk);
    var a, b := WriteOf(s.users, first).entries[0], WriteOf(s.users, second).entries[0];
    SingleEntry(s.users, a);
    assert between.users == Stored(s.users, a);
    CheckedWriteMeets(s.users, first, addressOk);
    WriteKeepsEmailsIff(s.users, WriteOf(s.users, first));
    WriteKeepsAdministratorIff(s.users, WriteOf(s.users, first));
    StillUnknown(s.users, a, b);
    SingleEntry(between.users, b);
    assert after.users[a.id] == a.account && after.users[b.id] == b.account;
    assert |RowEmail(first.row)| == |Trim(first.row.email)|;
    WriteKeepsEmailsIff(between.users, WriteOf(s.users, second));
  }

  lemma StillUnknown(users: Users, a: Entry, b: Entry)
    requires a.Add? && b.Add? && Storable(users, a) && Storable(users, b)
    requires a.id != b.id && a.account.username != b.account.username
    ensures Storable(Stored(users, a), b)
  {
    forall id ensures !HasUsername(Stored(users, a), id, b.account.username) {
      assert !HasUsername(users, id, b.account.username);
    }
  }

  /** The last two administrators disable each other. */
  lemma SimultaneousDisablesLeaveNone(s: System, j: nat, k: nat, a: string, b: string, addressOk: string -> bool)
    requires Started(s) && Sound(s.users) && j != k && j !in s.pending && k !in s.pending
    requires a != b && MayAdminister(s.users, a) && MayAdminister(s.users, b)
    requires forall id :: ActiveAdministrator(s.users, id) ==> id == a || id == b
    ensures Passes(s.users, SetDisabled(a, b, true), addressOk) && Passes(s.users, SetDisabled(b, a, true), addressOk)
    ensures var (between, after) := Both(s, j, SetDisabled(a, b, true), k, SetDisabled(b, a, true), addressOk);
            Sound(between.users) && !Meets(between, Store(k)) && !SomeAdministrator(after.users)
  {
    var (between, after) := Both(s, j, SetDisabled(a, b, true), k, SetDisabled(b, a, true), addressOk);
    assert ActiveAdministrator(between.users, a);
    forall id ensures !ActiveAdministrator(after.users, id) {
      assert ActiveAdministrator(s.users, id) ==> id == a || id == b;
    }
    WriteKeepsAdministratorIff(between.users, between.pending[k]);
  }
}
