/** Passwords, sessions and the single-use links that set a password
    (internal/auth/service.go, internal/repository/sqlite/store.go). Hashes stand
    for the raw tokens; a credential mail is the outbox row that carries one. */
module Credentials {
  import opened Domain
  import opened Accounts

  datatype Purpose = Reset | Invite

  datatype Token = Token(user: string, purpose: Purpose, expiresAt: Time)

  datatype MailStatus = Pending | Sent | Canceled

  datatype Mail = Mail(user: string, purpose: Purpose, recipient: string, token: string, status: MailStatus)

  datatype Store = Store(users: Users, sessions: map<string, string>, tokens: map<string, Token>, mails: map<nat, Mail>, next: nat)

  // ---------------------------------------------------------------------
  // What the store's transactions do

  function CancelMail(mails: map<nat, Mail>, user: string, purposes: set<Purpose>): map<nat, Mail> {
    map id | id in mails ::
      if mails[id].user == user && mails[id].purpose in purposes && mails[id].status == Pending then mails[id].(status := Canceled) else mails[id]
  }

  function WithoutSessions(sessions: map<string, string>, user: string): map<string, string> {
    map h | h in sessions && sessions[h] != user :: sessions[h]
  }

  function WithoutTokens(tokens: map<string, Token>, user: string, purposes: set<Purpose>): map<string, Token> {
    map h | h in tokens && !(tokens[h].user == user && tokens[h].purpose in purposes) :: tokens[h]
  }

  /** invalidateCredentialTokensTx. */
  function Invalidated(s: Store, user: string): Store {
    s.(tokens := WithoutTokens(s.tokens, user, {Reset, Invite}), mails := CancelMail(s.mails, user, {Reset, Invite}))
  }

  /** CreatePasswordResetToken. */
  function IssueSpec(s: Store, user: string, purpose: Purpose, hash: string, expiresAt: Time): Store {
    s.(tokens := WithoutTokens(s.tokens, user, {purpose})[hash := Token(user, purpose, expiresAt)], mails := CancelMail(s.mails, user, {purpose}))
  }

  /** The message with the link, queued after the token was stored. */
  function QueueSpec(s: Store, user: string, purpose: Purpose, recipient: string, hash: string): Store {
    s.(mails := s.mails[s.next := Mail(user, purpose, recipient, hash, Pending)], next := s.next + 1)
  }

  function Repassworded(s: Store, user: string, password: string, mustChange: bool): Store
    requires user in s.users
  {
    s.(users := s.users[user := s.users[user].(password := password, mustChange := mustChange)])
  }

  predicate Usable(s: Store, hash: string, purpose: Purpose, now: Time) {
    && hash in s.tokens && s.tokens[hash].purpose == purpose && s.tokens[hash].expiresAt > now
    && s.tokens[hash].user in s.users && !s.users[s.tokens[hash].user].disabled
  }

  /** ResetPasswordUsingToken, for both purposes. */
  function UseSpec(s: Store, hash: string, purpose: Purpose, password: string, now: Time): (Store, bool) {
    if !Usable(s, hash, purpose, now) then (s, false)
    else
      var user := s.tokens[hash].user;
      var renewed := Repassworded(s, user, password, false).(sessions := WithoutSessions(s.sessions, user));
      (Invalidated(renewed, user), true)
  }

  /** ChangePassword by a holder who gave the current one. */
  function ChangeSpec(s: Store, user: string, currentOk: bool, password: string): (Store, bool) {
    if user !in s.users || s.users[user].disabled || !currentOk then (s, false)
    else (Invalidated(Repassworded(s, user, password, false), user), true)
  }

  /** replaceCredential, for an enabled account. */
  function ReplaceSpec(s: Store, user: string, password: string): (Store, bool) {
    if user !in s.users || s.users[user].disabled then (s, false)
    else (Invalidated(Repassworded(s, user, password, true).(sessions := WithoutSessions(s.sessions, user)), user), true)
  }

  function DisableSpec(s: Store, user: string, disabled: bool): Store
    requires user in s.users
  {
    s.(users := s.users[user := s.users[user].(disabled := disabled)],
       sessions := if disabled then WithoutSessions(s.sessions, user) else s.sessions)
  }

  /** The store's UpdateUserProfile. */
  function ProfileSpec(s: Store, user: string, email: string): Store
    requires user in s.users
  {
    var changed := s.(users := s.users[user := s.users[user].(email := email)]);
    if s.users[user].email != email then Invalidated(changed, user) else changed
  }

  /** The store's ImportUsers for one existing account. */
  function ImportEmailSpec(s: Store, user: string, email: string): Store
    requires user in s.users
  {
    if email == "" then s else s.(users := s.users[user := s.users[user].(email := email)])
  }

  /** The store's DeleteUser: sessions and tokens go with the row, mail does not. */
  function DeleteSpec(s: Store, user: string): Store {
    s.(users := s.users - {user}, sessions := WithoutSessions(s.sessions, user), tokens := WithoutTokens(s.tokens, user, {Reset, Invite}))
  }

  /** FindSessionUser, expiry aside. */
  function SessionUser(s: Store, hash: string): Option<string> {
    if hash in s.sessions && s.sessions[hash] in s.users && !s.users[s.sessions[hash]].disabled then Some(s.sessions[hash]) else None
  }

  // ---------------------------------------------------------------------
  // The operations as sequences of statements

  class CredentialStore {
    var users: Users
    var sessions: map<string, string>
    var tokens: map<string, Token>
    var mails: map<nat, Mail>
    var next: nat

    ghost function View(): Store
      reads this
    {
      Store(users, sessions, tokens, mails, next)
    }

    constructor ()
      ensures View() == Store(map[], map[], map[], map[], 0)
    {
      users, sessions, tokens, mails, next := map[], map[], map[], map[], 0;
    }

    method CancelPending(user: string, purposes: set<Purpose>)
      modifies this`mails
      ensures mails == CancelMail(old(mails), user, purposes)
    {
      mails := map id | id in mails ::
        if mails[id].user == user && mails[id].purpose in purposes && mails[id].status == Pending then mails[id].(status := Canceled) else mails[id];
    }

    method InvalidateTokens(user: string)
      modifies this`tokens, this`mails
      ensures View() == Invalidated(old(View()), user)
    {
      tokens := map h | h in tokens && tokens[h].user != user :: tokens[h];
      forall h | h in old(tokens) ensures old(tokens)[h].purpose in {Reset, Invite} {
        assert old(tokens)[h].purpose == Reset || old(tokens)[h].purpose == Invite;
      }
      assert tokens == WithoutTokens(old(tokens), user, {Reset, Invite});
      CancelPending(user, {Reset, Invite});
    }

    method DeleteSessions(user: string)
      modifies this`sessions
      ensures sessions == WithoutSessions(old(sessions), user)
    {
      sessions := map h | h in sessions && sessions[h] != user :: sessions[h];
    }

    method UpdatePassword(user: string, password: string, mustChange: bool) returns (found: bool)
      modifies this`users
      ensures found == (user in old(users))
      ensures users == if found then old(users)[user := old(users)[user].(password := password, mustChange := mustChange)] else old(users)
    {
      found := user in users;
      if found {
        users := users[user := users[user].(password := password, mustChange := mustChange)];
      }
    }

    /** issueToken. */
    method Issue(user: string, purpose: Purpose, hash: string, expiresAt: Time)
      modifies this
      ensures View() == IssueSpec(old(View()), user, purpose, hash, expiresAt)
    {
      tokens := map h | h in tokens && !(tokens[h].user == user && tokens[h].purpose == purpose) :: tokens[h];
      assert tokens == WithoutTokens(old(tokens), user, {purpose});
      CancelPending(user, {purpose});
      tokens := tokens[hash := Token(user, purpose, expiresAt)];
    }

    method QueueLink(user: string, purpose: Purpose, recipient: string, hash: string)
      modifies this
      ensures View() == QueueSpec(old(View()), user, purpose, recipient, hash)
    {
      mails := mails[next := Mail(user, purpose, recipient, hash, Pending)];
      next := next + 1;
    }

    method ResetPasswordUsingToken(hash: string, purpose: Purpose, password: string, now: Time) returns (ok: bool)
      modifies this
      ensures (View(), ok) == UseSpec(old(View()), hash, purpose, password, now)
    {
      if hash !in tokens || tokens[hash].purpose != purpose || tokens[hash].expiresAt <= now {
        return false;
      }
      var user := tokens[hash].user;
      if user !in users || users[user].disabled {
        return false;
      }
      var _ := UpdatePassword(user, password, false);
      DeleteSessions(user);
      InvalidateTokens(user);
      return true;
    }

    method ChangePassword(user: string, currentOk: bool, password: string) returns (ok: bool)
      modifies this
      ensures (View(), ok) == ChangeSpec(old(View()), user, currentOk, password)
    {
      if user !in users || users[user].disabled || !currentOk {
        return false;
      }
      var _ := UpdatePassword(user, password, false);
      InvalidateTokens(user);
      return true;
    }

    /** SetUserPassword and RecoverAdministrator, past their checks of the actor. */
    method ReplaceCredential(user: string, password: string) returns (ok: bool)
      modifies this
      ensures (View(), ok) == ReplaceSpec(old(View()), user, password)
    {
      if user !in users || users[user].disabled {
        return false;
      }
      var _ := UpdatePassword(user, password, true);
      DeleteSessions(user);
      InvalidateTokens(user);
      return true;
    }

    method SetDisabled(user: string, disabled: bool)
      requires user in users
      modifies this
      ensures View() == DisableSpec(old(View()), user, disabled)
    {
      users := users[user := users[user].(disabled := disabled)];
      if disabled {
        DeleteSessions(user);
      }
    }

    method UpdateProfile(user: string, email: string)
      requires user in users
      modifies this
      ensures View() == ProfileSpec(old(View()), user, email)
    {
      var current := users[user].email;
      users := users[user := users[user].(email := email)];
      if current != email {
        InvalidateTokens(user);
      }
    }

    method DeleteUser(user: string)
      modifies this
      ensures View() == DeleteSpec(old(View()), user)
    {
      users := users - {user};
      DeleteSessions(user);
      tokens := map h | h in tokens && tokens[h].user != user :: tokens[h];
      forall h | h in old(tokens) ensures old(tokens)[h].purpose in {Reset, Invite} {
        assert old(tokens)[h].purpose == Reset || old(tokens)[h].purpose == Invite;
      }
      assert tokens == WithoutTokens(old(tokens), user, {Reset, Invite});
    }
  }

  // ---------------------------------------------------------------------
  // Runs. Every statement or transaction of the store is one step. What a request
  // checked or read before a statement may be out of date by then, so the steps
  // take any arguments.

  /** A link as it was issued: the address is the one read before. */
  datatype Link = Link(user: string, purpose: Purpose, recipient: string)

  /** `issued` records every token ever issued, `consumed` every use that set a password. */
  datatype System = System(store: Store, issued: map<string, Link>, consumed: multiset<string>)

  datatype Step =
    | AddUser(user: string, account: Account)
    | Issue(user: string, purpose: Purpose, recipient: string, hash: string, expiresAt: Time)
    | Queue(hash: string)
    | Use(hash: string, purpose: Purpose, password: string, now: Time)
    | SetPassword(user: string, password: string, mustChange: bool)
    | DropSessions(user: string)
    | Retire(user: string)
    | SetDisabled(user: string, disabled: bool)
    | StoreSession(user: string, hash: string)
    | Logout(hash: string)
    | RevokeOthers(user: string, keep: string)
    | Profile(user: string, email: string)
    | ImportEmail(user: string, email: string)
    | CancelUserMail(user: string)
    | DeleteUser(user: string)
    | MailDone(id: nat, status: MailStatus)

  /** Keys are new, and the user a row refers to exists. */
  ghost predicate Enabled(s: System, step: Step) {
    match step
    case AddUser(user, _) => user !in s.store.users
    case Issue(user, _, _, hash, _) => user in s.store.users && hash !in s.issued
    case Queue(hash) => hash in s.issued
    case SetPassword(user, _, _) => user in s.store.users
    case SetDisabled(user, _) => user in s.store.users
    case StoreSession(user, hash) => user in s.store.users && hash !in s.store.sessions
    case Profile(user, _) => user in s.store.users
    case ImportEmail(user, _) => user in s.store.users
    case MailDone(id, status) => id in s.store.mails && s.store.mails[id].status == Pending && status != Pending
    case _ => true
  }

  ghost function Apply(s: System, step: Step): System
    requires Enabled(s, step)
  {
    var t := s.store;
    match step
    case AddUser(user, account) => s.(store := t.(users := t.users[user := account]))
    case Issue(user, purpose, recipient, hash, expiresAt) =>
      s.(store := IssueSpec(t, user, purpose, hash, expiresAt), issued := s.issued[hash := Link(user, purpose, recipient)])
    case Queue(hash) => s.(store := QueueSpec(t, s.issued[hash].user, s.issued[hash].purpose, s.issued[hash].recipient, hash))
    case Use(hash, purpose, password, now) =>
      s.(store := UseSpec(t, hash, purpose, password, now).0,
         consumed := if Usable(t, hash, purpose, now) then s.consumed + multiset{hash} else s.consumed)
    case SetPassword(user, password, mustChange) => s.(store := Repassworded(t, user, password, mustChange))
    case DropSessions(user) => s.(store := t.(sessions := WithoutSessions(t.sessions, user)))
    case Retire(user) => s.(store := Invalidated(t, user))
    case SetDisabled(user, disabled) => s.(store := DisableSpec(t, user, disabled))
    case StoreSession(user, hash) => s.(store := t.(sessions := t.sessions[hash := user]))
    case Logout(hash) => s.(store := t.(sessions := t.sessions - {hash}))
    case RevokeOthers(user, keep) => s.(store := t.(sessions := map h | h in t.sessions && (t.sessions[h] != user || h == keep) :: t.sessions[h]))
    case Profile(user, email) => s.(store := ProfileSpec(t, user, email))
    case ImportEmail(user, email) => s.(store := ImportEmailSpec(t, user, email))
    case CancelUserMail(user) => s.(store := t.(mails := CancelMail(t.mails, user, {Reset, Invite})))
    case DeleteUser(user) => s.(store := DeleteSpec(t, user))
    case MailDone(id, status) => s.(store := t.(mails := t.mails[id := t.mails[id].(status := status)]))
  }

  /** A holder who gives the current password changes it, and an administrator
      replaces it, exactly as long as the account exists and is enabled. */
  lemma ChangeSucceedsIff(t: Store, user: string, currentOk: bool, password: string)
    ensures ChangeSpec(t, user, currentOk, password).1 <==> user in t.users && !t.users[user].disabled && currentOk
    ensures ReplaceSpec(t, user, password).1 <==> user in t.users && !t.users[user].disabled
    ensures !ChangeSpec(t, user, currentOk, password).1 ==> ChangeSpec(t, user, currentOk, password).0 == t
    ensures !ReplaceSpec(t, user, password).1 ==> ReplaceSpec(t, user, password).0 == t
  {
  }

  /** The service's operations are these statements in a row. */
  lemma OperationsAreStatements(s: System, user: string, password: string)
    requires user in s.store.users && !s.store.users[user].disabled
    ensures Apply(Apply(s, SetPassword(user, password, false)), Retire(user)).store == ChangeSpec(s.store, user, true, password).0
    ensures Apply(Apply(Apply(s, SetPassword(user, password, true)), DropSessions(user)), Retire(user)).store == ReplaceSpec(s.store, user, password).0
  {
  }

  // ---------------------------------------------------------------------
  // The invariant

  /** One live token per account and purpose, as it was issued, of an existing account. */
  ghost predicate TokensOk(s: System) {
    && (forall h :: h in s.store.tokens ==>
          s.store.tokens[h].user in s.store.users && h in s.issued
          && s.issued[h].user == s.store.tokens[h].user && s.issued[h].purpose == s.store.tokens[h].purpose)
    && (forall h, other :: h in s.store.tokens && other in s.store.tokens && h != other ==>
          s.store.tokens[h].user != s.store.tokens[other].user || s.store.tokens[h].purpose != s.store.tokens[other].purpose)
  }

  /** Every credential mail carries a token issued for its account, purpose and recipient. */
  ghost predicate MailsOk(s: System) {
    forall id :: id in s.store.mails ==>
      var m := s.store.mails[id]; id < s.store.next && m.token in s.issued && s.issued[m.token] == Link(m.user, m.purpose, m.recipient)
  }

  /** No token sets a password twice. */
  ghost predicate ConsumedOk(s: System) {
    forall h :: s.consumed[h] <= 1 && (s.consumed[h] > 0 ==> h in s.issued && h !in s.store.tokens)
  }

  ghost predicate Inv(s: System) {
    TokensOk(s) && MailsOk(s) && ConsumedOk(s) && (forall h :: h in s.store.sessions ==> s.store.sessions[h] in s.store.users)
  }

  lemma EveryPurpose(t: Store, user: string)
    ensures forall h :: h in Invalidated(t, user).tokens <==> h in t.tokens && t.tokens[h].user != user
    ensures forall id :: id in t.mails && t.mails[id].user == user ==> Invalidated(t, user).mails[id].status != Pending
  {
    forall h | h in t.tokens ensures t.tokens[h].purpose in {Reset, Invite} {
      assert t.tokens[h].purpose == Reset || t.tokens[h].purpose == Invite;
    }
    forall id | id in t.mails ensures t.mails[id].purpose in {Reset, Invite} {
      assert t.mails[id].purpose == Reset || t.mails[id].purpose == Invite;
    }
  }

  lemma StepKeepsTokensOk(s: System, step: Step)
    requires TokensOk(s) && Enabled(s, step)
    ensures TokensOk(Apply(s, step))
  {
    if step.DeleteUser? {
      EveryPurpose(s.store, step.user);
    }
  }

  lemma StepKeepsMailsOk(s: System, step: Step)
    requires MailsOk(s) && Enabled(s, step)
    ensures MailsOk(Apply(s, step))
  {
  }

  lemma StepKeepsConsumedOk(s: System, step: Step)
    requires TokensOk(s) && ConsumedOk(s) && Enabled(s, step)
    ensures ConsumedOk(Apply(s, step))
  {
    if step.Use? && Usable(s.store, step.hash, step.purpose, step.now) {
      var user := s.store.tokens[step.hash].user;
      EveryPurpose(Repassworded(s.store, user, step.password, false).(sessions := WithoutSessions(s.store.sessions, user)), user);
    }
  }

  lemma StepKeepsInv(s: System, step: Step)
    requires Inv(s) && Enabled(s, step)
    ensures Inv(Apply(s, step))
  {
    StepKeepsTokensOk(s, step);
    StepKeepsMailsOk(s, step);
    StepKeepsConsumedOk(s, step);
    StepKeepsOwners(s, step);
  }

  lemma StepKeepsOwners(s: System, step: Step)
    requires Enabled(s, step) && forall h :: h in s.store.sessions ==> s.store.sessions[h] in s.store.users
    ensures forall h :: h in Apply(s, step).store.sessions ==> Apply(s, step).store.sessions[h] in Apply(s, step).store.users
  {
  }

  // ---------------------------------------------------------------------
  // What the runs keep

  ghost predicate Run(trace: seq<System>, steps: seq<Step>) {
    && |trace| == |steps| + 1
    && forall i :: 0 <= i < |steps| ==> Enabled(trace[i], steps[i]) && trace[i + 1] == Apply(trace[i], steps[i])
  }

  /** In every run each account has at most one live token per purpose, no token
      sets a password twice, and credential mail carries tokens of its recipient. */
  lemma RunsKeepCredentialsSound(trace: seq<System>, steps: seq<Step>)
    requires Run(trace, steps) && Inv(trace[0])
    ensures forall i :: 0 <= i < |trace| ==> Inv(trace[i])
  {
    for i := 0 to |steps|
      invariant forall k :: 0 <= k <= i ==> Inv(trace[k])
    {
      StepKeepsInv(trace[i], steps[i]);
    }
  }

  lemma EmptyIsSound(s: System)
    requires s == System(Store(map[], map[], map[], map[], 0), map[], multiset{})
    ensures Inv(s) && PendingMailIsLive(s.store)
  {
  }

  // ---------------------------------------------------------------------
  // Mail with dead links

  ghost predicate PendingFor(t: Store, user: string, id: nat) {
    id in t.mails && t.mails[id].user == user && t.mails[id].status == Pending
  }

  /** No mail with a dead link is still to be sent. */
  ghost predicate PendingMailIsLive(t: Store) {
    forall id :: id in t.mails && t.mails[id].status == Pending ==> t.mails[id].token in t.tokens
  }

  /** A link is queued while its token lives, and an account goes after its mail. */
  ghost predicate KeepsMailLive(s: System, step: Step) {
    match step
    case Queue(hash) => hash in s.store.tokens
    case DeleteUser(user) => forall id :: !PendingFor(s.store, user, id)
    case _ => true
  }

  lemma InvalidateKeepsMailLive(s: System, before: Store, user: string)
    requires Inv(s) && PendingMailIsLive(s.store) && before.tokens == s.store.tokens && before.mails == s.store.mails
    ensures PendingMailIsLive(Invalidated(before, user))
  {
    EveryPurpose(before, user);
  }

  lemma IssueKeepsMailLive(s: System, step: Step)
    requires Inv(s) && PendingMailIsLive(s.store) && step.Issue? && Enabled(s, step)
    ensures PendingMailIsLive(Apply(s, step).store)
  {
  }

  lemma DeleteKeepsMailLiveIff(s: System, user: string)
    requires Inv(s) && PendingMailIsLive(s.store)
    ensures PendingMailIsLive(DeleteSpec(s.store, user)) <==> forall id :: !PendingFor(s.store, user, id)
  {
    var t, after := s.store, DeleteSpec(s.store, user);
    EveryPurpose(t, user);
    if id :| PendingFor(t, user, id) {
      assert after.mails[id].token !in after.tokens;
    } else {
      forall id | id in after.mails && after.mails[id].status == Pending ensures after.mails[id].token in after.tokens {
        assert !PendingFor(t, user, id);
      }
    }
  }

  /** Pending mail gets a dead link in exactly two ways: the token died between its
      issue and the queueing of its mail, or mail was queued between the
      cancellation of an account's mail and the deletion of the account. */
  lemma PendingMailIsLiveKeptIff(s: System, step: Step)
    requires Inv(s) && PendingMailIsLive(s.store) && Enabled(s, step)
    ensures PendingMailIsLive(Apply(s, step).store) <==> KeepsMailLive(s, step)
  {
    var t, after := s.store, Apply(s, step).store;
    match step
    case Issue(_, _, _, _, _) => IssueKeepsMailLive(s, step);
    case Queue(hash) =>
      assert t.next !in t.mails && after.mails[t.next].token == hash;
    case Use(hash, purpose, password, now) =>
      if Usable(t, hash, purpose, now) {
        var user := t.tokens[hash].user;
        InvalidateKeepsMailLive(s, Repassworded(t, user, password, false).(sessions := WithoutSessions(t.sessions, user)), user);
      }
    case Retire(user) => InvalidateKeepsMailLive(s, t, user);
    case Profile(user, email) => InvalidateKeepsMailLive(s, t.(users := t.users[user := t.users[user].(email := email)]), user);
    case DeleteUser(user) => DeleteKeepsMailLiveIff(s, user);
    case _ =>
  }

  /** A run that observes this order mails no dead link. */
  lemma OrderlyRunsMailLiveLinks(trace: seq<System>, steps: seq<Step>)
    requires Run(trace, steps) && Inv(trace[0]) && PendingMailIsLive(trace[0].store)
    requires forall i :: 0 <= i < |steps| ==> KeepsMailLive(trace[i], steps[i])
    ensures forall i :: 0 <= i < |trace| ==> PendingMailIsLive(trace[i].store)
  {
    RunsKeepCredentialsSound(trace, steps);
    for i := 0 to |steps|
      invariant forall k :: 0 <= k <= i ==> PendingMailIsLive(trace[k].store)
    {
      PendingMailIsLiveKeptIff(trace[i], steps[i]);
    }
  }

  /** Two requests for a link of one kind: the first token is superseded before its
      mail is queued, and the mail goes out with a link that does not work. */
  lemma SupersededLinkIsMailed(s: System, user: string, purpose: Purpose, recipient: string, first: string,
                               second: string, expiresAt: Time)
    requires Inv(s) && PendingMailIsLive(s.store) && user in s.store.users
    requires first !in s.issued && second !in s.issued && first != second
    ensures var issued := Apply(Apply(s, Issue(user, purpose, recipient, first, expiresAt)), Issue(user, purpose, recipient, second, expiresAt));
            Enabled(issued, Queue(first)) && !PendingMailIsLive(Apply(issued, Queue(first)).store)
  {
    var once := Apply(s, Issue(user, purpose, recipient, first, expiresAt));
    var issued := Apply(once, Issue(user, purpose, recipient, second, expiresAt));
    StepKeepsInv(s, Issue(user, purpose, recipient, first, expiresAt));
    StepKeepsInv(once, Issue(user, purpose, recipient, second, expiresAt));
    IssueKeepsMailLive(s, Issue(user, purpose, recipient, first, expiresAt));
    IssueKeepsMailLive(once, Issue(user, purpose, recipient, second, expiresAt));
    PendingMailIsLiveKeptIff(issued, Queue(first));
  }

  // ---------------------------------------------------------------------
  // Old links

  /** The statement that ends a change of the account's password. */
  ghost predicate RetiresLinks(s: System, step: Step, user: string) {
    match step
    case Use(hash, purpose, _, now) => Usable(s.store, hash, purpose, now) && s.store.tokens[hash].user == user
    case Retire(u) => u == user
    case _ => false
  }

  ghost predicate NoTokenOf(t: Store, user: string) {
    forall h :: h in t.tokens ==> t.tokens[h].user != user
  }

  /** By whatever route the password is set, its last statement leaves no token of
      the account and no pending mail with one; a use of a link ends the sessions too. */
  lemma PasswordChangeRetiresLinks(s: System, step: Step, user: string)
    requires Inv(s) && Enabled(s, step) && RetiresLinks(s, step, user)
    ensures NoTokenOf(Apply(s, step).store, user) && forall id :: !PendingFor(Apply(s, step).store, user, id)
    ensures step.Use? ==> forall h :: h in Apply(s, step).store.sessions ==> Apply(s, step).store.sessions[h] != user
  {
    EveryPurpose(s.store, user);
  }

  /** A link works for its purpose and its enabled account, from its issue until its
      expiry is reached; then it changes nothing. */
  lemma LinkWorksUntilExpiry(s: System, user: string, purpose: Purpose, recipient: string, hash: string, expiresAt: Time,
                             asked: Purpose, password: string, now: Time)
    requires Enabled(s, Issue(user, purpose, recipient, hash, expiresAt))
    ensures var issued := Apply(s, Issue(user, purpose, recipient, hash, expiresAt));
            var (after, ok) := UseSpec(issued.store, hash, asked, password, now);
            && (ok <==> now < expiresAt && asked == purpose && !s.store.users[user].disabled)
            && (!ok ==> after == issued.store)
            && (ok ==>
                  && after.users == s.store.users[user := s.store.users[user].(password := password, mustChange := false)]
                  && hash !in after.tokens && forall h :: h in after.sessions <==> h in s.store.sessions && s.store.sessions[h] != user)
  {
    var issued := Apply(s, Issue(user, purpose, recipient, hash, expiresAt));
    var renewed := Repassworded(issued.store, user, password, false).(sessions := WithoutSessions(issued.store.sessions, user));
    EveryPurpose(renewed, user);
  }

  /** No use of a link after its expiry changes anything. */
  lemma ExpiredLinkChangesNothing(t: Store, hash: string, purpose: Purpose, password: string, now: Time)
    requires hash in t.tokens ==> t.tokens[hash].expiresAt <= now
    ensures UseSpec(t, hash, purpose, password, now) == (t, false)
  {
  }

  /** Until then every link works as before, and a link overrides the new password. */
  lemma OldLinksWorkUntilRetired(s: System, user: string, password: string, mustChange: bool, hash: string,
                                 purpose: Purpose, now: Time, other: string)
    requires Inv(s) && user in s.store.users
    ensures var changed := Apply(Apply(s, SetPassword(user, password, mustChange)), DropSessions(user));
            && (Usable(changed.store, hash, purpose, now) <==> Usable(s.store, hash, purpose, now))
            && (Usable(s.store, hash, purpose, now) && s.store.tokens[hash].user == user ==>
                  Apply(changed, Use(hash, purpose, other, now)).store.users[user].password == other)
  {
  }

  /** A token that was issued and is not live stays dead. */
  lemma StepKeepsDead(s: System, step: Step, hash: string)
    requires Enabled(s, step) && hash in s.issued && hash !in s.store.tokens
    ensures hash in Apply(s, step).issued && hash !in Apply(s, step).store.tokens
  {
  }

  /** Once a change of the account's password has ended, by any route, no link
      issued before ever works again. */
  lemma OldLinksNeverWorkAgain(trace: seq<System>, steps: seq<Step>, i: nat, j: nat, hash: string, user: string,
                               purpose: Purpose, now: Time)
    requires Run(trace, steps) && Inv(trace[0]) && i < j < |trace|
    requires RetiresLinks(trace[i], steps[i], user) && hash in trace[i].issued && trace[i].issued[hash].user == user
    ensures !Usable(trace[j].store, hash, purpose, now)
  {
    RunsKeepCredentialsSound(trace, steps);
    PasswordChangeRetiresLinks(trace[i], steps[i], user);
    StepKeepsInv(trace[i], steps[i]);
    for k := i + 1 to j
      invariant hash in trace[k].issued && hash !in trace[k].store.tokens
    {
      StepKeepsDead(trace[k], steps[k], hash);
    }
  }

  // ---------------------------------------------------------------------
  // Disabled accounts and sessions

  ghost predicate NoSessionOfDisabled(t: Store) {
    forall h :: h in t.sessions && t.sessions[h] in t.users ==> !t.users[t.sessions[h]].disabled
  }

  /** A session row of a disabled account appears in exactly one way: its sign-in
      was checked before the account was disabled and is stored after. */
  lemma NoSessionOfDisabledKeptIff(s: System, step: Step)
    requires Inv(s) && Enabled(s, step) && NoSessionOfDisabled(s.store)
    ensures NoSessionOfDisabled(Apply(s, step).store) <==> (step.StoreSession? ==> !s.store.users[step.user].disabled)
  {
    if step.StoreSession? {
      assert Apply(s, step).store.sessions[step.hash] == step.user;
    }
  }

  /** Even then the session does not sign anybody in while the account is disabled. */
  lemma DisabledAccountsAreSignedOut(t: Store, hash: string)
    ensures SessionUser(t, hash).Some? ==> !t.users[SessionUser(t, hash).value].disabled
    ensures NoSessionOfDisabled(t) && hash in t.sessions && t.sessions[hash] in t.users ==> SessionUser(t, hash) == Some(t.sessions[hash])
  {
  }

  // ---------------------------------------------------------------------
  // Links and addresses

  /** Every live link goes to the account's present address. */
  ghost predicate LinksFollowAddress(s: System) {
    forall h :: h in s.store.tokens && s.store.tokens[h].user in s.store.users && h in s.issued ==>
      s.issued[h].recipient == s.store.users[s.store.tokens[h].user].email
  }

  /** The link goes where the account's mail goes now, and no import moves the
      address of an account with a live link. */
  ghost predicate KeepsAddress(s: System, step: Step)
    requires Enabled(s, step)
  {
    match step
    case Issue(user, _, recipient, _, _) => recipient == s.store.users[user].email
    case ImportEmail(user, email) => email != "" && email != s.store.users[user].email ==> NoTokenOf(s.store, user)
    case _ => true
  }

  /** A profile update takes the links to the old address with it. The property is
      lost in exactly two ways: an import changes the address of an account with a
      live link, or a token is issued after the address read for it was changed. */
  lemma LinksFollowAddressKeptIff(s: System, step: Step)
    requires Inv(s) && Enabled(s, step) && LinksFollowAddress(s)
    ensures LinksFollowAddress(Apply(s, step)) <==> KeepsAddress(s, step)
  {
    var after := Apply(s, step);
    match step
    case Issue(user, _, recipient, hash, _) =>
      assert hash in after.store.tokens && after.issued[hash].recipient == recipient;
    case ImportEmail(user, email) =>
      if email != "" && email != s.store.users[user].email && !NoTokenOf(s.store, user) {
        var h :| h in s.store.tokens && s.store.tokens[h].user == user;
        assert after.issued[h].recipient == s.store.users[user].email;
      }
    case Profile(user, email) => EveryPurpose(s.store, user);
    case _ =>
  }
}
