/** The Jira accounts and their API tokens: the account list, the active
    account, the keyring (the "secure store", whose calls may fail) and the
    local-storage fallback for tokens the keyring would not take. */
module Accounts {
  import opened Wrappers
  import opened Text

  /** `JiraAccount`, without the optional in-memory token (never set). */
  datatype Account = Account(id: string, email: string, domain: string)

  predicate HasId(accounts: seq<Account>, id: string) {
    exists i :: 0 <= i < |accounts| && accounts[i].id == id
  }

  /** No two accounts share an id, as `crypto.randomUUID` makes them. */
  predicate UniqueIds(accounts: seq<Account>) {
    forall i, j :: 0 <= i < j < |accounts| ==> accounts[i].id != accounts[j].id
  }

  /** Position of the first account with the given id. */
  function IndexOfId(accounts: seq<Account>, id: string): (i: nat)
    requires HasId(accounts, id)
    ensures i < |accounts| && accounts[i].id == id
    ensures forall j :: 0 <= j < i ==> accounts[j].id != id
  {
    if accounts[0].id == id then 0
    else
      assert HasId(accounts[1..], id) by {
        var k :| 0 <= k < |accounts| && accounts[k].id == id;
        assert accounts[1..][k - 1].id == id;
      }
      1 + IndexOfId(accounts[1..], id)
  }

  /** `accounts.find(a => a.id === id)` */
  function FindAccount(accounts: seq<Account>, id: string): (r: Option<Account>)
    ensures r.Some? <==> HasId(accounts, id)
    ensures r.Some? ==> r.value.id == id && r.value in accounts
  {
    if HasId(accounts, id) then Some(accounts[IndexOfId(accounts, id)]) else None
  }

  /** `accounts.filter(a => a.id !== id)` */
  function RemoveId(accounts: seq<Account>, id: string): seq<Account> {
    if |accounts| == 0 then []
    else
      var last := accounts[|accounts| - 1];
      RemoveId(accounts[..|accounts| - 1], id) + (if last.id == id then [] else [last])
  }

  /** Filtering keeps exactly the accounts with another id. */
  lemma {:induction false} RemoveIdMembers(accounts: seq<Account>, id: string, a: Account)
    ensures a in RemoveId(accounts, id) <==> a in accounts && a.id != id
    decreases |accounts|
  {
    if |accounts| > 0 {
      var init := accounts[..|accounts| - 1];
      RemoveIdMembers(init, id, a);
      assert accounts == init + [accounts[|accounts| - 1]];
    }
  }

  /** Removing the one account that carries an id leaves the others in their
      order. */
  lemma {:induction false} RemoveIdAt(accounts: seq<Account>, k: nat)
    requires k < |accounts|
    requires forall j :: 0 <= j < |accounts| && j != k ==> accounts[j].id != accounts[k].id
    ensures RemoveId(accounts, accounts[k].id) == accounts[..k] + accounts[k + 1..]
    decreases |accounts|
  {
    var id := accounts[k].id;
    var init := accounts[..|accounts| - 1];
    var last := accounts[|accounts| - 1];
    if k == |accounts| - 1 {
      RemoveIdAbsent(init, id);
      assert accounts[..k] == init;
    } else {
      forall j | 0 <= j < |init| && j != k ensures init[j].id != init[k].id {
        assert init[j] == accounts[j];
      }
      RemoveIdAt(init, k);
      assert init[..k] == accounts[..k];
      assert accounts[k + 1..] == init[k + 1..] + [last];
    }
  }

  /** An id no account carries removes nothing. */
  lemma {:induction false} RemoveIdAbsent(accounts: seq<Account>, id: string)
    requires forall j :: 0 <= j < |accounts| ==> accounts[j].id != id
    ensures RemoveId(accounts, id) == accounts
    decreases |accounts|
  {
    if |accounts| > 0 {
      var init := accounts[..|accounts| - 1];
      forall j | 0 <= j < |init| ensures init[j].id != id {
        assert init[j] == accounts[j];
      }
      RemoveIdAbsent(init, id);
      assert accounts == init + [accounts[|accounts| - 1]];
    }
  }

  /** The active-account invariant: no account, no active id; otherwise the
      active id is that of a listed account. */
  predicate ActiveOk(accounts: seq<Account>, active: string) {
    if |accounts| == 0 then active == "" else HasId(accounts, active)
  }

  /** The active id chosen on load from the saved list and the saved id. */
  function ChooseActive(parsed: seq<Account>, lastActive: Option<string>): (r: string)
    ensures ActiveOk(parsed, r)
    ensures lastActive.Some? && lastActive.value != "" && HasId(parsed, lastActive.value) ==> r == lastActive.value
    ensures |parsed| > 0 && !(lastActive.Some? && lastActive.value != "" && HasId(parsed, lastActive.value))
      ==> r == parsed[0].id
  {
    if |parsed| == 0 then ""
    else if lastActive.Some? && lastActive.value != "" && HasId(parsed, lastActive.value) then lastActive.value
    else parsed[0].id
  }

  /** The active id after deleting `id`: the first remaining account, or none,
      when the active account was deleted. */
  function NextActive(updated: seq<Account>, active: string, id: string): string {
    if active == id then (if |updated| > 0 then updated[0].id else "") else active
  }

  /** `getSecureToken`: the keyring's answer when it has one; otherwise the
      fallback token, unless it is missing or empty. */
  function ResolveToken(secureRead: Option<string>, stored: Option<string>): (r: Option<string>)
    ensures secureRead.Some? ==> r == secureRead
    ensures secureRead.None? ==> (r.Some? <==> stored.Some? && stored.value != "")
    ensures secureRead.None? && r.Some? ==> r == stored
  {
    if secureRead.Some? then secureRead
    else if stored.Some? && stored.value != "" then stored
    else None
  }

  /** The whole state of the account store. */
  datatype StoreState = StoreState(accounts: seq<Account>, activeId: string,
                                   secure: map<string, string>, fallback: map<string, string>)

  function Lookup(m: map<string, string>, k: string): Option<string> {
    if k in m then Some(m[k]) else None
  }

  /** The token `getSecureToken(email)` yields; `readOk` is whether the
      keyring could be reached (a missing entry is an error as well). */
  function ReadToken(s: StoreState, email: string, readOk: bool): Option<string> {
    ResolveToken(if readOk then Lookup(s.secure, email) else None, Lookup(s.fallback, email))
  }

  /** `addAccount` with a fresh id; `saveOk` is whether the keyring stored the
      token. */
  function Added(s: StoreState, newId: string, email: string, domain: string, token: string, saveOk: bool): StoreState {
    StoreState(
      s.accounts + [Account(newId, email, TrimTrailingSlashes(domain))],
      newId,
      if saveOk then s.secure[email := token] else s.secure,
      if saveOk then s.fallback - {email} else s.fallback[email := token])
  }

  /** `deleteAccount`; `deleteOk` is whether the keyring removed the token. */
  function Deleted(s: StoreState, id: string, deleteOk: bool): StoreState {
    var found := FindAccount(s.accounts, id);
    var updated := RemoveId(s.accounts, id);
    StoreState(
      updated,
      NextActive(updated, s.activeId, id),
      if found.Some? && deleteOk then s.secure - {found.value.email} else s.secure,
      if found.Some? then s.fallback - {found.value.email} else s.fallback)
  }

  /** Adding appends exactly one account, with its domain's trailing slashes
      stripped, makes it active, and keeps the invariant.  With a fresh id the
      active account is the new one and the ids stay unique. */
  lemma AddedSpec(s: StoreState, newId: string, email: string, domain: string, token: string, saveOk: bool)
    requires ActiveOk(s.accounts, s.activeId)
    ensures var t := Added(s, newId, email, domain, token, saveOk);
      && |t.accounts| == |s.accounts| + 1
      && t.accounts[..|s.accounts|] == s.accounts
      && t.accounts[|s.accounts|] == Account(newId, email, TrimTrailingSlashes(domain))
      && t.activeId == newId
      && ActiveOk(t.accounts, t.activeId)
    ensures var t := Added(s, newId, email, domain, token, saveOk);
      !HasId(s.accounts, newId) ==>
        && FindAccount(t.accounts, t.activeId) == Some(Account(newId, email, TrimTrailingSlashes(domain)))
        && (UniqueIds(s.accounts) ==> UniqueIds(t.accounts))
  {
    var t := Added(s, newId, email, domain, token, saveOk);
    var k := |s.accounts|;
    assert t.accounts[k].id == newId;
    assert t.accounts[..k] == s.accounts;
    if !HasId(s.accounts, newId) {
      assert forall j :: 0 <= j < k ==> t.accounts[j].id != newId by {
        forall j | 0 <= j < k ensures t.accounts[j].id != newId {
          assert t.accounts[j] == s.accounts[j];
        }
      }
      assert IndexOfId(t.accounts, newId) == k;
    }
  }

  /** A token that the keyring took is read back from it; one it refused is
      read from the fallback when the keyring holds nothing for that email,
      and the fallback is written exactly when the keyring refused. */
  lemma AddedToken(s: StoreState, newId: string, email: string, domain: string, token: string, saveOk: bool, readOk: bool)
    ensures var t := Added(s, newId, email, domain, token, saveOk);
      && (saveOk && readOk ==> ReadToken(t, email, readOk) == Some(token))
      && (saveOk ==> email !in t.fallback)
      && (!saveOk ==> email in t.fallback && t.fallback[email] == token)
      && (!saveOk && (!readOk || email !in s.secure) ==>
            ReadToken(t, email, readOk) == (if token != "" then Some(token) else None))
  {
  }

  /** Deleting removes exactly the accounts with that id, drops that email's
      fallback token, and keeps the invariant, picking the first remaining
      account when the active one was deleted. */
  lemma DeletedActive(s: StoreState, id: string, deleteOk: bool)
    requires ActiveOk(s.accounts, s.activeId)
    ensures var t := Deleted(s, id, deleteOk);
      && (forall a :: a in t.accounts <==> a in s.accounts && a.id != id)
      && ActiveOk(t.accounts, t.activeId)
      && (s.activeId == id ==> t.activeId == (if |t.accounts| > 0 then t.accounts[0].id else ""))
      && (s.activeId != id ==> t.activeId == s.activeId)
      && (HasId(s.accounts, id) ==> FindAccount(s.accounts, id).value.email !in t.fallback)
  {
    var t := Deleted(s, id, deleteOk);
    forall a ensures a in t.accounts <==> a in s.accounts && a.id != id {
      RemoveIdMembers(s.accounts, id, a);
    }
    if |s.accounts| > 0 && s.activeId != id {
      var k :| 0 <= k < |s.accounts| && s.accounts[k].id == s.activeId;
      RemoveIdMembers(s.accounts, id, s.accounts[k]);
      var j :| 0 <= j < |t.accounts| && t.accounts[j] == s.accounts[k];
    }
    if |s.accounts| == 0 {
      assert t.accounts == [];
    }
  }

  /** The part of the above the store's invariant needs, and uniqueness. */
  lemma DeletedValid(s: StoreState, id: string, deleteOk: bool)
    requires ActiveOk(s.accounts, s.activeId)
    ensures ActiveOk(Deleted(s, id, deleteOk).accounts, Deleted(s, id, deleteOk).activeId)
    ensures UniqueIds(s.accounts) ==> UniqueIds(Deleted(s, id, deleteOk).accounts)
  {
    DeletedActive(s, id, deleteOk);
    if UniqueIds(s.accounts) {
      RemoveIdUnique(s.accounts, id);
    }
  }

  /** All of `deleteAccount`: the active-account facts above and, with unique
      ids, the exact remaining list: the deleted account cut out, the others
      in their order. */
  lemma DeletedSpec(s: StoreState, id: string, deleteOk: bool)
    requires ActiveOk(s.accounts, s.activeId)
    ensures var t := Deleted(s, id, deleteOk);
      && (forall a :: a in t.accounts <==> a in s.accounts && a.id != id)
      && ActiveOk(t.accounts, t.activeId)
      && (s.activeId == id ==> t.activeId == (if |t.accounts| > 0 then t.accounts[0].id else ""))
      && (s.activeId != id ==> t.activeId == s.activeId)
      && (HasId(s.accounts, id) ==> FindAccount(s.accounts, id).value.email !in t.fallback)
    ensures var t := Deleted(s, id, deleteOk);
      && (!HasId(s.accounts, id) ==> t.accounts == s.accounts)
      && (UniqueIds(s.accounts) && HasId(s.accounts, id) ==>
            var k := IndexOfId(s.accounts, id);
            t.accounts == s.accounts[..k] + s.accounts[k + 1..])
      && (UniqueIds(s.accounts) ==> UniqueIds(t.accounts))
  {
    DeletedActive(s, id, deleteOk);
    DeletedOrder(s.accounts, id);
  }

  /** With unique ids, removing an id drops exactly the one account that has
      it and keeps the rest in order and unique; an absent id removes nothing. */
  lemma DeletedOrder(accounts: seq<Account>, id: string)
    ensures !HasId(accounts, id) ==> RemoveId(accounts, id) == accounts
    ensures UniqueIds(accounts) && HasId(accounts, id) ==>
      var k := IndexOfId(accounts, id);
      RemoveId(accounts, id) == accounts[..k] + accounts[k + 1..]
    ensures UniqueIds(accounts) ==> UniqueIds(RemoveId(accounts, id))
  {
    if !HasId(accounts, id) {
      RemoveIdAbsent(accounts, id);
    } else if UniqueIds(accounts) {
      var k := IndexOfId(accounts, id);
      RemoveIdAt(accounts, k);
      CutUnique(accounts, k);
    }
  }

  /** Cutting one account out keeps the ids unique. */
  lemma CutUnique(accounts: seq<Account>, k: nat)
    requires UniqueIds(accounts) && k < |accounts|
    ensures UniqueIds(accounts[..k] + accounts[k + 1..])
  {
    var r := accounts[..k] + accounts[k + 1..];
    forall i, j | 0 <= i < j < |r| ensures r[i].id != r[j].id {
      var i' := if i < k then i else i + 1;
      var j' := if j < k then j else j + 1;
      assert r[i] == accounts[i'] && r[j] == accounts[j'];
    }
  }

  /** Filtering keeps the ids unique. */
  lemma RemoveIdUnique(accounts: seq<Account>, id: string)
    requires UniqueIds(accounts)
    ensures UniqueIds(RemoveId(accounts, id))
  {
    DeletedOrder(accounts, id);
  }

  /** A keyring that fails to delete and then fails to save leaves the old
      token in place, and it still wins over the freshly entered one: after
      adding an account, deleting it and adding it again with a new token,
      the old token is read. */
  lemma StaleKeyringToken(s: StoreState, id1: string, id2: string, email: string, domain: string, oldToken: string, newToken: string)
    requires ActiveOk(s.accounts, s.activeId) && !HasId(s.accounts, id1)
    ensures var s1 := Added(s, id1, email, domain, oldToken, true);
      var s2 := Deleted(s1, id1, false);
      var s3 := Added(s2, id2, email, domain, newToken, false);
      ReadToken(s3, email, true) == Some(oldToken)
  {
    var s1 := Added(s, id1, email, domain, oldToken, true);
    var k := |s.accounts|;
    assert s1.accounts[k].id == id1;
    assert FindAccount(s1.accounts, id1).Some?;
  }

  /** The account store of the application. */
  class AccountStore {
    var accounts: seq<Account>
    var activeId: string
    var secure: map<string, string>
    var fallback: map<string, string>

    predicate Valid()
      reads this
    {
      ActiveOk(accounts, activeId)
    }

    function State(): StoreState
      reads this
    {
      StoreState(accounts, activeId, secure, fallback)
    }

    /** The mount-time load: the saved list (`None` when absent or not
        parseable), the active id chosen from it, and the two token stores as
        they are. */
    constructor Load(saved: Option<seq<Account>>, lastActive: Option<string>,
                     keyring: map<string, string>, stored: map<string, string>)
      ensures Valid()
      ensures accounts == saved.GetOr([])
      ensures activeId == ChooseActive(saved.GetOr([]), lastActive)
      ensures secure == keyring && fallback == stored
    {
      var parsed := saved.GetOr([]);
      accounts := parsed;
      activeId := "";
      if |parsed| > 0 {
        if lastActive.Some? && lastActive.value != "" && FindAccount(parsed, lastActive.value).Some? {
          activeId := lastActive.value;
        } else {
          activeId := parsed[0].id;
        }
      }
      secure := keyring;
      fallback := stored;
    }

    method AddAccount(email: string, domain: string, token: string, newId: string, saveOk: bool)
      requires Valid()
      requires !HasId(accounts, newId)
      modifies this
      ensures Valid()
      ensures State() == Added(old(State()), newId, email, domain, token, saveOk)
      ensures FindAccount(accounts, activeId) == Some(Account(newId, email, TrimTrailingSlashes(domain)))
      ensures old(UniqueIds(accounts)) ==> UniqueIds(accounts)
    {
      var cleanDomain := TrimTrailingSlashes(domain);
      var newAccount := Account(newId, email, cleanDomain);
      var secureSaved := false;
      if saveOk {
        secure := secure[email := token];
        secureSaved := true;
      }
      if !secureSaved {
        fallback := fallback[email := token];
      } else {
        fallback := fallback - {email};
      }
      AddedSpec(old(State()), newId, email, domain, token, saveOk);
      accounts := accounts + [newAccount];
      activeId := newId;
    }

    method DeleteAccount(id: string, deleteOk: bool)
      requires Valid()
      modifies this
      ensures Valid()
      ensures State() == Deleted(old(State()), id, deleteOk)
      ensures old(UniqueIds(accounts)) ==> UniqueIds(accounts)
    {
      ghost var s := State();
      var accountToRemove := FindAccount(accounts, id);
      if accountToRemove.Some? {
        if deleteOk {
          secure := secure - {accountToRemove.value.email};
        }
        fallback := fallback - {accountToRemove.value.email};
      }
      var updated := RemoveId(accounts, id);
      accounts := updated;
      if activeId == id {
        activeId := if |updated| > 0 then updated[0].id else "";
      }
      assert State() == Deleted(s, id, deleteOk);
      DeletedValid(s, id, deleteOk);
    }

    method GetSecureToken(email: string, readOk: bool) returns (token: Option<string>)
      ensures token == ReadToken(State(), email, readOk)
    {
      if readOk && email in secure {
        return Some(secure[email]);
      }
      if email in fallback && fallback[email] != "" {
        return Some(fallback[email]);
      }
      return None;
    }
  }
}
