/** The xtream_accounts table and XtreamAccountService: every account has an
    owner, and an account is visible, changeable and removable only through
    its owner; to anyone else it does not exist. */
module Xtream {
  import opened Wrappers
  import opened Users

  /** The generated UUID primary key. */
  type AccountId = nat

  /** A row of the xtream_accounts table (timestamps left out). The two
      credentials are stored in their encrypted form. */
  datatype AccountRow = AccountRow(
    id: AccountId,
    user: User,
    name: string,
    apiUrl: string,
    usernameEnc: string,
    passwordEnc: string)

  /** The table, keyed by the account id. */
  type AccountTable = map<AccountId, AccountRow>

  /** NOT_FOUND, or the primary key refusing an insert. */
  datatype XtreamError = NotFound | DuplicateId

  /** Each row sits under its own id. */
  ghost predicate ValidAccounts(t: AccountTable)
  {
    forall id :: id in t ==> t[id].id == id
  }

  /** Whether the account belongs to the user (compared by user id). */
  predicate OwnedBy(row: AccountRow, user: User)
  {
    row.user.id == user.id
  }

  /** `listFor(user)`: the accounts whose owner is the user. */
  function ListForIn(t: AccountTable, user: User): (r: set<AccountRow>)
    ensures forall row :: row in r <==> row in t.Values && OwnedBy(row, user)
  {
    set id | id in t && OwnedBy(t[id], user) :: t[id]
  }

  /** `getOwned(user, id)`: the account, when it exists and is the user's;
      NOT_FOUND alike for a missing id and for another user's account. */
  function GetOwnedIn(t: AccountTable, user: User, id: AccountId): (r: Result<AccountRow, XtreamError>)
    ensures r.Success? <==> id in t && OwnedBy(t[id], user)
    ensures r.Success? ==> r.value == t[id]
    ensures r.Failure? ==> r.error == NotFound
  {
    if id !in t then Failure(NotFound)
    else if !OwnedBy(t[id], user) then Failure(NotFound)
    else Success(t[id])
  }

  /** `create`: a new account with exactly the given owner, name, URL and
      encrypted credentials, under the generated id. */
  function CreateIn(t: AccountTable, user: User, id: AccountId, name: string, apiUrl: string,
                    usernameEnc: string, passwordEnc: string): (r: Result<(AccountRow, AccountTable), XtreamError>)
    ensures r.Failure? <==> id in t
    ensures r.Failure? ==> r.error == DuplicateId
    ensures r.Success? ==>
      var (row, t') := r.value;
      && row == AccountRow(id, user, name, apiUrl, usernameEnc, passwordEnc)
      && t'.Keys == t.Keys + {id} && t'[id] == row
      && (forall k :: k in t ==> t'[k] == t[k])
    ensures ValidAccounts(t) && r.Success? ==> ValidAccounts(r.value.1)
  {
    if id in t then Failure(DuplicateId)
    else
      var row := AccountRow(id, user, name, apiUrl, usernameEnc, passwordEnc);
      Success((row, t[id := row]))
  }

  /** The field value after a partial update: the argument when given, the
      stored value when null. */
  function Patch(arg: Option<string>, stored: string): string
  {
    if arg.Some? then arg.value else stored
  }

  /** `update`: on an owned account, replace exactly the fields whose
      argument is given; anything else is NOT_FOUND and changes nothing. */
  function UpdateIn(t: AccountTable, user: User, id: AccountId, name: Option<string>, apiUrl: Option<string>,
                    usernameEnc: Option<string>, passwordEnc: Option<string>)
    : (r: Result<(AccountRow, AccountTable), XtreamError>)
    ensures r.Failure? <==> !(id in t && OwnedBy(t[id], user))
    ensures r.Failure? ==> r.error == NotFound
    ensures r.Success? ==>
      var (row, t') := r.value;
      && t'.Keys == t.Keys && t'[id] == row
      && (forall k :: k in t && k != id ==> t'[k] == t[k])
      && row.id == t[id].id && row.user == t[id].user
      && (name.None? ==> row.name == t[id].name) && (name.Some? ==> row.name == name.value)
      && (apiUrl.None? ==> row.apiUrl == t[id].apiUrl) && (apiUrl.Some? ==> row.apiUrl == apiUrl.value)
      && (usernameEnc.None? ==> row.usernameEnc == t[id].usernameEnc)
      && (usernameEnc.Some? ==> row.usernameEnc == usernameEnc.value)
      && (passwordEnc.None? ==> row.passwordEnc == t[id].passwordEnc)
      && (passwordEnc.Some? ==> row.passwordEnc == passwordEnc.value)
    ensures ValidAccounts(t) && r.Success? ==> ValidAccounts(r.value.1)
  {
    match GetOwnedIn(t, user, id)
    case Failure(e) => Failure(e)
    case Success(row) =>
      var row' := row.(name := Patch(name, row.name), apiUrl := Patch(apiUrl, row.apiUrl),
                       usernameEnc := Patch(usernameEnc, row.usernameEnc),
                       passwordEnc := Patch(passwordEnc, row.passwordEnc));
      Success((row', t[id := row']))
  }

  /** `delete`: remove an owned account and nothing else; anything else is
      NOT_FOUND and changes nothing. */
  function DeleteIn(t: AccountTable, user: User, id: AccountId): (r: Result<AccountTable, XtreamError>)
    ensures r.Failure? <==> !(id in t && OwnedBy(t[id], user))
    ensures r.Failure? ==> r.error == NotFound
    ensures r.Success? ==> r.value.Keys == t.Keys - {id} && (forall k :: k in r.value ==> r.value[k] == t[k])
    ensures ValidAccounts(t) && r.Success? ==> ValidAccounts(r.value)
  {
    match GetOwnedIn(t, user, id)
    case Failure(e) => Failure(e)
    case Success(_) => Success(t - {id})
  }

  /** getOwned and listFor agree: an account can be fetched by the user
      exactly when it is in the user's list. */
  lemma GetOwnedIffListed(t: AccountTable, user: User, id: AccountId)
    requires ValidAccounts(t) && id in t
    ensures GetOwnedIn(t, user, id).Success? <==> t[id] in ListForIn(t, user)
  {
  }

  /** A created account is in its owner's list, which otherwise stays as it
      was, and every other user's list is unchanged. */
  lemma CreateExtendsList(t: AccountTable, user: User, other: User, id: AccountId, name: string, apiUrl: string,
                          usernameEnc: string, passwordEnc: string)
    requires ValidAccounts(t) && CreateIn(t, user, id, name, apiUrl, usernameEnc, passwordEnc).Success?
    ensures var (row, t') := CreateIn(t, user, id, name, apiUrl, usernameEnc, passwordEnc).value;
            ListForIn(t', user) == ListForIn(t, user) + {row}
    ensures other.id != user.id ==>
            ListForIn(CreateIn(t, user, id, name, apiUrl, usernameEnc, passwordEnc).value.1, other) == ListForIn(t, other)
  {
    var (row, t') := CreateIn(t, user, id, name, apiUrl, usernameEnc, passwordEnc).value;
    assert t'.Values == t.Values + {row} by {
      forall v | v in t'.Values ensures v in t.Values + {row} {
        var k :| k in t' && t'[k] == v;
        if k != id { assert t[k] == v; }
      }
      forall v | v in t.Values + {row} ensures v in t'.Values {
        if v != row {
          var k :| k in t && t[k] == v;
          assert t'[k] == v;
        }
      }
    }
  }

  /** After a delete the account is gone for its owner too, and every other
      account can still be fetched as before. */
  lemma DeleteThenNotFound(t: AccountTable, user: User, id: AccountId, other: User, id2: AccountId)
    requires DeleteIn(t, user, id).Success?
    ensures GetOwnedIn(DeleteIn(t, user, id).value, user, id) == Failure(NotFound)
    ensures id2 != id ==> GetOwnedIn(DeleteIn(t, user, id).value, other, id2) == GetOwnedIn(t, other, id2)
  {
  }

  /** Another user's update or delete is refused and changes nothing, and
      no update ever moves an account to another owner. */
  lemma OthersCannotTouch(t: AccountTable, owner: User, user: User, id: AccountId, name: Option<string>,
                          apiUrl: Option<string>, usernameEnc: Option<string>, passwordEnc: Option<string>)
    requires id in t && OwnedBy(t[id], owner) && user.id != owner.id
    ensures UpdateIn(t, user, id, name, apiUrl, usernameEnc, passwordEnc) == Failure(NotFound)
    ensures DeleteIn(t, user, id) == Failure(NotFound)
    ensures UpdateIn(t, owner, id, name, apiUrl, usernameEnc, passwordEnc).Success?
    ensures OwnedBy(UpdateIn(t, owner, id, name, apiUrl, usernameEnc, passwordEnc).value.1[id], owner)
  {
  }

  /** An update that gives no field leaves the table as it was. */
  lemma EmptyUpdateChangesNothing(t: AccountTable, user: User, id: AccountId)
    requires UpdateIn(t, user, id, None, None, None, None).Success?
    ensures UpdateIn(t, user, id, None, None, None, None).value == (t[id], t)
  {
    var (row, t') := UpdateIn(t, user, id, None, None, None, None).value;
    assert row == t[id];
    assert t' == t;
  }

  /** Repeating an update changes nothing more. */
  lemma UpdateIdempotent(t: AccountTable, user: User, id: AccountId, name: Option<string>,
                         apiUrl: Option<string>, usernameEnc: Option<string>, passwordEnc: Option<string>)
    requires UpdateIn(t, user, id, name, apiUrl, usernameEnc, passwordEnc).Success?
    ensures var t' := UpdateIn(t, user, id, name, apiUrl, usernameEnc, passwordEnc).value.1;
            UpdateIn(t', user, id, name, apiUrl, usernameEnc, passwordEnc) ==
            UpdateIn(t, user, id, name, apiUrl, usernameEnc, passwordEnc)
  {
    var (row, t') := UpdateIn(t, user, id, name, apiUrl, usernameEnc, passwordEnc).value;
    var (row2, t'') := UpdateIn(t', user, id, name, apiUrl, usernameEnc, passwordEnc).value;
    assert row2 == row;
    assert t'' == t';
  }

  /** The XtreamAccount entity. */
  class XtreamAccount {
    const id: AccountId
    const user: User
    var name: string
    var apiUrl: string
    var usernameEnc: string
    var passwordEnc: string

    /** `new XtreamAccount()`, its setters, and the id the save generates. */
    constructor (id: AccountId, user: User, name: string, apiUrl: string, usernameEnc: string, passwordEnc: string)
      ensures Row() == AccountRow(id, user, name, apiUrl, usernameEnc, passwordEnc)
    {
      this.id := id;
      this.user := user;
      this.name := name;
      this.apiUrl := apiUrl;
      this.usernameEnc := usernameEnc;
      this.passwordEnc := passwordEnc;
    }

    function Row(): AccountRow
      reads this
    {
      AccountRow(id, user, name, apiUrl, usernameEnc, passwordEnc)
    }

    /** `setName`: only the name changes. */
    method SetName(name: string)
      modifies this
      ensures Row() == old(Row()).(name := name)
    {
      this.name := name;
    }

    /** `setApiUrl`: only the URL changes. */
    method SetApiUrl(apiUrl: string)
      modifies this
      ensures Row() == old(Row()).(apiUrl := apiUrl)
    {
      this.apiUrl := apiUrl;
    }

    /** `setUsernameEnc`: only the encrypted username changes. */
    method SetUsernameEnc(usernameEnc: string)
      modifies this
      ensures Row() == old(Row()).(usernameEnc := usernameEnc)
    {
      this.usernameEnc := usernameEnc;
    }

    /** `setPasswordEnc`: only the encrypted password changes. */
    method SetPasswordEnc(passwordEnc: string)
      modifies this
      ensures Row() == old(Row()).(passwordEnc := passwordEnc)
    {
      this.passwordEnc := passwordEnc;
    }
  }

  /** XtreamAccountService over the repository's accounts, found by id. */
  class XtreamAccountService {
    var accounts: map<AccountId, XtreamAccount>
    /** The rows of the stored accounts, kept in step with the entities. */
    ghost var table: AccountTable

    constructor ()
      ensures accounts == map[] && table == map[]
    {
      accounts := map[];
      table := map[];
    }

    /** Each account sits under its own id, and `table` holds, under the
        same ids, the rows the entities hold. */
    ghost predicate Valid()
      reads this, accounts.Values
    {
      && accounts.Keys == table.Keys
      && (forall k :: k in accounts ==> accounts[k].id == k && accounts[k].Row() == table[k])
    }

    /** `listFor(user)`: the rows of the user's accounts. */
    function ListFor(user: User): (r: set<AccountRow>)
      reads this, accounts.Values
      ensures Valid() ==> r == ListForIn(table, user)
    {
      set k | k in accounts && accounts[k].user.id == user.id :: accounts[k].Row()
    }

    /** `getOwned(user, id)`: the entity found holds the row stored under
        that id. */
    function GetOwned(user: User, id: AccountId): (r: Result<XtreamAccount, XtreamError>)
      reads this, accounts.Values
      ensures Valid() ==> (r.Success? <==> GetOwnedIn(table, user, id).Success?)
      ensures r.Failure? ==> r.error == NotFound
      ensures Valid() && r.Success? ==> r.value == accounts[id] && r.value.Row() == table[id]
    {
      if id !in accounts then Failure(NotFound)
      else if accounts[id].user.id != user.id then Failure(NotFound)
      else Success(accounts[id])
    }

    /** `create`, under the id the save generates. */
    method Create(user: User, id: AccountId, name: string, apiUrl: string, usernameEnc: string, passwordEnc: string)
      returns (r: Result<XtreamAccount, XtreamError>)
      requires Valid()
      modifies this
      ensures Valid()
      ensures var x := CreateIn(old(table), user, id, name, apiUrl, usernameEnc, passwordEnc);
              && (x.Success? ==> r.Success? && fresh(r.value) && accounts == old(accounts)[id := r.value]
                                 && table == x.value.1)
              && (x.Failure? ==> r == Failure(x.error) && accounts == old(accounts) && table == old(table))
    {
      if id in accounts {
        return Failure(DuplicateId);
      }
      var xa := new XtreamAccount(id, user, name, apiUrl, usernameEnc, passwordEnc);
      accounts := accounts[id := xa];
      table := table[id := xa.Row()];
      return Success(xa);
    }

    /** The four guarded setter calls of `update`: a field changes exactly
        when its argument is given. */
    method SetGiven(xa: XtreamAccount, name: Option<string>, apiUrl: Option<string>,
                    usernameEnc: Option<string>, passwordEnc: Option<string>)
      modifies xa
      ensures xa.Row() == old(xa.Row()).(name := Patch(name, old(xa.name)), apiUrl := Patch(apiUrl, old(xa.apiUrl)),
                                          usernameEnc := Patch(usernameEnc, old(xa.usernameEnc)),
                                          passwordEnc := Patch(passwordEnc, old(xa.passwordEnc)))
    {
      if name.Some? {
        xa.SetName(name.value);
      }
      if apiUrl.Some? {
        xa.SetApiUrl(apiUrl.value);
      }
      if usernameEnc.Some? {
        xa.SetUsernameEnc(usernameEnc.value);
      }
      if passwordEnc.Some? {
        xa.SetPasswordEnc(passwordEnc.value);
      }
    }

    /** `update`: load the owned account, set each given field, save. */
    method Update(user: User, id: AccountId, name: Option<string>, apiUrl: Option<string>,
                  usernameEnc: Option<string>, passwordEnc: Option<string>)
      returns (r: Result<XtreamAccount, XtreamError>)
      requires Valid()
      modifies this, accounts.Values
      ensures Valid() && accounts == old(accounts)
      ensures var x := UpdateIn(old(table), user, id, name, apiUrl, usernameEnc, passwordEnc);
              && (x.Success? ==> r.Success? && r.value.Row() == x.value.0 && table == x.value.1)
              && (x.Failure? ==> r == Failure(x.error) && table == old(table))
    {
      var found := GetOwned(user, id);
      if found.Failure? {
        return Failure(found.error);
      }
      var xa := found.value;
      ghost var row := table[id];
      ghost var row' := row.(name := Patch(name, row.name), apiUrl := Patch(apiUrl, row.apiUrl),
                             usernameEnc := Patch(usernameEnc, row.usernameEnc),
                             passwordEnc := Patch(passwordEnc, row.passwordEnc));
      assert UpdateIn(table, user, id, name, apiUrl, usernameEnc, passwordEnc) == Success((row', table[id := row']));
      SetGiven(xa, name, apiUrl, usernameEnc, passwordEnc);
      assert xa.Row() == row';
      assert forall k :: k in accounts && k != id ==> accounts[k] != xa;
      table := table[id := row'];
      return Success(xa);
    }

    /** `delete`: load the owned account and remove it. */
    method Delete(user: User, id: AccountId) returns (r: Result<(), XtreamError>)
      requires Valid()
      modifies this
      ensures Valid()
      ensures var x := DeleteIn(old(table), user, id);
              && (x.Success? ==> r.Success? && accounts == old(accounts) - {id} && table == x.value)
              && (x.Failure? ==> r == Failure(x.error) && accounts == old(accounts) && table == old(table))
    {
      var found := GetOwned(user, id);
      if found.Failure? {
        return Failure(found.error);
      }
      accounts := accounts - {id};
      table := table - {id};
      return Success(());
    }
  }
}
