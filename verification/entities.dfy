/** The two persisted entities and the repository that stores them, as values. The database
    becomes a row sequence of accounts (queries return the first matching row, as
    `FirstOrDefaultAsync` does) and a map of users keyed by their identity column. */
module Entities {
  import opened Outcomes

  /** `DateTime`, kept opaque: the core only copies and compares birthdays. */
  datatype DateTime = DateTime(ticks: int)

  datatype User = User(userId: int, firstName: string, lastName: string, birthday: DateTime)

  /** An account row; the `User` navigation property is resolved through `userId`. */
  datatype Account = Account(accountId: int, userId: int, email: string, password: string)

  /** The two tables plus the next value of each identity column. */
  datatype Repository = Repository(
    accounts: seq<Account>,
    users: map<int, User>,
    nextAccountId: int,
    nextUserId: int)

  /** An empty database; identity columns start at 1. */
  const EmptyRepository: Repository := Repository([], map[], 1, 1)

  /** What every state the handlers can produce satisfies: identities are positive and below
      the next identity value, account ids are distinct, and each user is filed under its id. */
  ghost predicate Valid(repo: Repository) {
    && repo.nextAccountId >= 1
    && repo.nextUserId >= 1
    && (forall i :: 0 <= i < |repo.accounts| ==> 1 <= repo.accounts[i].accountId < repo.nextAccountId)
    && (forall i, j :: 0 <= i < j < |repo.accounts| ==> repo.accounts[i].accountId != repo.accounts[j].accountId)
    && (forall k :: k in repo.users ==> repo.users[k].userId == k && 1 <= k < repo.nextUserId)
  }

  lemma EmptyRepositoryValid()
    ensures Valid(EmptyRepository)
  {
  }

  /** Position of the first row satisfying `matches`, or -1 when no row does. */
  function FirstIndex(rows: seq<Account>, matches: Account -> bool): (i: int)
    ensures -1 <= i < |rows|
    ensures i >= 0 ==> matches(rows[i]) && forall j :: 0 <= j < i ==> !matches(rows[j])
    ensures i == -1 ==> forall j :: 0 <= j < |rows| ==> !matches(rows[j])
    decreases |rows|
  {
    if |rows| == 0 then -1
    else if matches(rows[0]) then 0
    else
      var k := FirstIndex(rows[1..], matches);
      if k == -1 then -1 else k + 1
  }

  /** The first row satisfying `matches`, as `Where(..).FirstOrDefaultAsync()` returns it. */
  function FirstMatch(rows: seq<Account>, matches: Account -> bool): (r: Option<Account>)
    ensures r.Some? <==> exists i :: 0 <= i < |rows| && matches(rows[i])
    ensures r.Some? ==> matches(r.value) && r.value in rows
  {
    var i := FirstIndex(rows, matches);
    if i == -1 then None else Some(rows[i])
  }

  /** `IAccountRepository.GetByEmailAsync`: the first account with exactly this email. */
  function FindAccountByEmail(repo: Repository, email: string): (r: Option<Account>)
    ensures r.Some? <==> exists i :: 0 <= i < |repo.accounts| && repo.accounts[i].email == email
    ensures r.Some? ==> r.value.email == email && r.value in repo.accounts
  {
    FirstMatch(repo.accounts, (a: Account) => a.email == email)
  }

  /** `IAccountRepository.GetAsync`: the account with this id. */
  function FindAccount(repo: Repository, accountId: int): (r: Option<Account>)
    ensures r.Some? <==> exists i :: 0 <= i < |repo.accounts| && repo.accounts[i].accountId == accountId
    ensures r.Some? ==> r.value.accountId == accountId && r.value in repo.accounts
  {
    FirstMatch(repo.accounts, (a: Account) => a.accountId == accountId)
  }

  /** `IUserRepository.GetAsync`. */
  function FindUser(repo: Repository, userId: int): Option<User> {
    if userId in repo.users then Some(repo.users[userId]) else None
  }

  /** The `Account.User` navigation property loaded by `Include(x => x.User)`. */
  function LinkedUser(repo: Repository, account: Account): Option<User> {
    FindUser(repo, account.userId)
  }

  /** `IUserRepository.InsertAsync` on a successful save: the user gets the next identity value,
      which the caller reads back from `user.UserId`. */
  function AddUser(repo: Repository, firstName: string, lastName: string, birthday: DateTime): (r: (Repository, int))
    ensures r.1 == repo.nextUserId && r.0.nextUserId == repo.nextUserId + 1
    ensures r.0.users.Keys == repo.users.Keys + {r.1} && r.0.users[r.1] == User(r.1, firstName, lastName, birthday)
    ensures forall k :: k in repo.users && k != r.1 ==> r.0.users[k] == repo.users[k]
    ensures r.0.accounts == repo.accounts && r.0.nextAccountId == repo.nextAccountId
    ensures Valid(repo) ==> Valid(r.0) && r.1 !in repo.users && FindUser(r.0, r.1) == Some(User(r.1, firstName, lastName, birthday))
  {
    var id := repo.nextUserId;
    (repo.(users := repo.users[id := User(id, firstName, lastName, birthday)], nextUserId := id + 1), id)
  }

  /** `IAccountRepository.InsertAsync` on a successful save: a new row with the next id. */
  function AddAccount(repo: Repository, userId: int, email: string, password: string): (r: (Repository, Account))
    ensures r.1 == Account(repo.nextAccountId, userId, email, password)
    ensures r.0.accounts == repo.accounts + [r.1] && r.0.users == repo.users && r.0.nextUserId == repo.nextUserId
    ensures Valid(repo) ==> Valid(r.0) && FindAccount(r.0, r.1.accountId) == Some(r.1)
  {
    var account := Account(repo.nextAccountId, userId, email, password);
    var repo' := repo.(accounts := repo.accounts + [account], nextAccountId := repo.nextAccountId + 1);
    FindFreshId(repo, account);
    (repo', account)
  }

  /** `IUserRepository.UpdateAsync` on a successful save of the user read under `userId`. */
  function ReplaceUser(repo: Repository, userId: int, user: User): Repository {
    repo.(users := repo.users[userId := user])
  }

  /** `IUserRepository.DeleteAsync` on a successful save (without cascading to accounts). */
  function RemoveUser(repo: Repository, userId: int): Repository {
    repo.(users := repo.users - {userId})
  }

  /** The rows other than those with the given id, in their order. */
  function Without(rows: seq<Account>, accountId: int): (r: seq<Account>)
    ensures forall a :: a in r <==> a in rows && a.accountId != accountId
    ensures |r| <= |rows|
    decreases |rows|
  {
    if |rows| == 0 then []
    else if rows[0].accountId == accountId then Without(rows[1..], accountId)
    else
      assert forall a :: a in rows <==> a == rows[0] || a in rows[1..];
      [rows[0]] + Without(rows[1..], accountId)
  }

  /** `IAccountRepository.DeleteAsync` on a successful save. */
  function RemoveAccount(repo: Repository, accountId: int): Repository {
    repo.(accounts := Without(repo.accounts, accountId))
  }

  /** In a valid repository the next account id is unused, so a row carrying it is the only
      one with that id. */
  lemma FindFreshId(repo: Repository, account: Account)
    requires account.accountId == repo.nextAccountId
    ensures Valid(repo) ==> FirstMatch(repo.accounts + [account], (a: Account) => a.accountId == account.accountId) == Some(account)
  {
    if Valid(repo) {
      FindAppended(repo.accounts, account, (a: Account) => a.accountId == account.accountId);
    }
  }

  /** Looking for a row appended after rows none of which match finds the appended one. */
  lemma FindAppended(rows: seq<Account>, row: Account, matches: Account -> bool)
    requires matches(row)
    requires forall i :: 0 <= i < |rows| ==> !matches(rows[i])
    ensures FirstMatch(rows + [row], matches) == Some(row)
  {
    var all := rows + [row];
    assert all[|rows|] == row;
    assert forall j :: 0 <= j < |rows| ==> all[j] == rows[j];
    assert FirstIndex(all, matches) == |rows|;
  }

  /** Round trip: a new account is found by its email when no earlier account has that email. */
  lemma FindAddedAccountByEmail(repo: Repository, userId: int, email: string, password: string)
    requires FindAccountByEmail(repo, email).None?
    ensures FindAccountByEmail(AddAccount(repo, userId, email, password).0, email)
         == Some(AddAccount(repo, userId, email, password).1)
  {
    var account := AddAccount(repo, userId, email, password).1;
    FindAppended(repo.accounts, account, (a: Account) => a.email == email);
  }

  /** Adding an account never changes which account an email already registered finds. */
  lemma AddAccountKeepsEmailLookups(repo: Repository, userId: int, email: string, password: string, other: string)
    requires FindAccountByEmail(repo, other).Some?
    ensures FindAccountByEmail(AddAccount(repo, userId, email, password).0, other) == FindAccountByEmail(repo, other)
  {
    FindAfterAppend(repo.accounts, AddAccount(repo, userId, email, password).1, (a: Account) => a.email == other);
  }

  /** Adding a row never changes which row an earlier successful lookup finds. */
  lemma FindAfterAppend(rows: seq<Account>, row: Account, matches: Account -> bool)
    requires FirstMatch(rows, matches).Some?
    ensures FirstMatch(rows + [row], matches) == FirstMatch(rows, matches)
  {
    var i := FirstIndex(rows, matches);
    var all := rows + [row];
    assert forall j :: 0 <= j <= i ==> all[j] == rows[j];
    FirstIndexIsUnique(all, matches, i);
  }

  /** The first index is the one index that matches after no earlier index does. */
  lemma FirstIndexIsUnique(rows: seq<Account>, matches: Account -> bool, i: int)
    requires 0 <= i < |rows| && matches(rows[i]) && forall j :: 0 <= j < i ==> !matches(rows[j])
    ensures FirstIndex(rows, matches) == i
  {
    var k := FirstIndex(rows, matches);
    assert k != -1;
    assert !(k < i) && !(i < k);
  }

  /** A removed account is gone and every other account is still found. */
  lemma RemoveAccountRemoves(repo: Repository, accountId: int, other: int)
    requires Valid(repo)
    ensures FindAccount(RemoveAccount(repo, accountId), accountId).None?
    ensures other != accountId ==> FindAccount(RemoveAccount(repo, accountId), other) == FindAccount(repo, other)
    ensures Valid(RemoveAccount(repo, accountId))
  {
    var rest := RemoveAccount(repo, accountId);
    var rows := rest.accounts;
    WithoutKeepsOrder(repo.accounts, accountId);
    if other != accountId {
      var before, after := FindAccount(repo, other), FindAccount(rest, other);
      if after.Some? {
        assert after.value in repo.accounts;
      }
      if before.Some? {
        assert before.value in rows;
        assert after.Some?;
        UniqueIds(repo.accounts, after.value, before.value);
      }
    }
  }

  /** Deleting rows keeps the remaining rows distinct and in range. */
  lemma WithoutKeepsOrder(rows: seq<Account>, accountId: int)
    requires forall i, j :: 0 <= i < j < |rows| ==> rows[i].accountId != rows[j].accountId
    ensures forall i, j :: 0 <= i < j < |Without(rows, accountId)| ==>
      Without(rows, accountId)[i].accountId != Without(rows, accountId)[j].accountId
    decreases |rows|
  {
    if |rows| > 0 {
      WithoutKeepsOrder(rows[1..], accountId);
      if rows[0].accountId != accountId {
        var r := Without(rows, accountId);
        forall j | 1 <= j < |r| ensures r[0].accountId != r[j].accountId {
          assert r[j] in Without(rows[1..], accountId);
          assert r[j] in rows[1..];
        }
      }
    }
  }

  /** Two rows with the same id in a table with distinct ids are the same row. */
  lemma UniqueIds(rows: seq<Account>, a: Account, b: Account)
    requires forall i, j :: 0 <= i < j < |rows| ==> rows[i].accountId != rows[j].accountId
    requires a in rows && b in rows && a.accountId == b.accountId
    ensures a == b
  {
  }
}
