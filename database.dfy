/** The credential store of database.py: an `accounts` table whose rows keep
    each TOTP secret encrypted, behind the `Database` class. The SQLite file
    becomes an in-memory table (a sequence of rows and the AUTOINCREMENT
    counter), the key file an optional key, and Fernet an abstract
    authenticated cipher. */
module CredentialStore {
  import opened Wrappers
  import opened Strings
  import Base64

  /** The contents of key.key. */
  type Key = seq<Byte>

  /** The randomness one Fernet encryption draws (its IV and timestamp). */
  type Nonce = nat

  /** Fernet together with the UTF-8 coding around it: `seal` turns a key, a
      nonce and a text into a token; `open` reads a token back under a key,
      or fails (`InvalidToken`). */
  datatype Cipher = Cipher(seal: (Key, Nonce, string) -> seq<Byte>, open: (Key, seq<Byte>) -> Option<string>)

  /** The property the store relies on: a token opens, under the key that
      sealed it, to the text that was sealed. */
  ghost predicate Inverts(c: Cipher) {
    forall k: Key, n: Nonce, p: string :: c.open(k, c.seal(k, n, p)) == Some(p)
  }

  /** `encrypt_secret`: the Fernet token of the secret, wrapped in Base64;
      unwrapping the envelope gives back exactly that token. */
  function EncryptSecret(c: Cipher, key: Key, nonce: Nonce, secret: string): (s: string)
    ensures Base64.Decode(s) == Some(c.seal(key, nonce, secret))
  {
    Base64.DecodeEncode(c.seal(key, nonce, secret));
    Base64.Encode(c.seal(key, nonce, secret))
  }

  /** `decrypt_secret`: unwrap the Base64 envelope and open the token; either
      step may fail. */
  function DecryptSecret(c: Cipher, key: Key, envelope: string): (r: Option<string>)
    ensures Base64.Decode(envelope).None? ==> r.None?
  {
    match Base64.Decode(envelope)
    case None => None
    case Some(token) => c.open(key, token)
  }

  /** A secret stored under a key reads back as itself under that key,
      whatever randomness the encryption drew. */
  lemma DecryptEncrypt(c: Cipher, key: Key, nonce: Nonce, secret: string)
    requires Inverts(c)
    ensures DecryptSecret(c, key, EncryptSecret(c, key, nonce, secret)) == Some(secret)
  {
  }

  /** One row of the `accounts` table: the secret column holds the envelope. */
  datatype Row = Row(id: nat, name: string, secret: string, issuer: string, createdAt: nat)

  /** One entry of the list `get_all_accounts` returns: `(id, name, secret,
      issuer)` with the secret in clear. */
  datatype Account = Account(id: nat, name: string, secret: string, issuer: string)

  /** Where the database file stands when the accounts are listed. */
  datatype StorageStatus = Available | Missing | Failed

  /** The ids of the rows. */
  function Ids(rows: seq<Row>): set<nat> {
    set r | r in rows :: r.id
  }

  /** The account a row reads as, when its secret can be decrypted. */
  function DecryptRow(c: Cipher, key: Key, row: Row): (r: Option<Account>)
    ensures r.Some? <==> DecryptSecret(c, key, row.secret).Some?
    ensures r.Some? ==> r.value == Account(row.id, row.name, DecryptSecret(c, key, row.secret).value, row.issuer)
  {
    match DecryptSecret(c, key, row.secret)
    case None => None
    case Some(secret) => Some(Account(row.id, row.name, secret, row.issuer))
  }

  /** How `get_all_accounts` reads one row: `None` when it is skipped. */
  function Reader(c: Cipher, key: Key): Row -> Option<Account> {
    row => DecryptRow(c, key, row)
  }

  /** The rows that read, in the same order, as accounts: the list the loop
      of `get_all_accounts` appends to, skipping a row that fails. */
  function Listed(read: Row -> Option<Account>, rows: seq<Row>): seq<Account>
    decreases |rows|
  {
    if rows == [] then []
    else
      var init := Listed(read, rows[..|rows| - 1]);
      match read(rows[|rows| - 1])
      case None => init
      case Some(account) => init + [account]
  }

  /** The listing of a concatenation is the listing of each part. */
  lemma {:induction false} ListedAppend(read: Row -> Option<Account>, a: seq<Row>, b: seq<Row>)
    ensures Listed(read, a + b) == Listed(read, a) + Listed(read, b)
    decreases |b|
  {
    if b != [] {
      var init := b[..|b| - 1];
      assert (a + b)[..|a + b| - 1] == a + init;
      ListedAppend(read, a, init);
    } else {
      assert a + b == a;
    }
  }

  /** An account is listed exactly when some row reads as it: the rows that
      fail are the only ones dropped, and one of them never hides another. */
  lemma {:induction false} ListedMembers(read: Row -> Option<Account>, rows: seq<Row>, a: Account)
    ensures a in Listed(read, rows) <==> exists r | r in rows :: read(r) == Some(a)
    decreases |rows|
  {
    if rows != [] {
      var init := rows[..|rows| - 1];
      var last := rows[|rows| - 1];
      ListedMembers(read, init, a);
      assert rows == init + [last];
      assert forall r :: r in rows <==> r in init || r == last;
    }
  }

  /** Never more accounts than rows, and exactly as many when every row
      reads. */
  lemma {:induction false} ListedLength(read: Row -> Option<Account>, rows: seq<Row>)
    ensures |Listed(read, rows)| <= |rows|
    ensures (forall r | r in rows :: read(r).Some?) ==> |Listed(read, rows)| == |rows|
    decreases |rows|
  {
    if rows != [] {
      var init := rows[..|rows| - 1];
      assert forall r | r in init :: r in rows;
      ListedLength(read, init);
    }
  }

  /** Taking one row out of the middle takes its account, if any, out of
      the listing. */
  lemma ListedTakeOut(read: Row -> Option<Account>, before: seq<Row>, x: Row, after: seq<Row>)
    ensures multiset(Listed(read, before + [x] + after))
         == multiset(Listed(read, [x])) + multiset(Listed(read, before + after))
  {
    ListedAppend(read, before + [x], after);
    ListedAppend(read, before, [x]);
    ListedAppend(read, before, after);
  }

  /** Two orderings of the same rows still agree once the first row of one
      is taken out of both. */
  lemma PermutationTail(a: seq<Row>, b: seq<Row>, i: nat)
    requires multiset(a) == multiset(b) && a != [] && i < |b| && b[i] == a[0]
    ensures a == [a[0]] + a[1..] && b == b[..i] + [b[i]] + b[i + 1..]
    ensures multiset(a[1..]) == multiset(b[..i] + b[i + 1..])
  {
    assert a == [a[0]] + a[1..];
    assert b == b[..i] + [b[i]] + b[i + 1..];
    calc {
      multiset(a[1..]);
    == { assert a == [a[0]] + a[1..]; }
      multiset(a) - multiset{a[0]};
    ==
      multiset(b) - multiset{b[i]};
    == { assert b == b[..i] + [b[i]] + b[i + 1..]; }
      multiset(b[..i] + b[i + 1..]);
    }
  }

  /** Reordering the rows reorders the listing, and no more. */
  lemma {:induction false} ListedPermutation(read: Row -> Option<Account>, a: seq<Row>, b: seq<Row>)
    requires multiset(a) == multiset(b)
    ensures multiset(Listed(read, a)) == multiset(Listed(read, b))
    decreases |a|
  {
    if a == [] {
      assert b == [];
    } else {
      var x := a[0];
      assert x in multiset(b);
      var i :| 0 <= i < |b| && b[i] == x;
      var before, after := b[..i], b[i + 1..];
      var rest := before + after;
      PermutationTail(a, b, i);
      ListedPermutation(read, a[1..], rest);
      ListedAppend(read, [x], a[1..]);
      ListedTakeOut(read, before, x, after);
    }
  }

  /** A listed account keeps the name of a row it was read from. */
  lemma {:induction false} ListedNames(read: Row -> Option<Account>, rows: seq<Row>)
    requires forall r | read(r).Some? :: read(r).value.name == r.name
    ensures forall a | a in Listed(read, rows) :: exists r | r in rows :: r.name == a.name
    decreases |rows|
  {
    if rows != [] {
      var init := rows[..|rows| - 1];
      ListedNames(read, init);
      assert forall r | r in init :: r in rows;
    }
  }

  /** Rows in ascending name order, as `ORDER BY name` returns them. */
  predicate SortedByName(rows: seq<Row>) {
    forall i, j | 0 <= i < j < |rows| :: LessEq(rows[i].name, rows[j].name)
  }

  /** Accounts in ascending name order. */
  predicate AccountsSortedByName(accounts: seq<Account>) {
    forall i, j | 0 <= i < j < |accounts| :: LessEq(accounts[i].name, accounts[j].name)
  }

  /** Inserts a row before the first row whose name is greater than its own. */
  function InsertByName(row: Row, sorted: seq<Row>): (r: seq<Row>)
    ensures multiset(r) == multiset(sorted) + multiset{row}
    decreases |sorted|
  {
    if sorted == [] || !LessEq(sorted[0].name, row.name) then [row] + sorted
    else
      assert sorted == [sorted[0]] + sorted[1..];
      [sorted[0]] + InsertByName(row, sorted[1..])
  }

  /** A row ahead of sorted rows it does not exceed leaves them sorted. */
  lemma ConsSorted(row: Row, rows: seq<Row>)
    requires SortedByName(rows)
    requires forall y | y in rows :: LessEq(row.name, y.name)
    ensures SortedByName([row] + rows)
  {
    var r := [row] + rows;
    forall i, j | 0 <= i < j < |r| ensures LessEq(r[i].name, r[j].name) {
      if i == 0 {
        assert r[j] == rows[j - 1];
      } else {
        assert r[i] == rows[i - 1] && r[j] == rows[j - 1];
      }
    }
  }

  /** A lower bound of a row and of some rows bounds the rows with the row
      inserted. */
  lemma InsertByNameBound(row: Row, sorted: seq<Row>, lo: string)
    requires LessEq(lo, row.name)
    requires forall y | y in sorted :: LessEq(lo, y.name)
    ensures forall y | y in InsertByName(row, sorted) :: LessEq(lo, y.name)
  {
    var r := InsertByName(row, sorted);
    forall y | y in r ensures LessEq(lo, y.name) {
      assert y in multiset(r);
      assert y == row || y in multiset(sorted);
    }
  }

  /** Inserting into sorted rows keeps them sorted. */
  lemma {:induction false} InsertByNameSorted(row: Row, sorted: seq<Row>)
    requires SortedByName(sorted)
    ensures SortedByName(InsertByName(row, sorted))
    decreases |sorted|
  {
    if sorted == [] {
    } else if !LessEq(sorted[0].name, row.name) {
      LessEqTotal(sorted[0].name, row.name);
      forall y | y in sorted ensures LessEq(row.name, y.name) {
        var j :| 0 <= j < |sorted| && sorted[j] == y;
        if j > 0 {
          LessEqTransitive(row.name, sorted[0].name, y.name);
        }
      }
      ConsSorted(row, sorted);
    } else {
      var tail := sorted[1..];
      assert SortedByName(tail) by {
        forall i, j | 0 <= i < j < |tail| ensures LessEq(tail[i].name, tail[j].name) {
          assert tail[i] == sorted[i + 1] && tail[j] == sorted[j + 1];
        }
      }
      InsertByNameSorted(row, tail);
      forall y | y in tail ensures LessEq(sorted[0].name, y.name) {
        var j :| 0 <= j < |tail| && tail[j] == y;
        assert sorted[j + 1] == y;
      }
      InsertByNameBound(row, tail, sorted[0].name);
      ConsSorted(sorted[0], InsertByName(row, tail));
    }
  }

  /** The rows in name order, ties kept in table order. */
  function SortByName(rows: seq<Row>): (r: seq<Row>)
    ensures multiset(r) == multiset(rows)
    decreases |rows|
  {
    if rows == [] then []
    else
      var sorted := SortByName(rows[..|rows| - 1]);
      assert rows == rows[..|rows| - 1] + [rows[|rows| - 1]];
      InsertByName(rows[|rows| - 1], sorted)
  }

  /** Sorting orders the rows by name. */
  lemma {:induction false} SortByNameSorted(rows: seq<Row>)
    ensures SortedByName(SortByName(rows))
    decreases |rows|
  {
    if rows != [] {
      SortByNameSorted(rows[..|rows| - 1]);
      InsertByNameSorted(rows[|rows| - 1], SortByName(rows[..|rows| - 1]));
    }
  }

  /** Listing sorted rows keeps the accounts sorted, since each account
      keeps the name of its row and the listing is a subsequence of the rows. */
  lemma {:induction false} ListedSorted(read: Row -> Option<Account>, rows: seq<Row>)
    requires forall r | read(r).Some? :: read(r).value.name == r.name
    requires SortedByName(rows)
    ensures AccountsSortedByName(Listed(read, rows))
    decreases |rows|
  {
    if rows != [] {
      var init := rows[..|rows| - 1];
      var last := rows[|rows| - 1];
      assert SortedByName(init) by {
        forall i, j | 0 <= i < j < |init| ensures LessEq(init[i].name, init[j].name) {
          assert init[i] == rows[i] && init[j] == rows[j];
        }
      }
      ListedSorted(read, init);
      ListedNames(read, init);
      var accounts := Listed(read, rows);
      var prefix := Listed(read, init);
      if read(last).Some? {
        forall i, j | 0 <= i < j < |accounts| ensures LessEq(accounts[i].name, accounts[j].name) {
          if j == |accounts| - 1 {
            assert accounts[i] == prefix[i] && accounts[i] in prefix;
            var r :| r in init && r.name == prefix[i].name;
            var k :| 0 <= k < |init| && init[k] == r;
            assert rows[k] == r;
          } else {
            assert accounts[i] == prefix[i] && accounts[j] == prefix[j];
          }
        }
      }
    }
  }

  /** The table without the rows of one id (`DELETE ... WHERE id = ?`),
      the other rows kept in order. */
  function WithoutId(rows: seq<Row>, id: nat): (r: seq<Row>)
    ensures forall x :: x in r <==> x in rows && x.id != id
    ensures |r| <= |rows|
    decreases |rows|
  {
    if rows == [] then []
    else
      var rest := WithoutId(rows[1..], id);
      assert forall x :: x in rows <==> x == rows[0] || x in rows[1..];
      if rows[0].id == id then rest else [rows[0]] + rest
  }

  /** Ids are unique in the rows. */
  predicate UniqueIds(rows: seq<Row>) {
    forall i, j | 0 <= i < j < |rows| :: rows[i].id != rows[j].id
  }

  /** Deleting keeps ids unique. */
  lemma {:induction false} WithoutIdUnique(rows: seq<Row>, id: nat)
    requires UniqueIds(rows)
    ensures UniqueIds(WithoutId(rows, id))
    decreases |rows|
  {
    if rows != [] {
      var tail := rows[1..];
      assert UniqueIds(tail) by {
        forall i, j | 0 <= i < j < |tail| ensures tail[i].id != tail[j].id {
          assert tail[i] == rows[i + 1] && tail[j] == rows[j + 1];
        }
      }
      WithoutIdUnique(tail, id);
      var rest := WithoutId(tail, id);
      if rows[0].id != id {
        forall k | 0 <= k < |rest| ensures rest[k].id != rows[0].id {
          assert rest[k] in tail;
          var m :| 0 <= m < |tail| && tail[m] == rest[k];
          assert rows[m + 1] == rest[k];
        }
        var r := [rows[0]] + rest;
        forall i, j | 0 <= i < j < |r| ensures r[i].id != r[j].id {
          if i > 0 {
            assert r[i] == rest[i - 1] && r[j] == rest[j - 1];
          } else {
            assert r[j] == rest[j - 1];
          }
        }
      }
    }
  }

  /** Deleting an id no row has leaves the table as it is. */
  lemma {:induction false} WithoutAbsentId(rows: seq<Row>, id: nat)
    requires id !in Ids(rows)
    ensures WithoutId(rows, id) == rows
    decreases |rows|
  {
    if rows != [] {
      assert rows[0] in rows;
      assert Ids(rows[1..]) <= Ids(rows);
      WithoutAbsentId(rows[1..], id);
    }
  }

  /** The table with the row of one id given a new name, envelope and
      issuer (`UPDATE ... WHERE id = ?`). */
  function Updated(rows: seq<Row>, id: nat, name: string, envelope: string, issuer: string): (r: seq<Row>)
    ensures |r| == |rows|
    ensures forall i | 0 <= i < |rows| :: r[i].id == rows[i].id && r[i].createdAt == rows[i].createdAt
    ensures forall i | 0 <= i < |rows| && rows[i].id != id :: r[i] == rows[i]
    ensures forall i | 0 <= i < |rows| && rows[i].id == id ::
              r[i].name == name && r[i].secret == envelope && r[i].issuer == issuer
  {
    seq(|rows|, i requires 0 <= i < |rows| =>
      if rows[i].id == id then rows[i].(name := name, secret := envelope, issuer := issuer) else rows[i])
  }

  /** Updating keeps the set of ids. */
  lemma UpdatedIds(rows: seq<Row>, id: nat, name: string, envelope: string, issuer: string)
    ensures Ids(Updated(rows, id, name, envelope, issuer)) == Ids(rows)
  {
    var r := Updated(rows, id, name, envelope, issuer);
    forall x | x in Ids(rows) ensures x in Ids(r) {
      var i :| 0 <= i < |rows| && rows[i].id == x;
      assert r[i] in r;
    }
    forall x | x in Ids(r) ensures x in Ids(rows) {
      var i :| 0 <= i < |r| && r[i].id == x;
      assert rows[i] in rows;
    }
  }

  /** Updating an id no row has leaves the table as it is. */
  lemma UpdatedAbsentId(rows: seq<Row>, id: nat, name: string, envelope: string, issuer: string)
    requires id !in Ids(rows)
    ensures Updated(rows, id, name, envelope, issuer) == rows
  {
    forall i | 0 <= i < |rows| ensures rows[i].id != id {
      assert rows[i] in rows;
    }
  }

  /** The table's consistency: ids are unique and were all handed out by the
      counter, and a table that does not exist holds nothing. */
  predicate TableValid(tableExists: bool, rows: seq<Row>, lastId: nat) {
    && (!tableExists ==> rows == [] && lastId == 0)
    && UniqueIds(rows)
    && (forall r | r in rows :: 1 <= r.id <= lastId)
  }

  /** A row just added, with an id above every id already stored, is listed
      last, as the account that was added, and no account listed before it
      has its id. */
  lemma ListedAfterAdd(c: Cipher, key: Key, rows: seq<Row>, id: nat, name: string, secret: string,
                       issuer: string, nonce: Nonce, now: nat)
    requires Inverts(c)
    requires forall r | r in rows :: r.id < id
    ensures Account(id, name, secret, issuer)
            in Listed(Reader(c, key), rows + [Row(id, name, EncryptSecret(c, key, nonce, secret), issuer, now)])
    ensures var l := Listed(Reader(c, key), rows + [Row(id, name, EncryptSecret(c, key, nonce, secret), issuer, now)]);
            |l| > 0 && l[|l| - 1] == Account(id, name, secret, issuer) &&
            forall a | a in l[..|l| - 1] :: a.id != id
  {
    var row := Row(id, name, EncryptSecret(c, key, nonce, secret), issuer, now);
    var added := Account(id, name, secret, issuer);
    DecryptEncrypt(c, key, nonce, secret);
    assert Reader(c, key)(row) == Some(added);
    var all := rows + [row];
    assert all[..|all| - 1] == rows;
    var before := Listed(Reader(c, key), rows);
    var l := Listed(Reader(c, key), all);
    assert l == before + [added];
    assert l[..|l| - 1] == before;
    forall a | a in before
      ensures a.id != id
    {
      ListedMembers(Reader(c, key), rows, a);
      var r :| r in rows && Reader(c, key)(r) == Some(a);
      assert a.id == r.id;
    }
    assert added in l;
  }

  /** After a delete no listed account has the deleted id. */
  lemma ListedAfterDelete(c: Cipher, key: Key, rows: seq<Row>, id: nat, a: Account)
    requires a in Listed(Reader(c, key), WithoutId(rows, id))
    ensures a.id != id
  {
    ListedMembers(Reader(c, key), WithoutId(rows, id), a);
  }

  /** After an update of an existing id, the listing shows the new name,
      secret and issuer under that id. */
  lemma ListedAfterUpdate(c: Cipher, key: Key, rows: seq<Row>, id: nat, name: string, secret: string,
                          issuer: string, nonce: Nonce)
    requires Inverts(c) && id in Ids(rows)
    ensures Account(id, name, secret, issuer)
            in Listed(Reader(c, key), Updated(rows, id, name, EncryptSecret(c, key, nonce, secret), issuer))
  {
    var envelope := EncryptSecret(c, key, nonce, secret);
    var r := Updated(rows, id, name, envelope, issuer);
    var i :| 0 <= i < |rows| && rows[i].id == id;
    DecryptEncrypt(c, key, nonce, secret);
    assert Reader(c, key)(r[i]) == Some(Account(id, name, secret, issuer));
    ListedMembers(Reader(c, key), r, Account(id, name, secret, issuer));
    assert r[i] in r;
  }

  /** The `Database` object together with the files it manages: key.key and
      the `accounts` table of authenticator.db. */
  class Database {
    /** What key.key holds, if the file exists. */
    var keyFile: Option<Key>
    /** `self.key`: the key in use. */
    var key: Key
    /** The cipher `self.cipher` applies under `key`. */
    const cipher: Cipher
    /** Whether the `accounts` table exists. */
    var tableExists: bool
    /** The rows of the table, in insertion order. */
    var rows: seq<Row>
    /** The largest id the table has ever handed out (AUTOINCREMENT). */
    var lastId: nat

    predicate Valid()
      reads this
    {
      TableValid(tableExists, rows, lastId)
    }

    /** `__init__`: set up encryption, then the schema, over what is on
        disk; `generated` is the key `Fernet.generate_key` would draw. */
    constructor(cipher: Cipher, keyOnDisk: Option<Key>, generated: Key,
                tableOnDisk: bool, rowsOnDisk: seq<Row>, lastIdOnDisk: nat)
      requires TableValid(tableOnDisk, rowsOnDisk, lastIdOnDisk)
      ensures Valid() && tableExists
      ensures this.cipher == cipher
      ensures keyOnDisk.Some? ==> keyFile == keyOnDisk && key == keyOnDisk.value
      ensures keyOnDisk.None? ==> keyFile == Some(generated) && key == generated
      ensures rows == rowsOnDisk && lastId == lastIdOnDisk
    {
      this.cipher := cipher;
      keyFile := keyOnDisk;
      key := [];
      tableExists := tableOnDisk;
      rows := rowsOnDisk;
      lastId := lastIdOnDisk;
      new;
      SetupEncryption(generated);
      SetupDatabase();
    }

    /** `setup_encryption`: write a generated key only when there is no key
        file, then load the key from the file. A second call changes
        nothing. */
    method SetupEncryption(generated: Key)
      requires Valid()
      modifies this
      ensures Valid()
      ensures old(keyFile).Some? ==> keyFile == old(keyFile)
      ensures old(keyFile).None? ==> keyFile == Some(generated)
      ensures keyFile.Some? && key == keyFile.value
      ensures tableExists == old(tableExists) && rows == old(rows) && lastId == old(lastId)
    {
      if keyFile.None? {
        keyFile := Some(generated);
      }
      key := keyFile.value;
    }

    /** `setup_database`: `CREATE TABLE IF NOT EXISTS`, so existing rows and
        the counter are kept and a second call changes nothing. */
    method SetupDatabase()
      requires Valid()
      modifies this
      ensures Valid() && tableExists
      ensures rows == old(rows) && lastId == old(lastId)
      ensures keyFile == old(keyFile) && key == old(key)
    {
      tableExists := true;
    }

    /** `add_account`: one new row with the next id, the given name and
        issuer and the encrypted secret; duplicate names are allowed. */
    method AddAccount(name: string, secret: string, issuer: string, nonce: Nonce, now: nat)
      returns (id: nat)
      requires Valid() && tableExists
      modifies this
      ensures Valid() && tableExists
      ensures id == old(lastId) + 1 && lastId == id
      ensures id !in Ids(old(rows)) && forall r | r in old(rows) :: r.id < id
      ensures rows == old(rows) + [Row(id, name, EncryptSecret(cipher, key, nonce, secret), issuer, now)]
      ensures keyFile == old(keyFile) && key == old(key)
    {
      id := lastId + 1;
      var envelope := EncryptSecret(cipher, key, nonce, secret);
      rows := rows + [Row(id, name, envelope, issuer, now)];
      lastId := id;
    }

    /** `delete_account`: removes the rows of that id and no other; an
        unknown id changes nothing. */
    method DeleteAccount(id: nat)
      requires Valid() && tableExists
      modifies this
      ensures Valid() && tableExists
      ensures rows == WithoutId(old(rows), id)
      ensures id !in Ids(old(rows)) ==> rows == old(rows)
      ensures lastId == old(lastId) && keyFile == old(keyFile) && key == old(key)
    {
      var kept := WithoutId(rows, id);
      WithoutIdUnique(rows, id);
      if id !in Ids(rows) {
        WithoutAbsentId(rows, id);
      }
      rows := kept;
    }

    /** `update_account`: re-encrypts and overwrites name, secret and issuer
        of the row of that id; ids, creation times and the other rows stay;
        an unknown id changes nothing. */
    method UpdateAccount(id: nat, name: string, secret: string, issuer: string, nonce: Nonce)
      requires Valid() && tableExists
      modifies this
      ensures Valid() && tableExists
      ensures rows == Updated(old(rows), id, name, EncryptSecret(cipher, key, nonce, secret), issuer)
      ensures Ids(rows) == Ids(old(rows))
      ensures id !in Ids(old(rows)) ==> rows == old(rows)
      ensures lastId == old(lastId) && keyFile == old(keyFile) && key == old(key)
    {
      var envelope := EncryptSecret(cipher, key, nonce, secret);
      UpdatedIds(rows, id, name, envelope, issuer);
      if id !in Ids(rows) {
        UpdatedAbsentId(rows, id, name, envelope, issuer);
      }
      rows := Updated(rows, id, name, envelope, issuer);
    }

    /** `get_all_accounts`: the rows in name order, each with its secret
        decrypted, a row that fails to decrypt skipped; nothing when the
        database cannot be read. */
    method GetAllAccounts(storage: StorageStatus) returns (accounts: seq<Account>)
      requires Valid()
      ensures storage != Available || !tableExists ==> accounts == []
      ensures storage == Available && tableExists ==>
                AccountsSortedByName(accounts)
                && multiset(accounts) == multiset(Listed(Reader(cipher, key), rows))
    {
      if storage != Available || !tableExists {
        return [];
      }
      var fetched := SortByName(rows);
      accounts := [];
      var i := 0;
      while i < |fetched|
        invariant 0 <= i <= |fetched|
        invariant accounts == Listed(Reader(cipher, key), fetched[..i])
      {
        var row := fetched[i];
        assert fetched[..i + 1] == fetched[..i] + [row];
        var secret := DecryptSecret(cipher, key, row.secret);
        if secret.None? {
          i := i + 1;
          continue;
        }
        accounts := accounts + [Account(row.id, row.name, secret.value, row.issuer)];
        i := i + 1;
      }
      assert fetched[..i] == fetched;
      SortByNameSorted(rows);
      ListedSorted(Reader(cipher, key), fetched);
      ListedPermutation(Reader(cipher, key), fetched, rows);
    }
  }
}
