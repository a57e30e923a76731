/** check_username of server.c: the account file is a list of records, a
    user name and a status, searched front to back for the first record
    whose name equals the given one. */
module Accounts {
  import opened Wire

  /** One record of the account file: a (name, number) pair as one
      `%1024s %d` conversion of fscanf reads it. Line breaks are white
      space to fscanf, so a record need not sit on one line. */
  datatype Account = Account(name: seq<byte>, status: int)

  /** The account file as seen by check_username: the records it reads, or
      None when the file cannot be opened. */
  type AccountFile = Option<seq<Account>>

  /** The status values the server tells apart; any other value read from
      the file is answered like a missing account. */
  const Locked: int := 0
  const Active: int := 1
  const NotFound: int := 2

  /** The status of the first record named `name`, or NotFound when there
      is none. */
  function Lookup(records: seq<Account>, name: seq<byte>): (status: int)
    ensures status == NotFound || exists i | 0 <= i < |records| :: records[i].name == name && records[i].status == status
  {
    if records == [] then NotFound
    else if records[0].name == name then records[0].status
    else Lookup(records[1..], name)
  }

  /** What check_username returns: a file that cannot be opened fails open
      to NotFound. */
  function Status(file: AccountFile, name: seq<byte>): (status: int)
    ensures file.None? ==> status == NotFound
  {
    match file
    case None => NotFound
    case Some(records) => Lookup(records, name)
  }

  /** Record i is the first one named `name`. */
  predicate FirstMatch(records: seq<Account>, name: seq<byte>, i: int)
  {
    0 <= i < |records| && records[i].name == name
    && forall k | 0 <= k < i :: records[k].name != name
  }

  predicate Absent(records: seq<Account>, name: seq<byte>)
  {
    forall k | 0 <= k < |records| :: records[k].name != name
  }

  /** The lookup answers with the status of the first matching record,
      whatever the records after it say. */
  lemma {:induction false} LookupFindsFirst(records: seq<Account>, name: seq<byte>, i: int)
    requires FirstMatch(records, name, i)
    ensures Lookup(records, name) == records[i].status
    decreases i
  {
    if i > 0 {
      assert records[0].name != name;
      LookupFindsFirst(records[1..], name, i - 1);
    }
  }

  /** Without a matching record the lookup answers NotFound. */
  lemma {:induction false} LookupMissing(records: seq<Account>, name: seq<byte>)
    requires Absent(records, name)
    ensures Lookup(records, name) == NotFound
    decreases |records|
  {
    if records != [] {
      assert records[0].name != name;
      LookupMissing(records[1..], name);
    }
  }

  /** The match is exact: a record whose name differs in any byte, in
      letter case or in length, is passed over. */
  lemma LookupSkips(records: seq<Account>, name: seq<byte>, other: Account)
    requires other.name != name
    ensures Lookup([other] + records, name) == Lookup(records, name)
  {
    assert ([other] + records)[1..] == records;
  }

  /** check_username(username): opens the account file, reads records until
      the first one named `username` and returns its status; returns
      NotFound when the file cannot be opened or no record matches. */
  method CheckUsername(file: AccountFile, username: seq<byte>) returns (status: int)
    ensures status == Status(file, username)
    ensures file.None? ==> status == NotFound
    ensures file.Some? ==>
              forall i | FirstMatch(file.value, username, i) :: status == file.value[i].status
    ensures file.Some? && Absent(file.value, username) ==> status == NotFound
  {
    var temp := NotFound;
    if file.None? {
      return NotFound;
    }
    var records := file.value;
    var i := 0;
    while i < |records|
      invariant 0 <= i <= |records|
      invariant temp == NotFound && Absent(records[..i], username)
      invariant Lookup(records, username) == Lookup(records[i..], username)
    {
      if records[i].name == username {
        temp := records[i].status;
        break;
      }
      assert records[i..][1..] == records[i + 1..];
      assert records[..i + 1] == records[..i] + [records[i]];
      i := i + 1;
    }
    status := temp;
    assert status == Lookup(records, username) by {
      if i == |records| {
        assert records[i..] == [];
      }
    }
    forall j | FirstMatch(records, username, j)
      ensures status == records[j].status
    {
      LookupFindsFirst(records, username, j);
    }
    if Absent(records, username) {
      LookupMissing(records, username);
    }
  }
}
