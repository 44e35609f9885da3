// Reading contacts and groups from the Contacts databases (src/contacts.py). The SQL queries are not
// modelled: their result rows are the inputs, in the order the database returns them.
module Contacts {
  import opened Wrappers
  import opened Text
  import opened Sorting

  // ---------------------------------------------------------------------------
  // iter_addressbooks

  predicate IntLt(a: int, b: int) {
    a < b
  }

  /** The order of `paths.sort(reverse=True)` on `(mtime, path)` pairs: newer first, equal times by path,
   *  descending. */
  predicate NewerFirst(p: (int, string), q: (int, string)) {
    PairLt(q, p, IntLt, StrLt)
  }

  lemma NewerFirstOrder()
    ensures StrictTotalOrder(NewerFirst)
  {
    StrOrder();
    assert StrictTotalOrder(IntLt);
    PairOrder(IntLt, StrLt);
    var lt := (p: (int, string), q: (int, string)) => PairLt(p, q, IntLt, StrLt);
    ReverseOrder(lt);
    var rev := (p: (int, string), q: (int, string)) => lt(q, p);
    assert forall p, q :: NewerFirst(p, q) == rev(p, q);
  }

  /** The data-directory databases, newest first. */
  function NewestFirst(paths: seq<(int, string)>): (r: seq<(int, string)>)
    ensures Sorted(r, NewerFirst) && multiset(r) == multiset(paths) && |r| == |paths|
  {
    NewerFirstOrder();
    var r := Sort(paths, NewerFirst);
    assert |multiset(r)| == |multiset(paths)|;
    r
  }

  /** How many of `n` data-directory databases the loop yields: it stops on reaching index `limit - 1`. */
  function YieldCount(limit: int, n: nat): (c: nat)
    ensures c <= n
  {
    if 0 <= limit - 1 < n then limit - 1 else n
  }

  /** The `(mtime, path)` pairs whose paths are yielded after the local database. */
  function Chosen(paths: seq<(int, string)>, limit: int): seq<(int, string)> {
    NewestFirst(paths)[..YieldCount(limit, |paths|)]
  }

  /** The path components, in order. */
  function PathsOf(s: seq<(int, string)>): (r: seq<string>)
    ensures |r| == |s| && forall k :: 0 <= k < |s| ==> r[k] == s[k].1
  {
    if s == [] then [] else PathsOf(s[..|s| - 1]) + [s[|s| - 1].1]
  }

  /** What `iter_addressbooks(limit)` yields: the local database, then the chosen ones. */
  function Addressbooks(local: string, paths: seq<(int, string)>, limit: int): seq<string> {
    [local] + PathsOf(Chosen(paths, limit))
  }

  /** `iter_addressbooks(limit)` over the local database path and the `(mtime, path)` pairs of the databases
   *  found in the data directory. */
  method IterAddressbooks(local: string, paths: seq<(int, string)>, limit: int) returns (dbs: seq<string>)
    ensures dbs == Addressbooks(local, paths, limit)
  {
    dbs := [local];
    var sorted := NewestFirst(paths);
    var i := 0;
    while i < |sorted|
      invariant 0 <= i <= YieldCount(limit, |sorted|)
      invariant dbs == [local] + PathsOf(sorted[..i])
    {
      if i == limit - 1 {
        break;
      }
      assert sorted[..i + 1][..i] == sorted[..i];
      dbs := dbs + [sorted[i].1];
      i := i + 1;
    }
    assert sorted[..i] == Chosen(paths, limit);
  }

  /** The local database comes first; with `limit` at least 1, at most `limit` databases are read in all
   *  (fewer when fewer exist), and every other one yielded is a found database. */
  lemma AddressbooksSpec(local: string, paths: seq<(int, string)>, limit: int)
    ensures var dbs := Addressbooks(local, paths, limit);
      && dbs[0] == local
      && |dbs| == (if 1 <= limit <= |paths| then limit else |paths| + 1)
      && forall k :: 1 <= k < |dbs| ==> exists p :: p in paths && p.1 == dbs[k]
  {
    var s := NewestFirst(paths);
    var dbs := Addressbooks(local, paths, limit);
    forall k | 1 <= k < |dbs|
      ensures exists p :: p in paths && p.1 == dbs[k]
    {
      var p := s[k - 1];
      assert p in multiset(s);
      assert p in paths;
    }
  }

  /** Newest first: no database left out is newer than one that is read. */
  lemma ChosenNewest(paths: seq<(int, string)>, limit: int)
    ensures forall c, p :: c in Chosen(paths, limit) && p in paths && p !in Chosen(paths, limit) ==> p.0 <= c.0
  {
    var s := NewestFirst(paths);
    var n := YieldCount(limit, |paths|);
    forall c, p | c in s[..n] && p in paths && p !in s[..n]
      ensures p.0 <= c.0
    {
      assert p in multiset(paths);
      assert p in multiset(s);
      var j :| 0 <= j < |s| && s[j] == p;
      var i :| 0 <= i < n && s[..n][i] == c;
      assert j >= n;
      assert !NewerFirst(s[j], s[i]);
    }
  }

  // ---------------------------------------------------------------------------
  // load_from_db: people

  /** A row of the people query: address id, address, `zisprimary`, `zorderingindex`, person id, first and
   *  last name (`None` for NULL). */
  datatype PersonRow = PersonRow(emailId: int, email: string, primary: int, order: int, personId: int,
                                 first: Option<string>, last: Option<string>)

  /** The name a person's address is listed under: the full name, or the address itself when that is empty. */
  function PersonName(row: PersonRow): (name: string)
    ensures FullName(OrEmpty(row.first), OrEmpty(row.last)) != "" ==> name == FullName(OrEmpty(row.first), OrEmpty(row.last))
    ensures FullName(OrEmpty(row.first), OrEmpty(row.last)) == "" ==> name == row.email
    ensures name == "" ==> row.email == ""
  {
    var n := FullName(OrEmpty(row.first), OrEmpty(row.last));
    if n == "" then row.email else n
  }

  /** The sort key of an address, `(primary, order, email)`, with `zisprimary` inverted so that a primary
   *  address sorts first. */
  type AddressKey = (int, int, string)

  function AddressKeyOf(row: PersonRow): (k: AddressKey)
    ensures k.0 == 0 <==> row.primary == 1
    ensures k.2 == row.email
  {
    (if row.primary == 1 then 0 else 1, row.order, row.email)
  }

  /** A person's addresses so far (the `defaultdict(list)` default). */
  function AddressesOf(m: map<int, seq<AddressKey>>, personId: int): seq<AddressKey> {
    if personId in m then m[personId] else []
  }

  /** The three maps the people loop fills. */
  datatype People = People(addresses: map<int, string>, personAddresses: map<int, seq<AddressKey>>,
                           contacts: map<string, string>)

  /** The maps after the people loop has read `rows`. */
  function PeopleOf(rows: seq<PersonRow>): People {
    PeopleBy(rows, PersonName)
  }

  /** The people loop with the name of a row given by `name`; the lemmas below hold for any naming. */
  function PeopleBy(rows: seq<PersonRow>, name: PersonRow -> string): People {
    if rows == [] then People(map[], map[], map[])
    else
      var p, r := PeopleBy(rows[..|rows| - 1], name), rows[|rows| - 1];
      People(p.addresses[r.emailId := r.email],
             p.personAddresses[r.personId := AddressesOf(p.personAddresses, r.personId) + [AddressKeyOf(r)]],
             p.contacts[r.email := name(r)])
  }

  /** The keys of the rows of one person, in row order. */
  function KeysOfPerson(rows: seq<PersonRow>, personId: int): seq<AddressKey> {
    if rows == [] then []
    else
      var r := rows[|rows| - 1];
      KeysOfPerson(rows[..|rows| - 1], personId) + (if r.personId == personId then [AddressKeyOf(r)] else [])
  }

  /** Each person's list holds the keys of exactly that person's rows, in row order. */
  lemma PersonAddressesSpec(rows: seq<PersonRow>, personId: int)
    ensures AddressesOf(PeopleOf(rows).personAddresses, personId) == KeysOfPerson(rows, personId)
  {
    PersonAddressesBy(rows, personId, PersonName);
  }

  lemma {:induction false} PersonAddressesBy(rows: seq<PersonRow>, personId: int, name: PersonRow -> string)
    ensures AddressesOf(PeopleBy(rows, name).personAddresses, personId) == KeysOfPerson(rows, personId)
  {
    if rows != [] {
      PersonAddressesBy(rows[..|rows| - 1], personId, name);
    }
  }

  /** Every address of a row is listed, and no other address. */
  lemma PeopleContactsKeys(rows: seq<PersonRow>)
    ensures forall e :: e in PeopleOf(rows).contacts <==> exists i :: 0 <= i < |rows| && rows[i].email == e
  {
    PeopleKeysBy(rows, PersonName);
  }

  lemma {:induction false} PeopleKeysBy(rows: seq<PersonRow>, name: PersonRow -> string)
    ensures forall e :: e in PeopleBy(rows, name).contacts <==> exists i :: 0 <= i < |rows| && rows[i].email == e
  {
    if rows != [] {
      var n := |rows| - 1;
      var init := rows[..n];
      PeopleKeysBy(init, name);
      forall e | e in PeopleBy(rows, name).contacts
        ensures exists i :: 0 <= i < |rows| && rows[i].email == e
      {
        if e != rows[n].email {
          var i :| 0 <= i < n && init[i].email == e;
          assert rows[i].email == e;
        }
      }
      forall e | exists i :: 0 <= i < |rows| && rows[i].email == e
        ensures e in PeopleBy(rows, name).contacts
      {
        var i :| 0 <= i < |rows| && rows[i].email == e;
        if i < n {
          assert init[i].email == e;
        }
      }
    }
  }

  /** An address is listed under the name derived from the LAST row carrying it. */
  lemma PeopleContactsLast(rows: seq<PersonRow>, i: int)
    requires 0 <= i < |rows| && forall j :: i < j < |rows| ==> rows[j].email != rows[i].email
    ensures rows[i].email in PeopleOf(rows).contacts
    ensures PeopleOf(rows).contacts[rows[i].email] == PersonName(rows[i])
  {
    PeopleLastBy(rows, i, PersonName);
  }

  lemma {:induction false} PeopleLastBy(rows: seq<PersonRow>, i: int, name: PersonRow -> string)
    requires 0 <= i < |rows| && forall j :: i < j < |rows| ==> rows[j].email != rows[i].email
    ensures rows[i].email in PeopleBy(rows, name).contacts
    ensures PeopleBy(rows, name).contacts[rows[i].email] == name(rows[i])
  {
    var n := |rows| - 1;
    if i < n {
      var init := rows[..n];
      assert init[i] == rows[i];
      PeopleLastBy(init, i, name);
    }
  }

  /** The people query keeps only non-empty addresses, so no contact is listed under an empty name. */
  lemma PeopleNamesNonEmpty(rows: seq<PersonRow>)
    requires forall i :: 0 <= i < |rows| ==> rows[i].email != ""
    ensures forall e :: e in PeopleOf(rows).contacts ==> PeopleOf(rows).contacts[e] != ""
  {
    PeopleContactsKeys(rows);
    forall e | e in PeopleOf(rows).contacts
      ensures PeopleOf(rows).contacts[e] != ""
    {
      var i :| 0 <= i < |rows| && rows[i].email == e;
      var k := LastWith(rows, e, i);
      PeopleContactsLast(rows, k);
    }
  }

  /** The last row carrying the address `e`, at or after row `i`. */
  lemma LastWith(rows: seq<PersonRow>, e: string, i: int) returns (k: int)
    requires 0 <= i < |rows| && rows[i].email == e
    ensures i <= k < |rows| && rows[k].email == e
    ensures forall j :: k < j < |rows| ==> rows[j].email != e
    decreases |rows| - i
  {
    if exists j :: i < j < |rows| && rows[j].email == e {
      var j :| i < j < |rows| && rows[j].email == e;
      k := LastWith(rows, e, j);
    } else {
      k := i;
    }
  }

  /** The people loop of `load_from_db`. */
  method LoadPeople(rows: seq<PersonRow>)
    returns (addresses: map<int, string>, personAddresses: map<int, seq<AddressKey>>, contacts: map<string, string>)
    ensures People(addresses, personAddresses, contacts) == PeopleOf(rows)
  {
    addresses, personAddresses, contacts := map[], map[], map[];
    var i := 0;
    while i < |rows|
      invariant 0 <= i <= |rows|
      invariant People(addresses, personAddresses, contacts) == PeopleOf(rows[..i])
    {
      assert rows[..i + 1][..i] == rows[..i];
      var r := rows[i];
      addresses := addresses[r.emailId := r.email];
      var primary := if r.primary == 1 then 0 else 1;
      personAddresses := personAddresses[r.personId := AddressesOf(personAddresses, r.personId) + [(primary, r.order, r.email)]];
      var first := OrEmpty(r.first);
      var last := OrEmpty(r.last);
      var name := Strip(first + " " + last);
      if name == "" {
        name := r.email;
      }
      contacts := contacts[r.email := name];
      i := i + 1;
    }
    assert rows[..|rows|] == rows;
  }

  // ---------------------------------------------------------------------------
  // load_from_db: groups

  /** A row of the distribution-list query: person id, the chosen address id (`None` for NULL), group id. */
  datatype ConfigRow = ConfigRow(personId: int, emailId: Option<int>, groupId: int)

  /** `group_person_email_map`, keyed by `(group id, person id)`; a later row for the same pair wins. */
  function ConfigOf(rows: seq<ConfigRow>): map<(int, int), Option<int>> {
    if rows == [] then map[]
    else
      var r := rows[|rows| - 1];
      ConfigOf(rows[..|rows| - 1])[(r.groupId, r.personId) := r.emailId]
  }

  /** The distribution-list loop. */
  method LoadConfig(rows: seq<ConfigRow>) returns (config: map<(int, int), Option<int>>)
    ensures config == ConfigOf(rows)
  {
    config := map[];
    var i := 0;
    while i < |rows|
      invariant 0 <= i <= |rows|
      invariant config == ConfigOf(rows[..i])
    {
      assert rows[..i + 1][..i] == rows[..i];
      config := config[(rows[i].groupId, rows[i].personId) := rows[i].emailId];
      i := i + 1;
    }
    assert rows[..|rows|] == rows;
  }

  /** A pair is configured exactly when some row names it, with the address id of the last such row. */
  lemma {:induction false} ConfigLast(rows: seq<ConfigRow>, i: int)
    requires 0 <= i < |rows|
    requires forall j :: i < j < |rows| ==> (rows[j].groupId, rows[j].personId) != (rows[i].groupId, rows[i].personId)
    ensures (rows[i].groupId, rows[i].personId) in ConfigOf(rows)
    ensures ConfigOf(rows)[(rows[i].groupId, rows[i].personId)] == rows[i].emailId
  {
    var n := |rows| - 1;
    if i < n {
      assert rows[..n][i] == rows[i];
      ConfigLast(rows[..n], i);
    }
  }

  /** Python's order on `(primary, order, email)` tuples. */
  predicate AddressLt(a: AddressKey, b: AddressKey) {
    a.0 < b.0 || (a.0 == b.0 && (a.1 < b.1 || (a.1 == b.1 && StrLt(a.2, b.2))))
  }

  lemma AddressOrder()
    ensures StrictTotalOrder(AddressLt)
  {
    StrOrder();
  }

  /** `sorted(...)[0]`: the least address key. A primary address, whose key starts with 0, comes before every
   *  other address of the person. */
  function MinAddress(keys: seq<AddressKey>): (r: AddressKey)
    requires keys != []
    ensures r in keys
    ensures forall k :: k in keys ==> !AddressLt(k, r)
    ensures forall k :: k in keys ==> r.0 <= k.0
  {
    AddressOrder();
    var s := Sort(keys, AddressLt);
    assert |multiset(s)| == |multiset(keys)|;
    assert s[0] in multiset(keys);
    forall k | k in keys
      ensures !AddressLt(k, s[0])
    {
      assert k in multiset(s);
      var j :| 0 <= j < |s| && s[j] == k;
      if j > 0 {
        assert !AddressLt(s[j], s[0]);
      }
    }
    s[0]
  }

  /** A row of the group-membership query: group id, group name, member person id. */
  datatype GroupRow = GroupRow(groupId: int, name: string, personId: int)

  /** The address a member contributes: the configured one when the pair has a non-zero address id (a
   *  `KeyError`, as `Err(id)`, when no address has that id), else the person's least address key, else none. */
  function MemberEmail(row: GroupRow, config: map<(int, int), Option<int>>, people: People): Result<Option<string>, int> {
    var emailId := if (row.groupId, row.personId) in config then config[(row.groupId, row.personId)] else None;
    if emailId.Some? && emailId.value != 0 then
      if emailId.value in people.addresses then Ok(Some(people.addresses[emailId.value])) else Err(emailId.value)
    else
      var keys := AddressesOf(people.personAddresses, row.personId);
      if keys == [] then Ok(None) else Ok(Some(MinAddress(keys).2))
  }

  /** The address id configured for a member's pair; `0` when the pair is absent or its id is NULL, which
   *  `if email_id:` treats like an id of `0`. */
  function ConfiguredId(row: GroupRow, config: map<(int, int), Option<int>>): int {
    var pair := (row.groupId, row.personId);
    if pair in config && config[pair].Some? then config[pair].value else 0
  }

  /** A member without a configured address contributes its primary address when it has one. */
  lemma MemberPrimary(row: GroupRow, config: map<(int, int), Option<int>>, rows: seq<PersonRow>, i: int)
    requires 0 <= i < |rows| && rows[i].personId == row.personId && rows[i].primary == 1
    requires ConfiguredId(row, config) == 0
    ensures exists j :: (0 <= j < |rows| && rows[j].personId == row.personId && rows[j].primary == 1
      && MemberEmail(row, config, PeopleOf(rows)) == Ok(Some(rows[j].email)))
  {
    var people := PeopleOf(rows);
    PersonAddressesSpec(rows, row.personId);
    var keys := KeysOfPerson(rows, row.personId);
    KeysOfPersonSpec(rows, row.personId);
    assert AddressKeyOf(rows[i]) in keys;
    var m := MinAddress(keys);
    assert m.0 <= 0;
    var j :| 0 <= j < |rows| && rows[j].personId == row.personId && AddressKeyOf(rows[j]) == m;
  }

  /**
   * The address a member contributes, in terms of the people rows. A configured id is looked up among the
   * rows' address ids: the last row with that id gives the address, and an id no row has is the `KeyError`.
   * Without a configured id, the least key of the person's rows gives the address, and a person without rows
   * contributes nothing.
   */
  lemma MemberEmailSpec(row: GroupRow, config: map<(int, int), Option<int>>, rows: seq<PersonRow>)
    ensures ConfiguredId(row, config) != 0 && (forall j :: 0 <= j < |rows| ==> rows[j].emailId != ConfiguredId(row, config))
      ==> MemberEmail(row, config, PeopleOf(rows)) == Err(ConfiguredId(row, config))
    ensures forall j :: ((0 <= j < |rows| && ConfiguredId(row, config) != 0 && rows[j].emailId == ConfiguredId(row, config)
      && (forall k :: j < k < |rows| ==> rows[k].emailId != rows[j].emailId))
      ==> MemberEmail(row, config, PeopleOf(rows)) == Ok(Some(rows[j].email)))
    ensures ConfiguredId(row, config) == 0 && KeysOfPerson(rows, row.personId) == []
      ==> MemberEmail(row, config, PeopleOf(rows)) == Ok(None)
    ensures ConfiguredId(row, config) == 0 && KeysOfPerson(rows, row.personId) != []
      ==> MemberEmail(row, config, PeopleOf(rows)) == Ok(Some(MinAddress(KeysOfPerson(rows, row.personId)).2))
  {
    var id := ConfiguredId(row, config);
    if id != 0 {
      AddressIdsBy(rows, PersonName, id);
      forall j | (0 <= j < |rows| && rows[j].emailId == id && (forall k :: j < k < |rows| ==> rows[k].emailId != rows[j].emailId))
        ensures MemberEmail(row, config, PeopleOf(rows)) == Ok(Some(rows[j].email))
      {
        AddressLastBy(rows, PersonName, j);
      }
    } else {
      PersonAddressesSpec(rows, row.personId);
    }
  }

  /** The address ids the people loop records are exactly those of the rows. */
  lemma {:induction false} AddressIdsBy(rows: seq<PersonRow>, name: PersonRow -> string, id: int)
    ensures id in PeopleBy(rows, name).addresses <==> exists j :: 0 <= j < |rows| && rows[j].emailId == id
  {
    if rows != [] {
      var n := |rows| - 1;
      var init := rows[..n];
      AddressIdsBy(init, name, id);
      if id != rows[n].emailId && id in PeopleBy(rows, name).addresses {
        var j :| 0 <= j < n && init[j].emailId == id;
        assert rows[j].emailId == id;
      }
      if exists j :: 0 <= j < |rows| && rows[j].emailId == id {
        var j :| 0 <= j < |rows| && rows[j].emailId == id;
        if j < n {
          assert init[j].emailId == id;
        }
      }
    }
  }

  /** An address id maps to the address of the LAST row carrying it. */
  lemma {:induction false} AddressLastBy(rows: seq<PersonRow>, name: PersonRow -> string, i: int)
    requires 0 <= i < |rows| && forall j :: i < j < |rows| ==> rows[j].emailId != rows[i].emailId
    ensures rows[i].emailId in PeopleBy(rows, name).addresses
    ensures PeopleBy(rows, name).addresses[rows[i].emailId] == rows[i].email
  {
    var n := |rows| - 1;
    if i < n {
      var init := rows[..n];
      assert init[i] == rows[i];
      AddressLastBy(init, name, i);
    }
  }

  /** The keys of a person are those of its rows; every one starts with 0 or 1. */
  lemma {:induction false} KeysOfPersonSpec(rows: seq<PersonRow>, personId: int)
    ensures forall k :: k in KeysOfPerson(rows, personId) <==>
      exists j :: 0 <= j < |rows| && rows[j].personId == personId && AddressKeyOf(rows[j]) == k
    ensures forall k :: k in KeysOfPerson(rows, personId) ==> 0 <= k.0 <= 1
  {
    if rows != [] {
      var n := |rows| - 1;
      KeysOfPersonSpec(rows[..n], personId);
      assert forall j :: 0 <= j < n ==> rows[..n][j] == rows[j];
    }
  }

  /** Group ids with their member addresses, groups in the order of their first member (the `defaultdict`). */
  type Members = seq<(int, seq<string>)>

  /** `groups[group_id].append(email)` */
  function AppendMember(ms: Members, id: int, email: string): (r: Members)
    ensures |r| >= |ms|
    ensures forall i :: 0 <= i < |ms| ==> r[i].0 == ms[i].0
    ensures |r| == |ms| || (|r| == |ms| + 1 && r[|ms|] == (id, [email]))
    ensures exists i :: 0 <= i < |r| && r[i].0 == id
  {
    if ms == [] then [(id, [email])]
    else if ms[0].0 == id then [(id, ms[0].1 + [email])] + ms[1..]
    else
      var rest := AppendMember(ms[1..], id, email);
      var r := [ms[0]] + rest;
      assert forall i :: 1 <= i < |r| ==> r[i] == rest[i - 1];
      r
  }

  /** The member addresses of group `id`, `[]` when it has none. */
  function MembersOf(ms: Members, id: int): seq<string> {
    if ms == [] then [] else if ms[0].0 == id then ms[0].1 else MembersOf(ms[1..], id)
  }

  /** Appending adds the address at the end of its own group and changes no other group. */
  lemma {:induction false} AppendMemberSpec(ms: Members, id: int, email: string, g: int)
    ensures MembersOf(AppendMember(ms, id, email), g) == MembersOf(ms, g) + (if g == id then [email] else [])
  {
    if ms != [] && ms[0].0 != id {
      AppendMemberSpec(ms[1..], id, email, g);
    }
  }

  /** The state of the group loop: the name of each group id, and the members. */
  datatype Groups = Groups(names: map<int, string>, members: Members)

  /** One turn of the group loop, given the address the row's member contributes: `card` rows are skipped;
   *  the first name seen for a group id is kept. */
  function GroupStep(st: Groups, row: GroupRow, email: Result<Option<string>, int>): Result<Groups, int> {
    if row.name == "card" then Ok(st)
    else
      var names := if row.groupId in st.names then st.names else st.names[row.groupId := row.name];
      match email
      case Err(id) => Err(id)
      case Ok(None) => Ok(Groups(names, st.members))
      case Ok(Some(email)) => Ok(Groups(names, AppendMember(st.members, row.groupId, email)))
  }

  /** The group loop over `rows`; the first failing lookup ends it. */
  function GroupsOf(rows: seq<GroupRow>, config: map<(int, int), Option<int>>, people: People): Result<Groups, int> {
    if rows == [] then Ok(Groups(map[], []))
    else
      match GroupsOf(rows[..|rows| - 1], config, people)
      case Err(id) => Err(id)
      case Ok(st) => GroupStep(st, rows[|rows| - 1], MemberEmail(rows[|rows| - 1], config, people))
  }

  /** The name of the first non-`card` row of group `g`. */
  function FirstName(rows: seq<GroupRow>, g: int): Option<string> {
    if rows == [] then None
    else
      var f, r := FirstName(rows[..|rows| - 1], g), rows[|rows| - 1];
      if f.Some? then f else if r.groupId == g && r.name != "card" then Some(r.name) else None
  }

  /** A group is named after its first non-`card` row, and every group with members has a name. */
  lemma {:induction false} GroupNames(rows: seq<GroupRow>, config: map<(int, int), Option<int>>, people: People)
    requires GroupsOf(rows, config, people).Ok?
    ensures var st := GroupsOf(rows, config, people).value;
      && (forall g :: g in st.names <==> FirstName(rows, g).Some?)
      && (forall g :: g in st.names ==> st.names[g] == FirstName(rows, g).value)
      && (forall i :: 0 <= i < |st.members| ==> st.members[i].0 in st.names)
  {
    if rows != [] {
      var init := rows[..|rows| - 1];
      GroupNames(init, config, people);
      var st := GroupsOf(init, config, people).value;
      var e := MemberEmail(rows[|rows| - 1], config, people);
      assert GroupsOf(rows, config, people) == GroupStep(st, rows[|rows| - 1], e);
      GroupStepNames(st, rows[|rows| - 1], e);
    }
  }

  /** One turn names the row's group unless it is a `card` row or the group is named already, and adds no
   *  group id other than the row's. */
  lemma GroupStepNames(st: Groups, row: GroupRow, email: Result<Option<string>, int>)
    requires GroupStep(st, row, email).Ok?
    ensures var st' := GroupStep(st, row, email).value;
      && st'.names == (if row.name == "card" || row.groupId in st.names then st.names else st.names[row.groupId := row.name])
      && forall i :: 0 <= i < |st'.members| ==>
           ((i < |st.members| && st'.members[i].0 == st.members[i].0) || (row.name != "card" && st'.members[i].0 == row.groupId))
  {
  }

  /** `groups2`: each group's name with its member addresses joined by `, `; when two groups share a name,
   *  the later one wins. */
  function ByName(ms: Members, names: map<int, string>): map<string, string>
    requires forall i :: 0 <= i < |ms| ==> ms[i].0 in names
  {
    if ms == [] then map[]
    else
      var m := ms[|ms| - 1];
      ByName(ms[..|ms| - 1], names)[names[m.0] := Join(m.1, ", ")]
  }

  /** What `load_from_db` returns: contacts (address to name) and groups (name to addresses). */
  datatype Db = Db(contacts: map<string, string>, groups: map<string, string>)

  function LoadedDb(personRows: seq<PersonRow>, configRows: seq<ConfigRow>, groupRows: seq<GroupRow>): Result<Db, int> {
    var people := PeopleOf(personRows);
    var r := GroupsOf(groupRows, ConfigOf(configRows), people);
    match r
    case Err(id) => Err(id)
    case Ok(st) =>
      GroupNames(groupRows, ConfigOf(configRows), people);
      Ok(Db(people.contacts, ByName(st.members, st.names)))
  }

  /** Once a lookup has failed, the loop has failed for good. */
  lemma {:induction false} GroupsErrSticky(rows: seq<GroupRow>, i: int, config: map<(int, int), Option<int>>, people: People)
    requires 0 <= i <= |rows| && GroupsOf(rows[..i], config, people).Err?
    ensures GroupsOf(rows, config, people) == GroupsOf(rows[..i], config, people)
    decreases |rows| - i
  {
    if i < |rows| {
      assert rows[..i + 1][..i] == rows[..i];
      GroupsErrSticky(rows, i + 1, config, people);
    } else {
      assert rows[..i] == rows;
    }
  }

  /** The addresses the rows of group `g` contribute, in row order. */
  function RowEmails(rows: seq<GroupRow>, g: int, config: map<(int, int), Option<int>>, people: People): seq<string> {
    if rows == [] then []
    else
      var r := rows[|rows| - 1];
      var e := MemberEmail(r, config, people);
      RowEmails(rows[..|rows| - 1], g, config, people)
        + (if r.groupId == g && r.name != "card" && e.Ok? && e.value.Some? then [e.value.value] else [])
  }

  /** Each group lists, in row order, the addresses its rows contribute. */
  lemma {:induction false} GroupMembers(rows: seq<GroupRow>, g: int, config: map<(int, int), Option<int>>, people: People)
    requires GroupsOf(rows, config, people).Ok?
    ensures MembersOf(GroupsOf(rows, config, people).value.members, g) == RowEmails(rows, g, config, people)
  {
    if rows != [] {
      var init, r := rows[..|rows| - 1], rows[|rows| - 1];
      GroupMembers(init, g, config, people);
      var st := GroupsOf(init, config, people).value;
      var e := MemberEmail(r, config, people);
      assert GroupsOf(rows, config, people) == GroupStep(st, r, e);
      if r.name != "card" && e.value.Some? {
        AppendMemberSpec(st.members, r.groupId, e.value.value, g);
      }
    }
  }

  /** The address lookup of the group loop, on the dicts `load_from_db` built. */
  method LookupMember(row: GroupRow, config: map<(int, int), Option<int>>, addresses: map<int, string>,
                      personAddresses: map<int, seq<AddressKey>>, ghost people: People)
    returns (email: Result<Option<string>, int>)
    requires people.addresses == addresses && people.personAddresses == personAddresses
    ensures email == MemberEmail(row, config, people)
  {
    var emailId := if (row.groupId, row.personId) in config then config[(row.groupId, row.personId)] else None;
    if emailId.Some? && emailId.value != 0 {
      if emailId.value !in addresses {
        return Err(emailId.value);
      }
      email := Ok(Some(addresses[emailId.value]));
    } else {
      var keys := AddressesOf(personAddresses, row.personId);
      email := if keys != [] then Ok(Some(MinAddress(keys).2)) else Ok(None);
    }
  }

  /** One more group row: the loop state it leads to. */
  lemma GroupsStep(rows: seq<GroupRow>, i: int, config: map<(int, int), Option<int>>, people: People)
    requires 0 <= i < |rows|
    ensures GroupsOf(rows[..i + 1], config, people)
      == match GroupsOf(rows[..i], config, people)
         case Err(id) => Err(id)
         case Ok(st) => GroupStep(st, rows[i], MemberEmail(rows[i], config, people))
  {
    assert rows[..i + 1][..i] == rows[..i];
  }

  /** The group loop of `load_from_db`: the first failing address lookup ends it. */
  method LoadGroups(groupRows: seq<GroupRow>, config: map<(int, int), Option<int>>, addresses: map<int, string>,
                    personAddresses: map<int, seq<AddressKey>>, ghost people: People)
    returns (r: Result<Groups, int>)
    requires people.addresses == addresses && people.personAddresses == personAddresses
    ensures r == GroupsOf(groupRows, config, people)
  {
    var names: map<int, string> := map[];
    var members: Members := [];
    var i := 0;
    while i < |groupRows|
      invariant 0 <= i <= |groupRows|
      invariant GroupsOf(groupRows[..i], config, people) == Ok(Groups(names, members))
    {
      GroupsStep(groupRows, i, config, people);
      var row := groupRows[i];
      i := i + 1;
      if row.name == "card" {
        continue;
      }
      if row.groupId !in names {
        names := names[row.groupId := row.name];
      }
      var email := LookupMember(row, config, addresses, personAddresses, people);
      match email {
        case Err(id) =>
          GroupsErrSticky(groupRows, i, config, people);
          return Err(id);
        case Ok(None) =>
        case Ok(Some(address)) =>
          members := AppendMember(members, row.groupId, address);
      }
    }
    assert groupRows[..|groupRows|] == groupRows;
    r := Ok(Groups(names, members));
  }

  /** The loop building `groups2`. */
  method GroupsByName(members: Members, names: map<int, string>) returns (groups2: map<string, string>)
    requires forall i :: 0 <= i < |members| ==> members[i].0 in names
    ensures groups2 == ByName(members, names)
  {
    groups2 := map[];
    var k := 0;
    while k < |members|
      invariant 0 <= k <= |members|
      invariant groups2 == ByName(members[..k], names)
    {
      assert members[..k + 1][..k] == members[..k];
      groups2 := groups2[names[members[k].0] := Join(members[k].1, ", ")];
      k := k + 1;
    }
    assert members[..|members|] == members;
  }

  /** `load_from_db`: the people, the configured addresses, the groups, then `groups2`. */
  method LoadFromDb(personRows: seq<PersonRow>, configRows: seq<ConfigRow>, groupRows: seq<GroupRow>)
    returns (r: Result<Db, int>)
    ensures r == LoadedDb(personRows, configRows, groupRows)
  {
    var addresses, personAddresses, contacts := LoadPeople(personRows);
    ghost var people := People(addresses, personAddresses, contacts);
    var config := LoadConfig(configRows);
    var groups := LoadGroups(groupRows, config, addresses, personAddresses, people);
    if groups.Err? {
      return Err(groups.error);
    }
    GroupNames(groupRows, config, people);
    var groups2 := GroupsByName(groups.value.members, groups.value.names);
    r := Ok(Db(contacts, groups2));
  }

  /** A name is listed exactly when some group carries it. */
  lemma {:induction false} ByNameKeys(ms: Members, names: map<int, string>)
    requires forall i :: 0 <= i < |ms| ==> ms[i].0 in names
    ensures forall n :: n in ByName(ms, names) <==> exists i :: 0 <= i < |ms| && names[ms[i].0] == n
  {
    if ms != [] {
      var k := |ms| - 1;
      ByNameKeys(ms[..k], names);
      assert forall i :: 0 <= i < k ==> ms[..k][i] == ms[i];
    }
  }

  /** A name is listed with the joined addresses of the LAST group carrying it. */
  lemma {:induction false} ByNameLast(ms: Members, names: map<int, string>, i: int)
    requires forall j :: 0 <= j < |ms| ==> ms[j].0 in names
    requires 0 <= i < |ms| && forall j :: i < j < |ms| ==> names[ms[j].0] != names[ms[i].0]
    ensures names[ms[i].0] in ByName(ms, names)
    ensures ByName(ms, names)[names[ms[i].0]] == Join(ms[i].1, ", ")
  {
    var k := |ms| - 1;
    if i < k {
      assert ms[..k][i] == ms[i];
      ByNameLast(ms[..k], names, i);
    }
  }

  // ---------------------------------------------------------------------------
  // get_contacts

  /** `d.get(key, u'')` */
  function GetOrEmpty(m: map<string, string>, k: string): string {
    if k in m then m[k] else ""
  }

  /** One database merged into the result: a key is taken from it when the result lacks it or has `''`. */
  function Merge(acc: map<string, string>, m: map<string, string>): (r: map<string, string>)
    ensures r.Keys == acc.Keys + m.Keys
  {
    map k | k in acc.Keys + m.Keys :: Merged(acc, m, k)
  }

  /** The merged value of a key of either map. */
  function Merged(acc: map<string, string>, m: map<string, string>, k: string): string
    requires k in acc || k in m
  {
    if k in m && GetOrEmpty(acc, k) == "" then m[k] else acc[k]
  }

  /** The inner loop of `get_contacts`: `for email in contacts1: ...`. */
  method MergeInto(acc: map<string, string>, m: map<string, string>) returns (r: map<string, string>)
    ensures r == Merge(acc, m)
  {
    r := acc;
    var keys := m.Keys;
    while keys != {}
      invariant keys <= m.Keys
      invariant r.Keys == acc.Keys + (m.Keys - keys)
      invariant forall k :: k in r && k !in keys ==> r[k] == Merged(acc, m, k)
      invariant forall k :: k in keys && k in acc ==> k in r && r[k] == acc[k]
      decreases |keys|
    {
      var k :| k in keys;
      if GetOrEmpty(r, k) == "" {
        r := r[k := m[k]];
      }
      keys := keys - {k};
    }
    assert forall k :: k in r ==> r[k] == Merge(acc, m)[k];
  }

  /** The merge of the databases in the order they are read. */
  function MergeAll(ms: seq<map<string, string>>): map<string, string> {
    if ms == [] then map[] else Merge(MergeAll(ms[..|ms| - 1]), ms[|ms| - 1])
  }

  /** The merged keys are those of all databases. */
  lemma {:induction false} MergeAllKeys(ms: seq<map<string, string>>)
    ensures forall k :: k in MergeAll(ms) <==> exists i :: 0 <= i < |ms| && k in ms[i]
  {
    if ms != [] {
      var n := |ms| - 1;
      MergeAllKeys(ms[..n]);
      assert forall i :: 0 <= i < n ==> ms[..n][i] == ms[i];
    }
  }

  /** A key that is empty in every database is empty in the merge. */
  lemma {:induction false} MergeAllEmpty(ms: seq<map<string, string>>, k: string)
    requires forall i :: 0 <= i < |ms| ==> GetOrEmpty(ms[i], k) == ""
    ensures GetOrEmpty(MergeAll(ms), k) == ""
  {
    if ms != [] {
      var n := |ms| - 1;
      assert forall i :: 0 <= i < n ==> ms[..n][i] == ms[i];
      MergeAllEmpty(ms[..n], k);
    }
  }

  /** First non-empty wins: the merged value of a key is its value in the first database where it is not
   *  empty. */
  lemma {:induction false} MergeAllFirst(ms: seq<map<string, string>>, i: int, k: string)
    requires 0 <= i < |ms| && GetOrEmpty(ms[i], k) != ""
    requires forall j :: 0 <= j < i ==> GetOrEmpty(ms[j], k) == ""
    ensures k in MergeAll(ms) && MergeAll(ms)[k] == ms[i][k]
  {
    var n := |ms| - 1;
    assert forall j :: 0 <= j < n ==> ms[..n][j] == ms[j];
    if i == n {
      MergeAllEmpty(ms[..n], k);
    } else {
      MergeAllFirst(ms[..n], i, k);
    }
  }

  /** `r` is `sorted(m.items())`: the items of `m`, strictly increasing. By `StrictlySortedUnique` there is
   *  exactly one such sequence. */
  predicate SortedItemsOf(r: seq<(string, string)>, m: map<string, string>) {
    && StrictlySorted(r, StrPairLt)
    && (forall p :: p in r ==> p.0 in m && m[p.0] == p.1)
    && (forall k :: k in m ==> (k, m[k]) in r)
  }

  /** `sorted(d.items())` */
  method SortedItems(m: map<string, string>) returns (r: seq<(string, string)>)
    ensures SortedItemsOf(r, m)
  {
    StrPairOrder();
    r := SortedList(m.Items, StrPairLt);
  }

  /** Sorted items are in strictly increasing key order: every key once. */
  lemma SortedByKey(r: seq<(string, string)>, m: map<string, string>)
    requires SortedItemsOf(r, m)
    ensures forall i, j :: 0 <= i < j < |r| ==> StrLt(r[i].0, r[j].0)
  {
    StrOrder();
    forall i, j | 0 <= i < j < |r|
      ensures StrLt(r[i].0, r[j].0)
    {
      assert StrPairLt(r[i], r[j]);
      if r[i].0 == r[j].0 {
        assert r[i] in r && r[j] in r;
        assert r[i].1 == m[r[i].0] == r[j].1;
        assert r[i] == r[j];
        StrIrreflexive(r[i], r[j]);
      }
    }
  }

  /** Both components equal makes `StrPairLt` false. */
  lemma StrIrreflexive(p: (string, string), q: (string, string))
    requires StrictTotalOrder(StrLt) && p == q
    ensures !StrPairLt(p, q)
  {
  }

  function ContactMaps(dbs: seq<Db>): (r: seq<map<string, string>>)
    ensures |r| == |dbs| && forall i :: 0 <= i < |dbs| ==> r[i] == dbs[i].contacts
  {
    if dbs == [] then [] else ContactMaps(dbs[..|dbs| - 1]) + [dbs[|dbs| - 1].contacts]
  }

  function GroupMaps(dbs: seq<Db>): (r: seq<map<string, string>>)
    ensures |r| == |dbs| && forall i :: 0 <= i < |dbs| ==> r[i] == dbs[i].groups
  {
    if dbs == [] then [] else GroupMaps(dbs[..|dbs| - 1]) + [dbs[|dbs| - 1].groups]
  }

  /** `get_contacts()` without its cache, over the databases as loaded in `iter_addressbooks` order:
   *  the merged contacts and groups, each as sorted `(key, value)` items. */
  method GetContacts(dbs: seq<Db>) returns (contacts: seq<(string, string)>, groups: seq<(string, string)>)
    ensures SortedItemsOf(contacts, MergeAll(ContactMaps(dbs)))
    ensures SortedItemsOf(groups, MergeAll(GroupMaps(dbs)))
  {
    var c: map<string, string> := map[];
    var g: map<string, string> := map[];
    var i := 0;
    while i < |dbs|
      invariant 0 <= i <= |dbs|
      invariant c == MergeAll(ContactMaps(dbs[..i])) && g == MergeAll(GroupMaps(dbs[..i]))
    {
      assert dbs[..i + 1][..i] == dbs[..i];
      assert ContactMaps(dbs[..i + 1])[..i] == ContactMaps(dbs[..i]);
      assert GroupMaps(dbs[..i + 1])[..i] == GroupMaps(dbs[..i]);
      c := MergeInto(c, dbs[i].contacts);
      g := MergeInto(g, dbs[i].groups);
      i := i + 1;
    }
    assert dbs[..|dbs|] == dbs;
    contacts := SortedItems(c);
    groups := SortedItems(g);
  }

  // ---------------------------------------------------------------------------
  // load_from_db_old

  /** A row of the record query: id, first and last name, organisation (`None` for NULL), `zdisplayflags`. */
  datatype RecordRow = RecordRow(id: int, first: Option<string>, last: Option<string>, org: Option<string>, isOrg: int)

  /** A row of the address query: the address and the id of the record owning it. */
  datatype AddressRow = AddressRow(email: string, owner: int)

  /** The name of a record: its organisation when it is a company (`zdisplayflags == 1`), else the full name;
   *  `None` when that is missing or empty, so that it is not stored. */
  function RecordName(r: RecordRow): (name: Option<string>)
    ensures name.Some? ==> name.value != ""
    ensures r.isOrg == 1 && r.org.Some? && r.org.value != "" ==> name == r.org
    ensures r.isOrg == 1 && (r.org == None || r.org.value == "") ==> name == None
    ensures r.isOrg != 1 ==>
      var full := FullName(OrEmpty(r.first), OrEmpty(r.last)); name == (if full == "" then None else Some(full))
  {
    var name := if r.isOrg == 1 then r.org else Some(FullName(OrEmpty(r.first), OrEmpty(r.last)));
    if name.Some? && name.value != "" then name else None
  }

  /** `id_name_map` after the record loop; a later record with the same id wins. */
  function NameMapOf(rows: seq<RecordRow>): map<int, string> {
    if rows == [] then map[]
    else
      var m, r := NameMapOf(rows[..|rows| - 1]), rows[|rows| - 1];
      var name := RecordName(r);
      if name.Some? then m[r.id := name.value] else m
  }

  /** Only records with a name are stored, so no stored name is empty. */
  lemma {:induction false} NameMapNonEmpty(rows: seq<RecordRow>)
    ensures forall id :: id in NameMapOf(rows) ==> NameMapOf(rows)[id] != ""
  {
    if rows != [] {
      NameMapNonEmpty(rows[..|rows| - 1]);
    }
  }

  /** `contacts` after the address loop of `load_from_db_old` as written. The values are Python objects: a
   *  name, `u''`, or `None` (`None` here), since the else branch also runs for an unnamed owner of an address
   *  that is already present. */
  function OldContacts(rows: seq<AddressRow>, names: map<int, string>): map<string, Option<string>> {
    if rows == [] then map[]
    else
      var c, r := OldContacts(rows[..|rows| - 1], names), rows[|rows| - 1];
      var name := if r.owner in names then Some(names[r.owner]) else None;
      if name.None? && r.email !in c then c[r.email := Some("")] else c[r.email := name]
  }

  /** An address listed under a name loses it, and gets `None` instead of a string, when a later row gives it
   *  an owner without a name. */
  lemma OldContactsLosesName()
    ensures OldContacts([AddressRow("a@b.c", 1), AddressRow("a@b.c", 2)], map[1 := "Ann"])["a@b.c"] == None
  {
    var rows := [AddressRow("a@b.c", 1), AddressRow("a@b.c", 2)];
    var names := map[1 := "Ann"];
    assert rows[..1][..0] == [];
    assert OldContacts(rows[..1], names) == map["a@b.c" := Some("Ann")];
  }

  /** `load_from_db_old` over the rows of its two queries, as written. */
  method LoadFromDbOld(recordRows: seq<RecordRow>, addressRows: seq<AddressRow>) returns (contacts: map<string, Option<string>>)
    ensures contacts == OldContacts(addressRows, NameMapOf(recordRows))
  {
    var idNameMap: map<int, string> := map[];
    var i := 0;
    while i < |recordRows|
      invariant 0 <= i <= |recordRows|
      invariant idNameMap == NameMapOf(recordRows[..i])
    {
      assert recordRows[..i + 1][..i] == recordRows[..i];
      var r := recordRows[i];
      var name: Option<string>;
      if r.isOrg == 1 {
        name := r.org;
      } else {
        name := Some(Strip(OrEmpty(r.first) + " " + OrEmpty(r.last)));
      }
      if name.Some? && name.value != "" {
        idNameMap := idNameMap[r.id := name.value];
      }
      i := i + 1;
    }
    assert recordRows[..|recordRows|] == recordRows;
    contacts := map[];
    var j := 0;
    while j < |addressRows|
      invariant 0 <= j <= |addressRows|
      invariant contacts == OldContacts(addressRows[..j], idNameMap)
    {
      assert addressRows[..j + 1][..j] == addressRows[..j];
      var row := addressRows[j];
      var name := if row.owner in idNameMap then Some(idNameMap[row.owner]) else None;
      if name.None? && row.email !in contacts {
        contacts := contacts[row.email := Some("")];
      } else {
        contacts := contacts[row.email := name];
      }
      j := j + 1;
    }
    assert addressRows[..|addressRows|] == addressRows;
  }

  /** The address loop as evidently intended: an owner without a name only adds a missing address, as `u''`. */
  function OldContactsIntended(rows: seq<AddressRow>, names: map<int, string>): map<string, string> {
    if rows == [] then map[]
    else
      var c, r := OldContactsIntended(rows[..|rows| - 1], names), rows[|rows| - 1];
      if r.owner in names then c[r.email := names[r.owner]]
      else if r.email !in c then c[r.email := ""]
      else c
  }

  /** With the intended loop, every address is listed, and one that some named owner holds keeps a name. */
  lemma {:induction false} IntendedKeepsName(rows: seq<AddressRow>, names: map<int, string>, i: int)
    requires forall id :: id in names ==> names[id] != ""
    requires 0 <= i < |rows| && rows[i].owner in names
    ensures rows[i].email in OldContactsIntended(rows, names)
    ensures OldContactsIntended(rows, names)[rows[i].email] != ""
  {
    var n := |rows| - 1;
    if i < n {
      assert rows[..n][i] == rows[i];
      IntendedKeepsName(rows[..n], names, i);
    }
  }

  /** `load_from_db_old` with the intended address loop: values are names or `u''`, never `None`. */
  method LoadFromDbOldIntended(recordRows: seq<RecordRow>, addressRows: seq<AddressRow>)
    returns (contacts: map<string, string>)
    ensures contacts == OldContactsIntended(addressRows, NameMapOf(recordRows))
  {
    var idNameMap: map<int, string> := map[];
    var i := 0;
    while i < |recordRows|
      invariant 0 <= i <= |recordRows|
      invariant idNameMap == NameMapOf(recordRows[..i])
    {
      assert recordRows[..i + 1][..i] == recordRows[..i];
      var name := RecordName(recordRows[i]);
      if name.Some? {
        idNameMap := idNameMap[recordRows[i].id := name.value];
      }
      i := i + 1;
    }
    assert recordRows[..|recordRows|] == recordRows;
    contacts := map[];
    var j := 0;
    while j < |addressRows|
      invariant 0 <= j <= |addressRows|
      invariant contacts == OldContactsIntended(addressRows[..j], idNameMap)
    {
      assert addressRows[..j + 1][..j] == addressRows[..j];
      var row := addressRows[j];
      if row.owner in idNameMap {
        contacts := contacts[row.email := idNameMap[row.owner]];
      } else if row.email !in contacts {
        contacts := contacts[row.email := ""];
      }
      j := j + 1;
    }
    assert addressRows[..|addressRows|] == addressRows;
  }
}
