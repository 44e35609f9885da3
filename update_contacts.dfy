// Building the contacts cache from the AddressBook records (src/update_contacts.py).
module UpdateContacts {
  import opened Wrappers
  import opened Text
  import opened AddressBook

  /** `d['company']`: the organisation, or `False` when there is none. */
  datatype Company = NoCompany | CompanyName(name: string)

  /** The dict `ab_person_to_dict` returns. A person without addresses has `u''` as `emails`, which the
   *  callers treat like an empty list; `[]` stands for both here. */
  datatype PersonDict = PersonDict(firstName: string, lastName: string, nickname: string, company: Company,
                                   emails: seq<string>, name: string, isGroup: bool, isCompany: bool)

  /** `ab_person_to_dict(person)`: unset properties become `u''`; the name is the full name, or the
   *  organisation of a person without one (then `is_company` is set); an empty organisation is `False`. */
  function PersonToDict(p: Person): (d: PersonDict)
    ensures d.emails == p.emails && !d.isGroup
  {
    var first, last, company := OrEmpty(p.first), OrEmpty(p.last), OrEmpty(p.company);
    var name := FullName(first, last);
    var isCompany := name == "" && company != "";
    PersonDict(first, last, OrEmpty(p.nickname), if company == "" then NoCompany else CompanyName(company),
               p.emails, if isCompany then company else name, false, isCompany)
  }

  /** The name is the full name, or else the organisation, and then `is_company` is set; it is empty only
   *  when both are; an empty organisation is stored as `False`; a missing first name, last name or nickname
   *  is `u''`. */
  lemma PersonToDictSpec(p: Person)
    ensures var d, full, company := PersonToDict(p), FullName(OrEmpty(p.first), OrEmpty(p.last)), OrEmpty(p.company);
      && (d.name == "" <==> full == "" && company == "")
      && (d.isCompany <==> full == "" && company != "")
      && (d.isCompany ==> d.name == company)
      && (!d.isCompany ==> d.name == full)
      && (d.company == NoCompany <==> company == "")
      && (d.company.CompanyName? ==> d.company.name == company)
      && d.firstName == OrEmpty(p.first) && d.lastName == OrEmpty(p.last) && d.nickname == OrEmpty(p.nickname)
  {
  }

  /** A record of the cache: one per address of a person, or one per group. */
  datatype Entry =
    | PersonEntry(name: string, email: string, nickname: string, isGroup: bool, company: Company, isCompany: bool,
                  key: string)
    | GroupEntry(name: string, isGroup: bool, isCompany: bool, email: string, key: string)

  /** The record for one address of a person. `is_group` reads the key `group`, which the person dict does
   *  not have, so it is always `False`. */
  function AddressEntry(d: PersonDict, email: string): (e: Entry)
    ensures e.PersonEntry? && e.email == email && e.name == d.name && !e.isGroup
    ensures e.key == d.nickname + " " + d.name + " " + email
  {
    PersonEntry(d.name, email, d.nickname, false, d.company, d.isCompany, d.nickname + " " + d.name + " " + email)
  }

  /** The records of a person: one per address, in address order. */
  function AddressEntries(d: PersonDict, emails: seq<string>): (r: seq<Entry>)
    ensures |r| == |emails| && forall k :: 0 <= k < |r| ==> r[k] == AddressEntry(d, emails[k])
  {
    if emails == [] then [] else AddressEntries(d, emails[..|emails| - 1]) + [AddressEntry(d, emails[|emails| - 1])]
  }

  /** The person records, people without addresses skipped. */
  function PeopleEntries(people: seq<Person>): (r: seq<Entry>)
    ensures forall k :: 0 <= k < |r| ==> r[k].PersonEntry? && !r[k].isGroup
  {
    PeopleEntriesBy(people, PersonToDict)
  }

  /** The person records with each person converted by `toDict`; the lemmas below hold for any conversion. */
  function PeopleEntriesBy(people: seq<Person>, toDict: Person -> PersonDict): (r: seq<Entry>)
    ensures forall k :: 0 <= k < |r| ==> r[k].PersonEntry? && !r[k].isGroup
  {
    if people == [] then []
    else
      var d := toDict(people[|people| - 1]);
      PeopleEntriesBy(people[..|people| - 1], toDict) + (if |d.emails| == 0 then [] else AddressEntries(d, d.emails))
  }

  /** `email_name_map` after giving each of `emails` the name `name`. */
  function WithName(m: map<string, string>, emails: seq<string>, name: string): map<string, string> {
    if emails == [] then m
    else WithName(m, emails[..|emails| - 1], name)[emails[|emails| - 1] := name]
  }

  /** Each of `emails` is given `name`; every other entry is kept. */
  lemma {:induction false} WithNameSpec(m: map<string, string>, emails: seq<string>, name: string, e: string)
    ensures e in WithName(m, emails, name) <==> e in m || e in emails
    ensures e in emails ==> WithName(m, emails, name)[e] == name
    ensures e !in emails && e in m ==> WithName(m, emails, name)[e] == m[e]
  {
    if emails != [] {
      var n := |emails| - 1;
      WithNameSpec(m, emails[..n], name, e);
      assert emails == emails[..n] + [emails[n]];
    }
  }

  /** `email_name_map` after the people loop: only people with addresses and a name count. */
  function EmailNames(people: seq<Person>): map<string, string> {
    EmailNamesBy(people, PersonToDict)
  }

  function EmailNamesBy(people: seq<Person>, toDict: Person -> PersonDict): map<string, string> {
    if people == [] then map[]
    else
      var m, d := EmailNamesBy(people[..|people| - 1], toDict), toDict(people[|people| - 1]);
      if |d.emails| == 0 || d.name == "" then m else WithName(m, d.emails, d.name)
  }

  /** The dict `ab_group_to_dict` returns, or `None` for a group without selected addresses. */
  datatype GroupDict = GroupDict(name: string, emails: seq<string>, isGroup: bool, isCompany: bool)

  function GroupToDict(g: Group): (r: Option<GroupDict>)
    ensures r.None? <==> DistributionEmails(g.members) == []
    ensures r.Some? ==> r.value == GroupDict(g.name, DistributionEmails(g.members), true, false)
  {
    var emails := DistributionEmails(g.members);
    if |emails| == 0 then None else Some(GroupDict(g.name, emails, true, false))
  }

  /** The group records: the addresses joined by `, ` as the email, the name as the key. */
  function GroupEntries(groups: seq<Group>): (r: seq<Entry>)
    ensures forall k :: 0 <= k < |r| ==> r[k].GroupEntry? && r[k].isGroup && r[k].key == r[k].name
  {
    if groups == [] then []
    else
      var g := GroupToDict(groups[|groups| - 1]);
      GroupEntries(groups[..|groups| - 1])
        + (if g.None? then [] else [GroupEntry(g.value.name, true, false, Join(g.value.emails, ", "), g.value.name)])
  }

  /** What `main` caches. */
  datatype Cache = Cache(contacts: seq<Entry>, emailNameMap: map<string, string>)

  function CacheOf(people: seq<Person>, groups: seq<Group>): Cache {
    Cache(PeopleEntries(people) + GroupEntries(groups), EmailNames(people))
  }

  /** One more person adds its records and its addresses' names. */
  lemma PeopleStep(people: seq<Person>, i: int)
    requires 0 <= i < |people|
    ensures var d := PersonToDict(people[i]);
      && PeopleEntries(people[..i + 1]) == PeopleEntries(people[..i]) + (if |d.emails| == 0 then [] else AddressEntries(d, d.emails))
      && EmailNames(people[..i + 1])
         == (if |d.emails| == 0 || d.name == "" then EmailNames(people[..i]) else WithName(EmailNames(people[..i]), d.emails, d.name))
  {
    PeopleStepBy(people, i, PersonToDict);
  }

  lemma PeopleStepBy(people: seq<Person>, i: int, toDict: Person -> PersonDict)
    requires 0 <= i < |people|
    ensures var d := toDict(people[i]);
      && PeopleEntriesBy(people[..i + 1], toDict)
         == PeopleEntriesBy(people[..i], toDict) + (if |d.emails| == 0 then [] else AddressEntries(d, d.emails))
      && EmailNamesBy(people[..i + 1], toDict)
         == (if |d.emails| == 0 || d.name == "" then EmailNamesBy(people[..i], toDict)
             else WithName(EmailNamesBy(people[..i], toDict), d.emails, d.name))
  {
    assert people[..i + 1][..i] == people[..i];
  }

  // ---------------------------------------------------------------------------
  // main

  /** `for email in person['emails']: email_name_map[email] = person['name']` */
  method AddNames(m0: map<string, string>, emails: seq<string>, name: string) returns (m: map<string, string>)
    ensures m == WithName(m0, emails, name)
  {
    m := m0;
    var i := 0;
    while i < |emails|
      invariant 0 <= i <= |emails|
      invariant m == WithName(m0, emails[..i], name)
    {
      assert emails[..i + 1][..i] == emails[..i];
      m := m[emails[i] := name];
      i := i + 1;
    }
    assert emails[..|emails|] == emails;
  }

  /** The loop appending a person's records. */
  method AddRecords(contacts0: seq<Entry>, person: PersonDict) returns (contacts: seq<Entry>)
    ensures contacts == contacts0 + AddressEntries(person, person.emails)
  {
    contacts := contacts0;
    var i := 0;
    while i < |person.emails|
      invariant 0 <= i <= |person.emails|
      invariant contacts == contacts0 + AddressEntries(person, person.emails[..i])
    {
      var email := person.emails[i];
      var nickname := person.nickname;
      var d := PersonEntry(person.name, email, nickname, false, person.company, person.isCompany,
                           nickname + " " + person.name + " " + email);
      contacts := contacts + [d];
      i := i + 1;
      assert person.emails[..i][..i - 1] == person.emails[..i - 1];
    }
    assert person.emails[..|person.emails|] == person.emails;
  }

  /** `ab_group_to_dict(group)` */
  method LoadGroup(g: Group) returns (r: Option<GroupDict>)
    ensures r == GroupToDict(g)
  {
    var emails := CollectEmails(g.members);
    if |emails| == 0 {
      return None;
    }
    r := Some(GroupDict(g.name, emails, true, false));
  }

  /** The people loop of `main`: each person's records, and its addresses' names when it has a name. */
  method LoadPeople(people: seq<Person>) returns (contacts: seq<Entry>, emailNameMap: map<string, string>)
    ensures contacts == PeopleEntries(people) && emailNameMap == EmailNames(people)
  {
    contacts, emailNameMap := [], map[];
    var i := 0;
    while i < |people|
      invariant 0 <= i <= |people|
      invariant contacts == PeopleEntries(people[..i]) && emailNameMap == EmailNames(people[..i])
    {
      PeopleStep(people, i);
      var person := PersonToDict(people[i]);
      i := i + 1;
      if |person.emails| == 0 {
        continue;
      }
      if person.name != "" {
        emailNameMap := AddNames(emailNameMap, person.emails, person.name);
      }
      contacts := AddRecords(contacts, person);
    }
    assert people[..|people|] == people;
  }

  /** The group loop of `main`: one record per group with a selected address. */
  method LoadGroups(contacts0: seq<Entry>, groups: seq<Group>) returns (contacts: seq<Entry>)
    ensures contacts == contacts0 + GroupEntries(groups)
  {
    contacts := contacts0;
    var j := 0;
    while j < |groups|
      invariant 0 <= j <= |groups|
      invariant contacts == contacts0 + GroupEntries(groups[..j])
    {
      assert groups[..j + 1][..j] == groups[..j];
      var group := LoadGroup(groups[j]);
      j := j + 1;
      if group.None? {
        continue;
      }
      var g := group.value;
      var entry := GroupEntry(g.name, g.isGroup, g.isCompany, Join(g.emails, ", "), g.name);
      contacts := contacts + [entry];
    }
    assert groups[..|groups|] == groups;
  }

  /** `main` up to `wf.cache_data`: the people's records, then the groups', and the address-to-name map. */
  method BuildCache(people: seq<Person>, groups: seq<Group>) returns (cache: Cache)
    ensures cache == CacheOf(people, groups)
  {
    var contacts, emailNameMap := LoadPeople(people);
    contacts := LoadGroups(contacts, groups);
    cache := Cache(contacts, emailNameMap);
  }

  // ---------------------------------------------------------------------------
  // Properties

  /** All person records come before all group records. */
  lemma PeopleBeforeGroups(people: seq<Person>, groups: seq<Group>)
    ensures var c := CacheOf(people, groups).contacts;
      forall i, j :: 0 <= i < j < |c| && c[i].GroupEntry? ==> c[j].GroupEntry?
  {
    KindsInOrder(PeopleEntries(people), GroupEntries(groups));
  }

  /** Person records followed by group records: no person record follows a group record. */
  lemma KindsInOrder(p: seq<Entry>, g: seq<Entry>)
    requires forall k :: 0 <= k < |p| ==> p[k].PersonEntry?
    requires forall k :: 0 <= k < |g| ==> g[k].GroupEntry?
    ensures forall i, j :: 0 <= i < j < |p + g| && (p + g)[i].GroupEntry? ==> (p + g)[j].GroupEntry?
  {
    var c := p + g;
    forall i, j | 0 <= i < j < |c| && c[i].GroupEntry?
      ensures c[j].GroupEntry?
    {
      assert i >= |p|;
      assert c[j] == g[j - |p|];
    }
  }

  /** Every person record is one address of a person that has addresses, under that person's name. */
  lemma PeopleEntriesFrom(people: seq<Person>)
    ensures forall e :: e in PeopleEntries(people) ==>
      exists i :: 0 <= i < |people| && e.email in people[i].emails && e.name == PersonToDict(people[i]).name
  {
    PeopleEntriesFromBy(people, PersonToDict);
  }

  lemma {:induction false} PeopleEntriesFromBy(people: seq<Person>, toDict: Person -> PersonDict)
    requires forall p :: toDict(p).emails == p.emails
    ensures forall e :: e in PeopleEntriesBy(people, toDict) ==>
      exists i :: 0 <= i < |people| && e.email in people[i].emails && e.name == toDict(people[i]).name
  {
    if people != [] {
      var n := |people| - 1;
      PeopleEntriesFromBy(people[..n], toDict);
      assert forall i :: 0 <= i < n ==> people[..n][i] == people[i];
      var d := toDict(people[n]);
      forall e | e in AddressEntries(d, d.emails)
        ensures e.email in people[n].emails && e.name == d.name
      {
        var k :| 0 <= k < |d.emails| && AddressEntries(d, d.emails)[k] == e;
      }
    }
  }

  /** An address is in `email_name_map` exactly when a person with a name has it. */
  lemma EmailNamesKeys(people: seq<Person>)
    ensures forall e :: e in EmailNames(people) <==>
      exists i :: 0 <= i < |people| && PersonToDict(people[i]).name != "" && e in people[i].emails
  {
    EmailNamesKeysBy(people, PersonToDict);
  }

  lemma {:induction false} EmailNamesKeysBy(people: seq<Person>, toDict: Person -> PersonDict)
    requires forall p :: toDict(p).emails == p.emails
    ensures forall e :: e in EmailNamesBy(people, toDict) <==>
      exists i :: 0 <= i < |people| && toDict(people[i]).name != "" && e in people[i].emails
  {
    if people != [] {
      var n := |people| - 1;
      EmailNamesKeysBy(people[..n], toDict);
      assert forall i :: 0 <= i < n ==> people[..n][i] == people[i];
      var d := toDict(people[n]);
      if |d.emails| != 0 && d.name != "" {
        forall e
          ensures e in WithName(EmailNamesBy(people[..n], toDict), d.emails, d.name)
            <==> e in EmailNamesBy(people[..n], toDict) || e in d.emails
        {
          WithNameSpec(EmailNamesBy(people[..n], toDict), d.emails, d.name, e);
        }
      }
    }
  }

  /** Later people overwrite earlier ones: an address maps to the name of the LAST named person having it. */
  lemma EmailNamesLast(people: seq<Person>, i: int, e: string)
    requires 0 <= i < |people| && PersonToDict(people[i]).name != "" && e in people[i].emails
    requires forall j :: i < j < |people| && PersonToDict(people[j]).name != "" ==> e !in people[j].emails
    ensures e in EmailNames(people) && EmailNames(people)[e] == PersonToDict(people[i]).name
  {
    EmailNamesLastBy(people, i, e, PersonToDict);
  }

  lemma {:induction false} EmailNamesLastBy(people: seq<Person>, i: int, e: string, toDict: Person -> PersonDict)
    requires forall p :: toDict(p).emails == p.emails
    requires 0 <= i < |people| && toDict(people[i]).name != "" && e in people[i].emails
    requires forall j :: i < j < |people| && toDict(people[j]).name != "" ==> e !in people[j].emails
    ensures e in EmailNamesBy(people, toDict) && EmailNamesBy(people, toDict)[e] == toDict(people[i]).name
  {
    var n := |people| - 1;
    var d := toDict(people[n]);
    if i < n {
      assert people[..n][i] == people[i];
      EmailNamesLastBy(people[..n], i, e, toDict);
      WithNameSpec(EmailNamesBy(people[..n], toDict), d.emails, d.name, e);
    } else {
      WithNameSpec(EmailNamesBy(people[..n], toDict), d.emails, d.name, e);
    }
  }

  /** A group is recorded exactly when one of its members has a selected address; its record carries the
   *  group's name and those addresses joined by `, `. */
  lemma {:induction false} GroupEntriesSpec(groups: seq<Group>)
    ensures forall e :: e in GroupEntries(groups) <==>
      exists i :: 0 <= i < |groups| && DistributionEmails(groups[i].members) != []
        && e == GroupEntry(groups[i].name, true, false, Join(DistributionEmails(groups[i].members), ", "), groups[i].name)
  {
    if groups != [] {
      var n := |groups| - 1;
      GroupEntriesSpec(groups[..n]);
      assert forall i :: 0 <= i < n ==> groups[..n][i] == groups[i];
    }
  }
}
