// Building the name, address and group caches from the AddressBook records (src/update_caches.py).
module UpdateCaches {
  import opened Wrappers
  import opened Text
  import opened Sorting
  import opened AddressBook

  /** The dict `ab_person_to_dict` returns: unset properties become `u''`; there is no nickname here. */
  datatype PersonDict = PersonDict(firstName: string, lastName: string, company: string, emails: seq<string>,
                                   name: string)

  /** `ab_person_to_dict(person)`: the name is the full name, or the organisation of a person without one. */
  function PersonToDict(p: Person): (d: PersonDict)
    ensures d.emails == p.emails
  {
    var first, last, company := OrEmpty(p.first), OrEmpty(p.last), OrEmpty(p.company);
    var full := FullName(first, last);
    PersonDict(first, last, company, p.emails, if full == "" then company else full)
  }

  /** The name is the full name when there is one, else the organisation; empty only when both are. */
  lemma PersonToDictSpec(p: Person)
    ensures var d, full, company := PersonToDict(p), FullName(OrEmpty(p.first), OrEmpty(p.last)), OrEmpty(p.company);
      && (d.name == "" <==> full == "" && company == "")
      && (full != "" ==> d.name == full)
      && (full == "" ==> d.name == company)
      && d.firstName == OrEmpty(p.first) && d.lastName == OrEmpty(p.last) && d.company == company
  {
  }

  /** An entry of `names` or `groups`: a name and a tuple of addresses. */
  type Named = (string, seq<string>)

  /** Python's order on `(name, addresses)` tuples. */
  predicate NamedLt(p: Named, q: Named) {
    PairLt(p, q, StrLt, StrsLt)
  }

  lemma NamedOrder()
    ensures StrictTotalOrder(NamedLt)
  {
    StrOrder();
    StrsOrder();
    PairOrder(StrLt, StrsLt);
    var lt := (p: Named, q: Named) => PairLt(p, q, StrLt, StrsLt);
    assert forall p, q :: NamedLt(p, q) == lt(p, q);
  }

  /** The pairs `(email, name)` for each of `emails`. */
  function Tagged(emails: seq<string>, name: string): (r: set<(string, string)>)
    ensures forall e, n :: (e, n) in r <==> e in emails && n == name
  {
    set e | e in emails :: (e, name)
  }

  /** The `names` set after the people loop: `(name, emails)` for every person with an address. */
  function NamesOf(people: seq<Person>): set<Named> {
    NamesBy(people, PersonToDict)
  }

  /** The people sets with each person converted by `toDict`; the lemmas below hold for any conversion. */
  function NamesBy(people: seq<Person>, toDict: Person -> PersonDict): set<Named> {
    if people == [] then {}
    else
      var d := toDict(people[|people| - 1]);
      NamesBy(people[..|people| - 1], toDict) + (if |d.emails| == 0 then {} else {(d.name, d.emails)})
  }

  /** The `emails` set after the people loop: `(email, name)` for every address of a person with a name. */
  function EmailsOf(people: seq<Person>): set<(string, string)> {
    EmailsBy(people, PersonToDict)
  }

  function EmailsBy(people: seq<Person>, toDict: Person -> PersonDict): set<(string, string)> {
    if people == [] then {}
    else
      var d := toDict(people[|people| - 1]);
      EmailsBy(people[..|people| - 1], toDict) + (if |d.emails| == 0 || d.name == "" then {} else Tagged(d.emails, d.name))
  }

  /** `tuple(sorted(emails))` */
  function SortedEmails(emails: seq<string>): (r: seq<string>)
    ensures Sorted(r, StrLt) && multiset(r) == multiset(emails)
  {
    StrOrder();
    Sort(emails, StrLt)
  }

  /** `ab_group_to_dict` as `main` stores it: the name and the sorted addresses, or `None` for a group
   *  without a selected address. */
  function GroupEntry(g: Group): (r: Option<Named>)
    ensures r.None? <==> DistributionEmails(g.members) == []
    ensures r.Some? ==> (r.value.0 == g.name && Sorted(r.value.1, StrLt)
                         && multiset(r.value.1) == multiset(DistributionEmails(g.members)))
  {
    var emails := DistributionEmails(g.members);
    if |emails| == 0 then None else Some((g.name, SortedEmails(emails)))
  }

  /** The `groups` set after the group loop. */
  function GroupsOf(groups: seq<Group>): set<Named> {
    GroupsBy(groups, GroupEntry)
  }

  function GroupsBy(groups: seq<Group>, entry: Group -> Option<Named>): set<Named> {
    if groups == [] then {}
    else
      var g := entry(groups[|groups| - 1]);
      GroupsBy(groups[..|groups| - 1], entry) + (if g.None? then {} else {g.value})
  }

  /** One more person adds its `names` and `emails` entries. */
  lemma PeopleStep(people: seq<Person>, i: int)
    requires 0 <= i < |people|
    ensures var d := PersonToDict(people[i]);
      && NamesOf(people[..i + 1]) == NamesOf(people[..i]) + (if |d.emails| == 0 then {} else {(d.name, d.emails)})
      && EmailsOf(people[..i + 1])
         == EmailsOf(people[..i]) + (if |d.emails| == 0 || d.name == "" then {} else Tagged(d.emails, d.name))
  {
    PeopleStepBy(people, i, PersonToDict);
  }

  lemma PeopleStepBy(people: seq<Person>, i: int, toDict: Person -> PersonDict)
    requires 0 <= i < |people|
    ensures var d := toDict(people[i]);
      && NamesBy(people[..i + 1], toDict) == NamesBy(people[..i], toDict) + (if |d.emails| == 0 then {} else {(d.name, d.emails)})
      && EmailsBy(people[..i + 1], toDict)
         == EmailsBy(people[..i], toDict) + (if |d.emails| == 0 || d.name == "" then {} else Tagged(d.emails, d.name))
  {
    assert people[..i + 1][..i] == people[..i];
  }

  /** One more group adds its entry, if it has one. */
  lemma GroupsStep(groups: seq<Group>, i: int)
    requires 0 <= i < |groups|
    ensures var g := GroupEntry(groups[i]);
      GroupsOf(groups[..i + 1]) == GroupsOf(groups[..i]) + (if g.None? then {} else {g.value})
  {
    GroupsStepBy(groups, i, GroupEntry);
  }

  lemma GroupsStepBy(groups: seq<Group>, i: int, entry: Group -> Option<Named>)
    requires 0 <= i < |groups|
    ensures var g := entry(groups[i]);
      GroupsBy(groups[..i + 1], entry) == GroupsBy(groups[..i], entry) + (if g.None? then {} else {g.value})
  {
    assert groups[..i + 1][..i] == groups[..i];
  }

  /** A `names` entry is exactly a person with an address, under the name `ab_person_to_dict` gives. */
  lemma NamesOfSpec(people: seq<Person>, x: Named)
    ensures x in NamesOf(people) <==>
      exists k :: 0 <= k < |people| && people[k].emails != [] && x == (PersonToDict(people[k]).name, people[k].emails)
  {
    NamesBySpec(people, PersonToDict, x);
  }

  lemma {:induction false} NamesBySpec(people: seq<Person>, toDict: Person -> PersonDict, x: Named)
    requires forall p :: toDict(p).emails == p.emails
    ensures x in NamesBy(people, toDict) <==>
      exists k :: 0 <= k < |people| && people[k].emails != [] && x == (toDict(people[k]).name, people[k].emails)
  {
    if people != [] {
      var n := |people| - 1;
      NamesBySpec(people[..n], toDict, x);
      assert forall k :: 0 <= k < n ==> people[..n][k] == people[k];
      if x in NamesBy(people, toDict) && x !in NamesBy(people[..n], toDict) {
        assert x == (toDict(people[n]).name, people[n].emails);
      }
    }
  }

  /** An `emails` entry is exactly an address of a person with a non-empty name, paired with that name. */
  lemma EmailsOfSpec(people: seq<Person>, e: string, name: string)
    ensures (e, name) in EmailsOf(people) <==>
      exists k :: 0 <= k < |people| && e in people[k].emails && name == PersonToDict(people[k]).name && name != ""
  {
    EmailsBySpec(people, PersonToDict, e, name);
  }

  lemma {:induction false} EmailsBySpec(people: seq<Person>, toDict: Person -> PersonDict, e: string, name: string)
    requires forall p :: toDict(p).emails == p.emails
    ensures (e, name) in EmailsBy(people, toDict) <==>
      exists k :: 0 <= k < |people| && e in people[k].emails && name == toDict(people[k]).name && name != ""
  {
    if people != [] {
      var n := |people| - 1;
      EmailsBySpec(people[..n], toDict, e, name);
      assert forall k :: 0 <= k < n ==> people[..n][k] == people[k];
      if (e, name) in EmailsBy(people, toDict) && (e, name) !in EmailsBy(people[..n], toDict) {
        assert e in people[n].emails && name == toDict(people[n]).name && name != "";
      }
    }
  }

  /** A `groups` entry is exactly the entry of one of the groups. */
  lemma GroupsOfSpec(groups: seq<Group>, x: Named)
    ensures x in GroupsOf(groups) <==> exists k :: 0 <= k < |groups| && GroupEntry(groups[k]) == Some(x)
  {
    GroupsBySpec(groups, GroupEntry, x);
  }

  lemma {:induction false} GroupsBySpec(groups: seq<Group>, entry: Group -> Option<Named>, x: Named)
    ensures x in GroupsBy(groups, entry) <==> exists k :: 0 <= k < |groups| && entry(groups[k]) == Some(x)
  {
    if groups != [] {
      var n := |groups| - 1;
      GroupsBySpec(groups[..n], entry, x);
      assert forall k :: 0 <= k < n ==> groups[..n][k] == groups[k];
    }
  }

  /** Each `groups` entry is a group with a selected address (`DistributionEmailsSpec`), named as the group,
   *  with those addresses in increasing order. */
  lemma GroupEntrySpec(groups: seq<Group>, x: Named)
    requires x in GroupsOf(groups)
    ensures Sorted(x.1, StrLt)
    ensures exists k :: (0 <= k < |groups| && x.0 == groups[k].name && DistributionEmails(groups[k].members) != []
                         && multiset(x.1) == multiset(DistributionEmails(groups[k].members)))
  {
    GroupsOfSpec(groups, x);
  }

  /** What `main` caches: three sorted lists without repetitions. */
  datatype Caches = Caches(names: seq<Named>, emails: seq<(string, string)>, groups: seq<Named>)

  /** The cache holds exactly the three sets, each as a strictly increasing list. */
  predicate CachesOf(c: Caches, people: seq<Person>, groups: seq<Group>) {
    && StrictlySorted(c.names, NamedLt) && (forall x :: x in c.names ==> x in NamesOf(people))
    && (forall x :: x in NamesOf(people) ==> x in c.names)
    && StrictlySorted(c.emails, StrPairLt) && (forall x :: x in c.emails ==> x in EmailsOf(people))
    && (forall x :: x in EmailsOf(people) ==> x in c.emails)
    && StrictlySorted(c.groups, NamedLt) && (forall x :: x in c.groups ==> x in GroupsOf(groups))
    && (forall x :: x in GroupsOf(groups) ==> x in c.groups)
  }

  /** Two caches built from the same records are equal: the lists do not depend on the records' order. */
  lemma CachesUnique(c1: Caches, c2: Caches, people: seq<Person>, groups: seq<Group>)
    requires CachesOf(c1, people, groups) && CachesOf(c2, people, groups)
    ensures c1 == c2
  {
    NamedOrder();
    StrPairOrder();
    StrictlySortedUnique(c1.names, c2.names, NamedLt);
    StrictlySortedUnique(c1.emails, c2.emails, StrPairLt);
    StrictlySortedUnique(c1.groups, c2.groups, NamedLt);
  }

  /** Records read in any other order give the same caches: the three sets depend only on which records
   *  there are, and each list only on its set (`CachesUnique`). */
  lemma CachesOrderFree(c1: Caches, c2: Caches, people1: seq<Person>, people2: seq<Person>,
                        groups1: seq<Group>, groups2: seq<Group>)
    requires multiset(people1) == multiset(people2) && multiset(groups1) == multiset(groups2)
    requires CachesOf(c1, people1, groups1) && CachesOf(c2, people2, groups2)
    ensures c1 == c2
  {
    forall x | x in NamesOf(people1) ensures x in NamesOf(people2) { NamesMove(people1, people2, x); }
    forall x | x in NamesOf(people2) ensures x in NamesOf(people1) { NamesMove(people2, people1, x); }
    forall x | x in EmailsOf(people1) ensures x in EmailsOf(people2) { EmailsMove(people1, people2, x); }
    forall x | x in EmailsOf(people2) ensures x in EmailsOf(people1) { EmailsMove(people2, people1, x); }
    forall x | x in GroupsOf(groups1) ensures x in GroupsOf(groups2) { GroupsMove(groups1, groups2, x); }
    forall x | x in GroupsOf(groups2) ensures x in GroupsOf(groups1) { GroupsMove(groups2, groups1, x); }
    assert NamesOf(people1) == NamesOf(people2);
    assert EmailsOf(people1) == EmailsOf(people2);
    assert GroupsOf(groups1) == GroupsOf(groups2);
    CachesUnique(c1, c2, people1, groups1);
  }

  /** A `names` entry of some records is one of the same records in any other order. */
  lemma NamesMove(people1: seq<Person>, people2: seq<Person>, x: Named)
    requires multiset(people1) == multiset(people2) && x in NamesOf(people1)
    ensures x in NamesOf(people2)
  {
    NamesOfSpec(people1, x);
    var k :| 0 <= k < |people1| && people1[k].emails != [] && x == (PersonToDict(people1[k]).name, people1[k].emails);
    assert people1[k] in multiset(people2);
    var j :| 0 <= j < |people2| && people2[j] == people1[k];
    NamesOfSpec(people2, x);
  }

  /** An `emails` entry of some records is one of the same records in any other order. */
  lemma EmailsMove(people1: seq<Person>, people2: seq<Person>, x: (string, string))
    requires multiset(people1) == multiset(people2) && x in EmailsOf(people1)
    ensures x in EmailsOf(people2)
  {
    EmailsOfSpec(people1, x.0, x.1);
    var k :| 0 <= k < |people1| && x.0 in people1[k].emails && x.1 == PersonToDict(people1[k]).name && x.1 != "";
    assert people1[k] in multiset(people2);
    var j :| 0 <= j < |people2| && people2[j] == people1[k];
    EmailsOfSpec(people2, x.0, x.1);
  }

  /** A `groups` entry of some groups is one of the same groups in any other order. */
  lemma GroupsMove(groups1: seq<Group>, groups2: seq<Group>, x: Named)
    requires multiset(groups1) == multiset(groups2) && x in GroupsOf(groups1)
    ensures x in GroupsOf(groups2)
  {
    GroupsOfSpec(groups1, x);
    var k :| 0 <= k < |groups1| && GroupEntry(groups1[k]) == Some(x);
    assert groups1[k] in multiset(groups2);
    var j :| 0 <= j < |groups2| && groups2[j] == groups1[k];
    GroupsOfSpec(groups2, x);
  }

  // ---------------------------------------------------------------------------
  // main

  /** `contacts['emails'].add((email, name))` for each of `emails`. */
  method AddEmails(s0: set<(string, string)>, emails: seq<string>, name: string) returns (s: set<(string, string)>)
    ensures s == s0 + Tagged(emails, name)
  {
    s := s0;
    var i := 0;
    while i < |emails|
      invariant 0 <= i <= |emails|
      invariant s == s0 + Tagged(emails[..i], name)
    {
      assert Tagged(emails[..i + 1], name) == Tagged(emails[..i], name) + {(emails[i], name)} by {
        assert emails[..i + 1] == emails[..i] + [emails[i]];
      }
      s := s + {(emails[i], name)};
      i := i + 1;
    }
    assert emails[..|emails|] == emails;
  }

  /** The people loop of `main`. */
  method LoadPeople(people: seq<Person>) returns (names: set<Named>, emails: set<(string, string)>)
    ensures names == NamesOf(people) && emails == EmailsOf(people)
  {
    names, emails := {}, {};
    var i := 0;
    while i < |people|
      invariant 0 <= i <= |people|
      invariant names == NamesOf(people[..i]) && emails == EmailsOf(people[..i])
    {
      PeopleStep(people, i);
      var person := PersonToDict(people[i]);
      if |person.emails| == 0 {
        i := i + 1;
        continue;
      }
      if person.name != "" {
        emails := AddEmails(emails, person.emails, person.name);
      }
      assert emails == EmailsOf(people[..i + 1]);
      names := names + {(person.name, person.emails)};
      i := i + 1;
    }
    assert people[..|people|] == people;
  }

  /** The group loop of `main`. */
  method LoadGroups(groups: seq<Group>) returns (named: set<Named>)
    ensures named == GroupsOf(groups)
  {
    named := {};
    var i := 0;
    while i < |groups|
      invariant 0 <= i <= |groups|
      invariant named == GroupsOf(groups[..i])
    {
      GroupsStep(groups, i);
      var emails := CollectEmails(groups[i].members);
      if |emails| == 0 {
        assert GroupEntry(groups[i]).None?;
        i := i + 1;
        continue;
      }
      var entry := (groups[i].name, SortedEmails(emails));
      assert GroupEntry(groups[i]) == Some(entry);
      named := named + {entry};
      i := i + 1;
    }
    assert groups[..|groups|] == groups;
  }

  /** `main` up to `wf.cache_data`: the three sets, each turned into a sorted list. */
  method BuildCaches(people: seq<Person>, groups: seq<Group>) returns (c: Caches)
    ensures CachesOf(c, people, groups)
  {
    var names, emails := LoadPeople(people);
    var named := LoadGroups(groups);
    NamedOrder();
    StrPairOrder();
    var nameList := SortedList(names, NamedLt);
    var emailList := SortedList(emails, StrPairLt);
    var groupList := SortedList(named, NamedLt);
    c := Caches(nameList, emailList, groupList);
  }
}
