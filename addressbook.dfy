/**
 * The AddressBook records the two cache-building scripts read (src/update_contacts.py and
 * src/update_caches.py). The AddressBook framework itself is not modelled: a person or group is given by the
 * values its properties hold.
 */
module AddressBook {
  import opened Wrappers

  /** A person: first and last name, nickname and organisation (`None` when unset), and the email addresses,
   *  in the order of the multi-value property. */
  datatype Person = Person(first: Option<string>, last: Option<string>, nickname: Option<string>,
                           company: Option<string>, emails: seq<string>)

  /** A group: its name and, per member, the address its distribution identifier selects (`None` when the
   *  member has no identifier for the email property). */
  datatype Group = Group(name: string, members: seq<Option<string>>)

  /** The addresses the members' distribution identifiers select, in member order. */
  function DistributionEmails(members: seq<Option<string>>): (r: seq<string>)
    ensures |r| <= |members|
  {
    if members == [] then []
    else
      var m := members[|members| - 1];
      DistributionEmails(members[..|members| - 1]) + (if m.Some? then [m.value] else [])
  }

  /** Exactly the selected addresses are collected: `[]` exactly when no member has an identifier. */
  lemma {:induction false} DistributionEmailsSpec(members: seq<Option<string>>)
    ensures forall e :: e in DistributionEmails(members) <==> Some(e) in members
    ensures DistributionEmails(members) == [] <==> forall k :: 0 <= k < |members| ==> members[k].None?
  {
    if members != [] {
      var n := |members| - 1;
      DistributionEmailsSpec(members[..n]);
      assert members == members[..n] + [members[n]];
      assert forall k :: 0 <= k < n ==> members[..n][k] == members[k];
    }
  }

  /** The member loop of `ab_group_to_dict`. */
  method CollectEmails(members: seq<Option<string>>) returns (emails: seq<string>)
    ensures emails == DistributionEmails(members)
  {
    emails := [];
    var i := 0;
    while i < |members|
      invariant 0 <= i <= |members|
      invariant emails == DistributionEmails(members[..i])
    {
      assert members[..i + 1][..i] == members[..i];
      var identifier := members[i];
      if identifier.Some? {
        emails := emails + [identifier.value];
      }
      i := i + 1;
    }
    assert members[..|members|] == members;
  }
}
