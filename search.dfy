/** The recipient search of the workflow's script filter (src/search.py). */
module Search {
  import opened Wrappers
  import opened Text
  import opened Sorting
  import Common

  /** The workflow's own commands: typed alone, they raise no error. */
  const Keywords: seq<string> := ["getdefault", "setdefault", "cleardefault", "help", "format", "usename"]

  // ---------------------------------------------------------------------------
  // `valid_email`: a match of `[^@]+@[^@]+\.[^@]+` at the start of the text.

  /** Position of the first `c` in `s`, or `|s|` when there is none. */
  function IndexOf(s: string, c: char): (r: nat)
    ensures r <= |s| && (r < |s| ==> s[r] == c)
    ensures forall k :: 0 <= k < r ==> s[k] != c
  {
    if s == [] then 0 else if s[0] == c then 0 else 1 + IndexOf(s[1..], c)
  }

  /**
   * `valid_email(s)`: some text before the first `@`, and a `.` that is neither the first nor the last
   * character of the run of non-`@` characters after it. Text after that run is not looked at.
   */
  function ValidEmail(s: string): bool {
    var at := IndexOf(s, '@');
    if at == 0 || at == |s| then false
    else
      var rest := s[at + 1..];
      var end := IndexOf(rest, '@');
      end >= 3 && '.' in rest[1..end - 1]
  }

  predicate NoAt(s: string, lo: int, hi: int)
    requires 0 <= lo <= hi <= |s|
  {
    forall m :: lo <= m < hi ==> s[m] != '@'
  }

  /** The regular expression, position by position: `s[..i]` is `[^@]+`, `s[i]` is `@`, `s[i + 1..j]` is
   *  `[^@]+`, `s[j]` is the escaped `.`, and `s[j + 1]` starts the last `[^@]+`. */
  ghost predicate MatchesPattern(s: string) {
    exists i, j :: MatchesAt(s, i, j)
  }

  /** The regular expression matches with its `@` at `i` and its `.` at `j`. */
  ghost predicate MatchesAt(s: string, i: int, j: int) {
    0 < i && i + 1 < j && j + 1 < |s| && s[i] == '@' && NoAt(s, 0, i) && NoAt(s, i + 1, j)
    && s[j] == '.' && s[j + 1] != '@'
  }

  /** `ValidEmail` accepts exactly the texts the regular expression matches at their start. */
  lemma ValidEmailSpec(s: string)
    ensures ValidEmail(s) <==> MatchesPattern(s)
  {
    if ValidEmail(s) {
      ValidEmailMatches(s);
    }
    if MatchesPattern(s) {
      var i, j :| MatchesAt(s, i, j);
      MatchValid(s, i, j);
    }
  }

  lemma ValidEmailMatches(s: string)
    requires ValidEmail(s)
    ensures MatchesPattern(s)
  {
    var at := IndexOf(s, '@');
    var rest := s[at + 1..];
    var end := IndexOf(rest, '@');
    var mid := rest[1..end - 1];
    var d :| 0 <= d < |mid| && mid[d] == '.';
    var j := at + 2 + d;
    assert s[j] == rest[d + 1] == mid[d];
    assert s[j + 1] == rest[d + 2];
    assert NoAt(s, at + 1, j) by {
      forall m | at + 1 <= m < j ensures s[m] != '@' {
        assert s[m] == rest[m - at - 1];
      }
    }
    assert NoAt(s, 0, at);
    assert MatchesAt(s, at, j);
  }

  lemma MatchValid(s: string, i: int, j: int)
    requires MatchesAt(s, i, j)
    ensures ValidEmail(s)
  {
    var at := IndexOf(s, '@');
    assert at == i;
    var rest := s[i + 1..];
    var end := IndexOf(rest, '@');
    assert forall m :: 0 <= m <= j - i ==> rest[m] == s[i + 1 + m];
    var mid := rest[1..end - 1];
    assert mid[j - i - 2] == s[j];
  }

  // ---------------------------------------------------------------------------
  // The query

  /** The characters the query's `lstrip(', ')` removes. */
  const CommaSpace: set<char> := {',', ' '}

  /** The first argument with leading commas and spaces removed, then trimmed; empty without arguments. */
  function NormalizeQuery(args: seq<string>): (q: string)
    ensures args == [] ==> q == ""
  {
    if |args| > 0 then
      var trimmed := LStrip(args[0], CommaSpace);
      Strip(trimmed)
    else ""
  }

  /** The typed recipients before the last comma, sorted into valid and invalid ones, each in typing order. */
  function Classify(addresses: seq<string>): (r: (seq<string>, seq<string>))
    ensures forall k :: 0 <= k < |r.0| ==> ValidEmail(r.0[k])
    ensures forall k :: 0 <= k < |r.1| ==> !ValidEmail(r.1[k])
  {
    PartitionBy(addresses, ValidEmail)
  }

  /** The split `Classify` makes, for any test `valid`; the lemmas about it hold for every test. */
  function PartitionBy(addresses: seq<string>, valid: string -> bool): (r: (seq<string>, seq<string>))
    ensures forall k :: 0 <= k < |r.0| ==> valid(r.0[k])
    ensures forall k :: 0 <= k < |r.1| ==> !valid(r.1[k])
  {
    if addresses == [] then ([], [])
    else
      var r := PartitionBy(addresses[..|addresses| - 1], valid);
      var a := addresses[|addresses| - 1];
      if valid(a) then (r.0 + [a], r.1) else (r.0, r.1 + [a])
  }

  /** `existing`: the valid recipients joined by `, `, with a trailing `, `; empty when there are none. */
  function ExistingOf(valid: seq<string>): (r: string)
    ensures valid == [] <==> r == ""
  {
    if valid == [] then "" else Join(valid, ", ") + ", "
  }

  /** One more valid recipient extends `existing` by that recipient and its `, `. */
  lemma ExistingSnoc(valid: seq<string>, x: string)
    ensures ExistingOf(valid + [x]) == ExistingOf(valid) + x + ", "
  {
    JoinSnoc(valid, x, ", ");
  }

  /** The query after splitting: the text still being typed, the recipients already typed, all typed pieces,
   *  and the invalid ones among them. */
  datatype Parsed = Parsed(q: string, existing: string, addresses: seq<string>, invalid: seq<string>)

  /** Splitting a lower-cased query on its commas. */
  function ParseQuery(q: string): (p: Parsed)
    ensures ',' !in q ==> p == Parsed(q, "", [], [])
    ensures ',' in q ==> |p.addresses| > 0 && p.q == p.addresses[|p.addresses| - 1]
  {
    if ',' !in q then Parsed(q, "", [], [])
    else
      var addresses := Common.MapStrip(Split(q, ','));
      var n := |addresses| - 1;
      var (valid, invalid) := Classify(addresses[..n]);
      Parsed(addresses[n], ExistingOf(valid), addresses, invalid)
  }

  // ---------------------------------------------------------------------------
  // Hits

  /** A hit: a contact's or group's name and its address (a group's addresses joined by `, `). */
  type Hit = (string, string)

  /** The test of one loop: `text.lower()` starts with the query, or contains it. */
  predicate Matches(text: string, q: string, prefix: bool) {
    if prefix then StartsWith(Lower(text), q) else Contains(Lower(text), q)
  }

  /** A loop over the groups' `(name, email)` pairs, adding the new ones whose name matches. */
  function GroupHits(hits: seq<Hit>, groups: seq<Hit>, q: string, prefix: bool): seq<Hit> {
    if groups == [] then hits
    else
      var h := GroupHits(hits, groups[..|groups| - 1], q, prefix);
      var g := groups[|groups| - 1];
      if Matches(g.0, q, prefix) && g !in h then h + [g] else h
  }

  /** The inner loop over one contact's addresses, adding the new `(name, email)` pairs. */
  function AddEmails(hits: seq<Hit>, name: string, emails: seq<string>): seq<Hit> {
    if emails == [] then hits
    else
      var h := AddEmails(hits, name, emails[..|emails| - 1]);
      var e := emails[|emails| - 1];
      if (name, e) !in h then h + [(name, e)] else h
  }

  /** A loop over the `(name, emails)` entries, adding the addresses of the contacts whose name matches. */
  function NameHits(hits: seq<Hit>, nameToEmail: seq<(string, seq<string>)>, q: string, prefix: bool): seq<Hit> {
    if nameToEmail == [] then hits
    else
      var h := NameHits(hits, nameToEmail[..|nameToEmail| - 1], q, prefix);
      var (name, emails) := nameToEmail[|nameToEmail| - 1];
      if Matches(name, q, prefix) then AddEmails(h, name, emails) else h
  }

  /** A loop over the `(email, name)` pairs, adding the new `(name, email)` hits whose address matches. */
  function EmailHits(hits: seq<Hit>, emailToName: seq<(string, string)>, q: string, prefix: bool): seq<Hit> {
    if emailToName == [] then hits
    else
      var h := EmailHits(hits, emailToName[..|emailToName| - 1], q, prefix);
      var (email, name) := emailToName[|emailToName| - 1];
      if Matches(email, q, prefix) && (name, email) !in h then h + [(name, email)] else h
  }

  /** One pass over groups, then contact names, then addresses. */
  function Pass(hits: seq<Hit>, q: string, prefix: bool, groups: seq<Hit>,
                nameToEmail: seq<(string, seq<string>)>, emailToName: seq<(string, string)>): seq<Hit> {
    EmailHits(NameHits(GroupHits(hits, groups, q, prefix), nameToEmail, q, prefix), emailToName, q, prefix)
  }

  /** The prefix matches. */
  function PrefixHits(q: string, groups: seq<Hit>, nameToEmail: seq<(string, seq<string>)>,
                      emailToName: seq<(string, string)>): seq<Hit> {
    Pass([], q, true, groups, nameToEmail, emailToName)
  }

  /** All hits: the prefix matches, then the other substring matches. */
  function Hits(q: string, groups: seq<Hit>, nameToEmail: seq<(string, seq<string>)>,
                emailToName: seq<(string, string)>): seq<Hit> {
    Pass(PrefixHits(q, groups, nameToEmail, emailToName), q, false, groups, nameToEmail, emailToName)
  }

  /** `r` begins with `h`, and has no repetition when `h` has none. */
  predicate Extends(h: seq<Hit>, r: seq<Hit>) {
    |h| <= |r| && r[..|h|] == h && (NoDuplicates(h) ==> NoDuplicates(r))
  }

  lemma ExtendsSnoc(h: seq<Hit>, r: seq<Hit>, x: Hit)
    requires Extends(h, r) && x !in r
    ensures Extends(h, r + [x])
  {
    assert (r + [x])[..|h|] == r[..|h|];
  }

  lemma ExtendsTrans(a: seq<Hit>, b: seq<Hit>, c: seq<Hit>)
    requires Extends(a, b) && Extends(b, c)
    ensures Extends(a, c)
  {
    assert c[..|a|] == c[..|b|][..|a|];
  }

  /** The pair `x` is one of the groups whose name matches. */
  predicate InGroups(x: Hit, groups: seq<Hit>, q: string, prefix: bool) {
    x in groups && Matches(x.0, q, prefix)
  }

  /** The pair `x` is an address of a contact whose name matches. */
  predicate InNames(x: Hit, nameToEmail: seq<(string, seq<string>)>, q: string, prefix: bool) {
    Matches(x.0, q, prefix) && exists i :: 0 <= i < |nameToEmail| && nameToEmail[i].0 == x.0 && x.1 in nameToEmail[i].1
  }

  /** The pair `x` is a contact whose address matches. */
  predicate InEmails(x: Hit, emailToName: seq<(string, string)>, q: string, prefix: bool) {
    (x.1, x.0) in emailToName && Matches(x.1, q, prefix)
  }

  lemma {:induction false} GroupHitsSpec(hits: seq<Hit>, groups: seq<Hit>, q: string, prefix: bool)
    ensures Extends(hits, GroupHits(hits, groups, q, prefix))
    ensures forall x :: x in GroupHits(hits, groups, q, prefix) <==> x in hits || InGroups(x, groups, q, prefix)
  {
    if groups != [] {
      var init := groups[..|groups| - 1];
      GroupHitsSpec(hits, init, q, prefix);
      var h := GroupHits(hits, init, q, prefix);
      var g := groups[|groups| - 1];
      if Matches(g.0, q, prefix) && g !in h {
        ExtendsSnoc(hits, h, g);
      }
      assert groups == init + [g];
    }
  }

  lemma {:induction false} AddEmailsSpec(hits: seq<Hit>, name: string, emails: seq<string>)
    ensures Extends(hits, AddEmails(hits, name, emails))
    ensures forall x :: x in AddEmails(hits, name, emails) <==> x in hits || (x.0 == name && x.1 in emails)
  {
    if emails != [] {
      var init := emails[..|emails| - 1];
      AddEmailsSpec(hits, name, init);
      var h := AddEmails(hits, name, init);
      var e := emails[|emails| - 1];
      if (name, e) !in h {
        ExtendsSnoc(hits, h, (name, e));
      }
      assert emails == init + [e];
    }
  }

  lemma {:induction false} NameHitsSpec(hits: seq<Hit>, nameToEmail: seq<(string, seq<string>)>, q: string, prefix: bool)
    ensures Extends(hits, NameHits(hits, nameToEmail, q, prefix))
    ensures forall x :: x in NameHits(hits, nameToEmail, q, prefix) <==> x in hits || InNames(x, nameToEmail, q, prefix)
  {
    if nameToEmail != [] {
      var n := |nameToEmail| - 1;
      var init := nameToEmail[..n];
      NameHitsSpec(hits, init, q, prefix);
      var h := NameHits(hits, init, q, prefix);
      var (name, emails) := nameToEmail[n];
      if Matches(name, q, prefix) {
        AddEmailsSpec(h, name, emails);
        ExtendsTrans(hits, h, AddEmails(h, name, emails));
      }
      assert forall i :: 0 <= i < n ==> init[i] == nameToEmail[i];
      forall x | InNames(x, nameToEmail, q, prefix) && !InNames(x, init, q, prefix)
        ensures x.0 == name && x.1 in emails
      {
        var i :| 0 <= i < |nameToEmail| && nameToEmail[i].0 == x.0 && x.1 in nameToEmail[i].1;
        assert i == n;
      }
    }
  }

  lemma {:induction false} EmailHitsSpec(hits: seq<Hit>, emailToName: seq<(string, string)>, q: string, prefix: bool)
    ensures Extends(hits, EmailHits(hits, emailToName, q, prefix))
    ensures forall x :: x in EmailHits(hits, emailToName, q, prefix) <==> x in hits || InEmails(x, emailToName, q, prefix)
  {
    if emailToName != [] {
      var init := emailToName[..|emailToName| - 1];
      EmailHitsSpec(hits, init, q, prefix);
      var h := EmailHits(hits, init, q, prefix);
      var (email, name) := emailToName[|emailToName| - 1];
      if Matches(email, q, prefix) && (name, email) !in h {
        ExtendsSnoc(hits, h, (name, email));
      }
      assert emailToName == init + [(email, name)];
    }
  }

  /** A pass keeps the hits it starts from first and adds exactly the matching pairs not yet listed. */
  lemma PassSpec(hits: seq<Hit>, q: string, prefix: bool, groups: seq<Hit>,
                 nameToEmail: seq<(string, seq<string>)>, emailToName: seq<(string, string)>)
    ensures Extends(hits, Pass(hits, q, prefix, groups, nameToEmail, emailToName))
    ensures forall x :: x in Pass(hits, q, prefix, groups, nameToEmail, emailToName) <==>
      x in hits || InGroups(x, groups, q, prefix) || InNames(x, nameToEmail, q, prefix) || InEmails(x, emailToName, q, prefix)
  {
    var h1 := GroupHits(hits, groups, q, prefix);
    var h2 := NameHits(h1, nameToEmail, q, prefix);
    GroupHitsSpec(hits, groups, q, prefix);
    NameHitsSpec(h1, nameToEmail, q, prefix);
    EmailHitsSpec(h2, emailToName, q, prefix);
    ExtendsTrans(hits, h1, h2);
    ExtendsTrans(hits, h2, Pass(hits, q, prefix, groups, nameToEmail, emailToName));
  }

  /**
   * The hits list no pair twice; the prefix matches come first; and a pair is a hit exactly when it is a
   * group, a contact name's address or a contact whose name or address contains the query.
   */
  lemma HitsSpec(q: string, groups: seq<Hit>, nameToEmail: seq<(string, seq<string>)>, emailToName: seq<(string, string)>)
    ensures var hits, pre := Hits(q, groups, nameToEmail, emailToName), PrefixHits(q, groups, nameToEmail, emailToName);
      && NoDuplicates(hits)
      && |pre| <= |hits| && hits[..|pre|] == pre
      && (forall x :: x in pre <==> InGroups(x, groups, q, true) || InNames(x, nameToEmail, q, true) || InEmails(x, emailToName, q, true))
      && (forall x :: x in hits <==> InGroups(x, groups, q, false) || InNames(x, nameToEmail, q, false) || InEmails(x, emailToName, q, false))
  {
    var pre := PrefixHits(q, groups, nameToEmail, emailToName);
    PassSpec([], q, true, groups, nameToEmail, emailToName);
    PassSpec(pre, q, false, groups, nameToEmail, emailToName);
    forall t: string | StartsWith(Lower(t), q) ensures Contains(Lower(t), q) {
      StartsWithContains(Lower(t), q);
    }
  }

  // ---------------------------------------------------------------------------
  // Result items

  /** A result row: whether Enter acts on it, its argument, uid and autocompletion, its texts and icon. */
  datatype Item = Item(valid: bool, arg: Option<string>, uid: Option<string>, autocomplete: Option<string>,
                       title: string, subtitle: string, icon: string)

  const NewMailItem := Item(true, Some(""), Some("compose"), None, "Write new email",
    "Hit ENTER to compose a new mail or start typing to add recipients", "icon.png")

  const NotValidSuffix := " is not a valid email address"
  const TryElse := "Try something else"
  const WriteMailTo := "Write mail to "
  const ComposeHint := "Hit ENTER to compose a new message"

  function ErrorItem(text: string): Item {
    Item(false, None, None, None, text + NotValidSuffix, TryElse, "warning.png")
  }

  function ComposeItem(recipients: string): Item {
    Item(true, Some(recipients), None, None, WriteMailTo + recipients, ComposeHint, "icon.png")
  }

  /** The item for a hit: its argument adds the hit's address to the recipients already typed. */
  function HitItem(hit: Hit, existing: string): Item {
    var recipients := existing + hit.1 + ", ";
    Item(true, Some(recipients), Some(recipients), Some(recipients), hit.0, hit.1,
      if Contains(hit.1, ", ") then "group.png" else "icon.png")
  }

  /** The item offered when every hit is already among the typed recipients. */
  function AllTypedItem(recipients: string): Item {
    Item(true, Some(recipients), None, Some(recipients), WriteMailTo + recipients, ComposeHint, "icon.png")
  }

  function ErrorItems(invalid: seq<string>): (r: seq<Item>)
    ensures |r| == |invalid| && forall k :: 0 <= k < |r| ==> r[k] == ErrorItem(invalid[k])
  {
    if invalid == [] then [] else ErrorItems(invalid[..|invalid| - 1]) + [ErrorItem(invalid[|invalid| - 1])]
  }

  /** `s.rstrip(', ')` */
  function TrimRecipients(s: string): string {
    RStrip(s, CommaSpace)
  }

  /** The items after the errors when nothing matched. */
  function NoHitItems(q: string, existing: string): seq<Item> {
    if ValidEmail(q) || (q == "" && existing != "") then [ComposeItem(TrimRecipients(existing + q))]
    else if q != "" && q !in Keywords then
      [ErrorItem(q)] + (if existing != "" then [ComposeItem(TrimRecipients(existing))] else [])
    else []
  }

  /** The items for the hits whose address was not typed already. */
  function HitItems(hits: seq<Hit>, addresses: seq<string>, existing: string): seq<Item> {
    if hits == [] then []
    else
      var h := hits[|hits| - 1];
      HitItems(hits[..|hits| - 1], addresses, existing) + (if h.1 in addresses then [] else [HitItem(h, existing)])
  }

  /** The items `main` shows for the arguments and the contacts. */
  function SearchItems(args: seq<string>, emailToName: seq<(string, string)>,
                       nameToEmail: seq<(string, seq<string>)>, groups: seq<Hit>): seq<Item> {
    ItemsFor(NormalizeQuery(args), emailToName, nameToEmail, groups)
  }

  /** The items for the normalised query `q0`. */
  function ItemsFor(q0: string, emailToName: seq<(string, string)>,
                    nameToEmail: seq<(string, seq<string>)>, groups: seq<Hit>): seq<Item> {
    if q0 == "" then [NewMailItem] else ParsedItems(ParseQuery(Lower(q0)), emailToName, nameToEmail, groups)
  }

  /** The items for a query split on its commas: errors first, then the hits or what to do without one. */
  function ParsedItems(p: Parsed, emailToName: seq<(string, string)>,
                       nameToEmail: seq<(string, seq<string>)>, groups: seq<Hit>): seq<Item> {
    ItemsWithHits(p, if p.q != "" then Hits(p.q, groups, nameToEmail, emailToName) else [])
  }

  /** The items once the hits for the query are known. */
  function ItemsWithHits(p: Parsed, hits: seq<Hit>): seq<Item> {
    if hits == [] then ErrorItems(p.invalid) + NoHitItems(p.q, p.existing) else SomeHitItems(p, hits)
  }

  /** The errors, then an item per hit not typed yet, or the all-typed item when there is nothing else to
   *  show. */
  function SomeHitItems(p: Parsed, hits: seq<Hit>): seq<Item>
    requires hits != []
  {
    var items := ErrorItems(p.invalid) + HitItems(hits, p.addresses, p.existing);
    if |items| == 0 then [AllTypedItem(p.existing + hits[|hits| - 1].1 + ", ")] else items
  }

  // ---------------------------------------------------------------------------
  // The script

  /** The loop sorting the typed recipients before the last comma. */
  method ClassifyTyped(addresses: seq<string>) returns (existing: seq<string>, invalidAddresses: seq<string>)
    ensures (existing, invalidAddresses) == Classify(addresses)
  {
    existing, invalidAddresses := [], [];
    var i := 0;
    while i < |addresses|
      invariant 0 <= i <= |addresses|
      invariant (existing, invalidAddresses) == Classify(addresses[..i])
    {
      assert addresses[..i + 1][..i] == addresses[..i];
      var email := addresses[i];
      if !ValidEmail(email) {
        invalidAddresses := invalidAddresses + [email];
      } else {
        existing := existing + [email];
      }
      i := i + 1;
    }
    assert addresses[..|addresses|] == addresses;
  }

  /** The six loops collecting the hits for `q`. */
  method CollectHits(q: string, groups: seq<Hit>, nameToEmail: seq<(string, seq<string>)>,
                     emailToName: seq<(string, string)>) returns (hits: seq<Hit>)
    ensures hits == Hits(q, groups, nameToEmail, emailToName)
  {
    hits := [];
    var pass := 0;
    while pass < 2
      invariant 0 <= pass <= 2
      invariant pass == 1 ==> hits == PrefixHits(q, groups, nameToEmail, emailToName)
      invariant pass == 2 ==> hits == Hits(q, groups, nameToEmail, emailToName)
      invariant pass == 0 ==> hits == []
    {
      var prefix := pass == 0;
      var start := hits;
      var i := 0;
      while i < |groups|
        invariant 0 <= i <= |groups|
        invariant hits == GroupHits(start, groups[..i], q, prefix)
      {
        assert groups[..i + 1][..i] == groups[..i];
        var (name, email) := groups[i];
        if Matches(name, q, prefix) && (name, email) !in hits {
          hits := hits + [(name, email)];
        }
        i := i + 1;
      }
      assert groups[..|groups|] == groups;
      var afterGroups := hits;
      i := 0;
      while i < |nameToEmail|
        invariant 0 <= i <= |nameToEmail|
        invariant hits == NameHits(afterGroups, nameToEmail[..i], q, prefix)
      {
        assert nameToEmail[..i + 1][..i] == nameToEmail[..i];
        var (name, emails) := nameToEmail[i];
        if Matches(name, q, prefix) {
          var before := hits;
          var j := 0;
          while j < |emails|
            invariant 0 <= j <= |emails|
            invariant hits == AddEmails(before, name, emails[..j])
          {
            assert emails[..j + 1][..j] == emails[..j];
            if (name, emails[j]) !in hits {
              hits := hits + [(name, emails[j])];
            }
            j := j + 1;
          }
          assert emails[..|emails|] == emails;
        }
        i := i + 1;
      }
      assert nameToEmail[..|nameToEmail|] == nameToEmail;
      var afterNames := hits;
      i := 0;
      while i < |emailToName|
        invariant 0 <= i <= |emailToName|
        invariant hits == EmailHits(afterNames, emailToName[..i], q, prefix)
      {
        assert emailToName[..i + 1][..i] == emailToName[..i];
        var (email, name) := emailToName[i];
        if Matches(email, q, prefix) && (name, email) !in hits {
          hits := hits + [(name, email)];
        }
        i := i + 1;
      }
      assert emailToName[..|emailToName|] == emailToName;
      pass := pass + 1;
    }
  }

  /** The split of a lower-cased query on its commas, as `main` does it. */
  method SplitTyped(query: string) returns (q: string, existing: string, addresses: seq<string>, invalidAddresses: seq<string>)
    ensures Parsed(q, existing, addresses, invalidAddresses) == ParseQuery(query)
  {
    q := query;
    existing := "";
    addresses := [];
    invalidAddresses := [];
    if ',' in q {
      addresses := Common.MapStrip(Split(q, ','));
      if |addresses| > 0 {
        var valid;
        valid, invalidAddresses := ClassifyTyped(addresses[..|addresses| - 1]);
        if |valid| > 0 {
          existing := Join(valid, ", ") + ", ";
        } else {
          existing := "";
        }
        q := addresses[|addresses| - 1];
      }
    }
  }

  /** The loop adding an error item per invalid typed piece. */
  method AddErrorItems(invalidAddresses: seq<string>) returns (items: seq<Item>)
    ensures items == ErrorItems(invalidAddresses)
  {
    items := [];
    var i := 0;
    while i < |invalidAddresses|
      invariant 0 <= i <= |invalidAddresses|
      invariant items == ErrorItems(invalidAddresses[..i])
    {
      assert invalidAddresses[..i + 1][..i] == invalidAddresses[..i];
      items := items + [ErrorItem(invalidAddresses[i])];
      i := i + 1;
    }
    assert invalidAddresses[..|invalidAddresses|] == invalidAddresses;
  }

  /** The loop adding an item per hit not typed already; `email` is left holding the last hit's address. */
  method AddHitItems(items0: seq<Item>, hits: seq<Hit>, addresses: seq<string>, existing: string)
    returns (items: seq<Item>, email: string)
    ensures items == items0 + HitItems(hits, addresses, existing)
    ensures hits != [] ==> email == hits[|hits| - 1].1
  {
    items := items0;
    email := "";
    var i := 0;
    while i < |hits|
      invariant 0 <= i <= |hits|
      invariant items == items0 + HitItems(hits[..i], addresses, existing)
      invariant i > 0 ==> email == hits[i - 1].1
    {
      assert hits[..i + 1][..i] == hits[..i];
      var name;
      name, email := hits[i].0, hits[i].1;
      i := i + 1;
      if email in addresses {
        continue;
      }
      items := items + [HitItem((name, email), existing)];
    }
    assert hits[..|hits|] == hits;
  }

  /** The branches taken when nothing matched: compose to what was typed, or report the unmatched text. */
  method AddNoHitItems(items0: seq<Item>, q: string, existing: string) returns (items: seq<Item>)
    ensures items == items0 + NoHitItems(q, existing)
  {
    items := items0;
    if ValidEmail(q) || (q == "" && existing != "") {
      var recipients := TrimRecipients(existing + q);
      items := items + [ComposeItem(recipients)];
    } else if q != "" && q !in Keywords {
      items := items + [ErrorItem(q)];
      if existing != "" {
        var recipients := TrimRecipients(existing);
        items := items + [ComposeItem(recipients)];
      }
    }
  }

  /** `main` for a non-empty normalised query. */
  method ItemsForQuery(q0: string, emailToName: seq<(string, string)>,
                       nameToEmail: seq<(string, seq<string>)>, groups: seq<Hit>) returns (items: seq<Item>)
    requires q0 != ""
    ensures items == ItemsFor(q0, emailToName, nameToEmail, groups)
  {
    var q, existing, addresses, invalidAddresses := SplitTyped(Lower(q0));
    items := ItemsForParsed(q, existing, addresses, invalidAddresses, emailToName, nameToEmail, groups);
  }

  /** The rest of `main`, once the query is split on its commas. */
  method ItemsForParsed(q: string, existing: string, addresses: seq<string>, invalidAddresses: seq<string>,
                        emailToName: seq<(string, string)>, nameToEmail: seq<(string, seq<string>)>,
                        groups: seq<Hit>) returns (items: seq<Item>)
    ensures items == ParsedItems(Parsed(q, existing, addresses, invalidAddresses), emailToName, nameToEmail, groups)
  {
    var hits: seq<Hit> := [];
    if q != "" {
      hits := CollectHits(q, groups, nameToEmail, emailToName);
    }
    items := ItemsForHits(q, existing, addresses, invalidAddresses, hits);
  }

  /** The item-building part of `main`, once the hits are collected. */
  method ItemsForHits(q: string, existing: string, addresses: seq<string>, invalidAddresses: seq<string>,
                      hits: seq<Hit>) returns (items: seq<Item>)
    ensures items == ItemsWithHits(Parsed(q, existing, addresses, invalidAddresses), hits)
  {
    if |hits| == 0 {
      items := AddErrorItems(invalidAddresses);
      items := AddNoHitItems(items, q, existing);
    } else {
      items := ItemsForSomeHits(q, existing, addresses, invalidAddresses, hits);
    }
  }

  /** The items when some contact matched. */
  method ItemsForSomeHits(q: string, existing: string, addresses: seq<string>, invalidAddresses: seq<string>,
                          hits: seq<Hit>) returns (items: seq<Item>)
    requires hits != []
    ensures items == SomeHitItems(Parsed(q, existing, addresses, invalidAddresses), hits)
  {
    var shown := AddErrorItems(invalidAddresses);
    var email;
    shown, email := AddHitItems(shown, hits, addresses, existing);
    if |shown| == 0 {
      var recipients := existing + email + ", ";
      items := [AllTypedItem(recipients)];
    } else {
      items := shown;
    }
  }

  /** `main` over the arguments and the contacts (`email_to_name`, `name_to_email`, `groups`): the items passed to
   *  `alfred.xml`, which shows at most the first 50. */
  method ScriptFilter(args: seq<string>, emailToName: seq<(string, string)>,
                      nameToEmail: seq<(string, seq<string>)>, groups: seq<Hit>) returns (items: seq<Item>)
    ensures items == SearchItems(args, emailToName, nameToEmail, groups)
  {
    var q := if |args| > 0 then Strip(LStrip(args[0], CommaSpace)) else "";
    if q == "" {
      return [NewMailItem];
    }
    items := ItemsForQuery(q, emailToName, nameToEmail, groups);
  }

  // ---------------------------------------------------------------------------
  // Properties of the items

  /** An empty query offers exactly one item: a new, empty message. */
  lemma EmptyQuery(args: seq<string>, emailToName: seq<(string, string)>,
                   nameToEmail: seq<(string, seq<string>)>, groups: seq<Hit>)
    requires NormalizeQuery(args) == ""
    ensures SearchItems(args, emailToName, nameToEmail, groups) == [NewMailItem]
    ensures NewMailItem.valid && NewMailItem.arg == Some("")
  {
  }

  /** The typed pieces before the last one are split into the valid and the invalid ones: each piece goes to
   *  exactly one side, and both sides keep the typing order. */
  lemma ClassifyPartition(addresses: seq<string>)
    ensures IsSubsequence(Classify(addresses).0, addresses) && IsSubsequence(Classify(addresses).1, addresses)
    ensures forall a :: a in addresses && ValidEmail(a) ==> a in Classify(addresses).0
    ensures forall a :: a in addresses && !ValidEmail(a) ==> a in Classify(addresses).1
    ensures |Classify(addresses).0| + |Classify(addresses).1| == |addresses|
  {
    PartitionBySpec(addresses, ValidEmail);
  }

  lemma PartitionBySpec(addresses: seq<string>, valid: string -> bool)
    ensures IsSubsequence(PartitionBy(addresses, valid).0, addresses)
    ensures IsSubsequence(PartitionBy(addresses, valid).1, addresses)
    ensures forall a :: a in addresses && valid(a) ==> a in PartitionBy(addresses, valid).0
    ensures forall a :: a in addresses && !valid(a) ==> a in PartitionBy(addresses, valid).1
    ensures |PartitionBy(addresses, valid).0| + |PartitionBy(addresses, valid).1| == |addresses|
  {
    PartitionSubsequence(addresses, valid);
    PartitionMembers(addresses, valid);
  }

  lemma {:induction false} PartitionSubsequence(addresses: seq<string>, valid: string -> bool)
    ensures IsSubsequence(PartitionBy(addresses, valid).0, addresses)
    ensures IsSubsequence(PartitionBy(addresses, valid).1, addresses)
  {
    if addresses != [] {
      var init, a := addresses[..|addresses| - 1], addresses[|addresses| - 1];
      PartitionSubsequence(init, valid);
      var r := PartitionBy(init, valid);
      assert addresses == init + [a];
      if valid(a) {
        SubsequenceSnoc(r.0, init, a, true);
        SubsequenceSnoc(r.1, init, a, false);
        assert r.1 + [] == r.1;
      } else {
        SubsequenceSnoc(r.0, init, a, false);
        SubsequenceSnoc(r.1, init, a, true);
        assert r.0 + [] == r.0;
      }
    }
  }

  lemma {:induction false} PartitionMembers(addresses: seq<string>, valid: string -> bool)
    ensures forall a :: a in addresses && valid(a) ==> a in PartitionBy(addresses, valid).0
    ensures forall a :: a in addresses && !valid(a) ==> a in PartitionBy(addresses, valid).1
    ensures |PartitionBy(addresses, valid).0| + |PartitionBy(addresses, valid).1| == |addresses|
  {
    if addresses != [] {
      var init, a := addresses[..|addresses| - 1], addresses[|addresses| - 1];
      PartitionMembers(init, valid);
      assert addresses == init + [a];
      assert forall x :: x in addresses ==> x in init || x == a;
    }
  }

  /** With a comma, the query is split into stripped pieces; the last is still being typed, the earlier valid
   *  ones form `existing`, joined by `, ` and ending in `, `, and the invalid ones are reported. */
  lemma ParseQuerySpec(q: string)
    requires ',' in q
    ensures var p := ParseQuery(q); var n := |p.addresses| - 1;
      && p.addresses == Common.MapStrip(Split(q, ','))
      && p.existing == ExistingOf(Classify(p.addresses[..n]).0)
      && p.invalid == Classify(p.addresses[..n]).1
      && (p.existing == "" || (|p.existing| >= 2 && p.existing[|p.existing| - 2..] == ", "))
  {
    var p := ParseQuery(q);
    if p.existing != "" {
      var j := Join(Classify(p.addresses[..|p.addresses| - 1]).0, ", ");
      assert p.existing == j + ", ";
      assert (j + ", ")[|j|..] == ", ";
    }
  }

  /** Error items for the invalid typed pieces come before every other item. */
  lemma ErrorsFirst(q0: string, emailToName: seq<(string, string)>,
                    nameToEmail: seq<(string, seq<string>)>, groups: seq<Hit>)
    requires q0 != ""
    ensures var items, invalid := ItemsFor(q0, emailToName, nameToEmail, groups), ParseQuery(Lower(q0)).invalid;
      |invalid| <= |items| && items[..|invalid|] == ErrorItems(invalid)
  {
    var p := ParseQuery(Lower(q0));
    var errors := ErrorItems(p.invalid);
    var hits := if p.q != "" then Hits(p.q, groups, nameToEmail, emailToName) else [];
    var items := ItemsFor(q0, emailToName, nameToEmail, groups);
    if hits == [] {
      assert items == errors + NoHitItems(p.q, p.existing);
      assert items[..|errors|] == errors;
    } else if errors != [] {
      assert items == errors + HitItems(hits, p.addresses, p.existing);
      assert items[..|errors|] == errors;
    }
  }

  /** When nothing matches, a message to the typed recipients is offered exactly when the last piece is a
   *  valid address, or is empty after valid recipients; a non-empty, non-command last piece is reported. */
  lemma NoHitsCompose(q: string, existing: string)
    ensures (exists k :: 0 <= k < |NoHitItems(q, existing)| && NoHitItems(q, existing)[k].valid) <==>
      ValidEmail(q) || (q == "" && existing != "") || (q != "" && q !in Keywords && existing != "")
    ensures !ValidEmail(q) && q != "" && q !in Keywords ==> NoHitItems(q, existing)[0] == ErrorItem(q)
    ensures ValidEmail(q) || (q == "" && existing != "") ==>
      NoHitItems(q, existing) == [ComposeItem(TrimRecipients(existing + q))]
  {
    var items := NoHitItems(q, existing);
    if ValidEmail(q) || (q == "" && existing != "") {
      assert items[0].valid;
    } else if q != "" && q !in Keywords {
      if existing != "" {
        assert items[1].valid;
      } else {
        assert items == [ErrorItem(q)];
      }
    } else {
      assert items == [];
    }
  }

  /** Each shown hit is a hit whose address was not typed; its argument appends that address and `, ` to the
   *  typed recipients, and a group (an address holding `, `) gets the group icon. */
  lemma {:induction false} HitItemsSpec(hits: seq<Hit>, addresses: seq<string>, existing: string)
    ensures |HitItems(hits, addresses, existing)| <= |hits|
    ensures forall it :: it in HitItems(hits, addresses, existing) <==>
      exists h :: h in hits && h.1 !in addresses && it == HitItem(h, existing)
    ensures forall h :: h in hits ==>
      (HitItem(h, existing).arg == Some(existing + h.1 + ", ") &&
       (HitItem(h, existing).icon == "group.png" <==> Contains(h.1, ", ")))
  {
    if hits != [] {
      var init := hits[..|hits| - 1];
      HitItemsSpec(init, addresses, existing);
      assert hits == init + [hits[|hits| - 1]];
    }
  }

  /** Hits whose addresses were all typed already show nothing. */
  lemma {:induction false} HitItemsAllTyped(hits: seq<Hit>, addresses: seq<string>, existing: string)
    requires forall h :: h in hits ==> h.1 in addresses
    ensures HitItems(hits, addresses, existing) == []
  {
    if hits != [] {
      HitItemsAllTyped(hits[..|hits| - 1], addresses, existing);
    }
  }

  /** When hits exist but every one was typed already and no piece was invalid, the single item offered is
   *  built from the address of the last hit. */
  lemma AllTypedUsesLastHit(q0: string, emailToName: seq<(string, string)>,
                            nameToEmail: seq<(string, seq<string>)>, groups: seq<Hit>)
    requires q0 != ""
    requires var p := ParseQuery(Lower(q0));
      && p.q != "" && p.invalid == []
      && Hits(p.q, groups, nameToEmail, emailToName) != []
      && forall h :: h in Hits(p.q, groups, nameToEmail, emailToName) ==> h.1 in p.addresses
    ensures var p := ParseQuery(Lower(q0)); var hits := Hits(p.q, groups, nameToEmail, emailToName);
      ItemsFor(q0, emailToName, nameToEmail, groups) == [AllTypedItem(p.existing + hits[|hits| - 1].1 + ", ")]
  {
    var p := ParseQuery(Lower(q0));
    var hits := Hits(p.q, groups, nameToEmail, emailToName);
    HitItemsAllTyped(hits, p.addresses, p.existing);
    assert ErrorItems(p.invalid) == [];
  }
}
