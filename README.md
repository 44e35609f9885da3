# alfred-mailto, modelled in Dafny

A model of the logic of alfred-mailto, an Alfred workflow that composes email from the contacts of the
macOS Address Book. The model covers the workflow's own logic:

- building the `mailto:` URL for the chosen email client (`src/client.py`): rule selection, name rendering,
  MIME encoded-words, percent-encoding;
- parsing the recipient query and ranking contact hits (`src/search.py`);
- the comment-stripping line filter that reads the client rules file (`src/verbose_json.py`);
- reading Address Book rows into contact and group tables, merging databases and sorting
  (`src/contacts.py`);
- flattening Address Book records into the two contact caches (`src/update_contacts.py`,
  `src/update_caches.py`);
- choosing and remembering the default mail app (`src/mailto.py`);
- the AppleScript quoting, app-name and output-line helpers (`src/common.py`);
- the compose command (`src/compose.py`);
- the Roundcube URL rewrite (`extra/roundcube.js`).

Everything the workflow reads from outside is passed in as a value:

- database rows and Address Book records are sequences of datatypes;
- rule files, caches and settings are `Option` values (`None` when absent);
- the cache-age checks are booleans;
- `fnmatch` and `email.header.Header` are function parameters.

Modules follow the source files: `Clients`, `Search`, `VerboseJson`, `Contacts`, `UpdateContacts`,
`UpdateCaches`, `MailTo`, `Common`, `Compose` and `Roundcube`. Shared definitions live in `AddressBook`
(the record types both cache scripts read) and `UrlQuote` (UTF-8 and the percent-encoding of `urllib.quote`,
with its inverse). `Text`, `Sorting` and `Wrappers` hold string, ordering and option helpers.

Where the source fills a list, a dict or a set in a loop, the model has a method with that loop. The method
is proved equal to a specification function, and the properties are proved as lemmas about that function.
Where the source updates an object's fields, the model has a class: `Clients.Formatter`, `Clients.Client`
and `MailTo.MailApps`.

Python's `dict` and `set` are modelled as follows:

- A dict whose iteration order matters is an association list in insertion order: the merged rule table
  and the group member lists.
- The other dicts are `map`s.
- Sets are `set`s.
- Sorting is one insertion sort over a strict total order. A lemma shows that two sorted permutations of
  a sequence are equal, so the sort agrees with Python's `sorted` on the same order.

## Model

| member | source | states |
|---|---|---|
| Clients.Put | src/client.py:89-97 | Putting a key keeps the existing keys in place, appends a new key at the end, and keeps keys unique |
| Clients.Update | src/client.py:89-97 | `dict.update` keeps every key of the table in place and keeps keys unique |
| Clients.PutLookup | src/client.py:89-97 | After a put, looking up that key gives the new value, and every other key gives its old value |
| Clients.UpdateLookup | src/client.py:89-97 | After `update`, a key of the other table gives the other table's rules, and every other key gives its old rules |
| Clients.LoadRulesOverride | src/client.py:89-97 | The data-directory file overrides the workflow file key by key; a key found in only one file keeps that file's rules |
| Clients.MergeRuleFiles | src/client.py:89-97 | The loop over the existing rule files gives the merged table `LoadRules` |
| Clients.SelectRulesSpec | src/client.py:98-103 | No matching key gives `DEFAULT_RULES`; otherwise the rules of the first matching key in iteration order win |
| Clients.ChooseRules | src/client.py:98-103 | The selection loop with `break` gives `SelectRules` |
| Clients.Formatter.constructor | src/client.py:83-110 | The formatter's rules and switches are the first matching rules of the merged files, or the defaults |
| Clients.Parts | src/client.py:116-159 | Exactly one part per contact, in input order; each part is that contact's rendering |
| Clients.RenderSnoc | src/client.py:119-159 | One more contact appends its part, and sets the encoded flag exactly when its name was encoded |
| Clients.RenderBare | src/client.py:123-133 | With `names` off, `use_names` false or no name, the part is the bare email and nothing is encoded |
| Clients.RenderMime | src/client.py:135-140 | With `mime` on, a name is encoded and flags the URL exactly when it is non-ASCII; an ASCII name passes through unchanged |
| Clients.RenderComma | src/client.py:137-150 | A name that holds a comma after the `mime` step (the name itself, ASCII or not, or its encoded word) gives the bare email under `no_commas`; otherwise it gives `"name" <email>` with that name |
| Clients.RenderPlain | src/client.py:152-154 | An ASCII name without a comma gives `name <email>` and no encoding |
| Clients.NamesOffBare | src/client.py:123-133 | With names off, no name is encoded and the parts are exactly the emails, in order |
| Clients.UrlShape | src/client.py:165-167 | The URL starts with `mailto:` (inline) or `mailto:?to=`; an empty contact list gives exactly that prefix |
| Clients.UrlQuoting | src/client.py:156-167 | The recipients after the prefix are the parts joined by the separator; when some name was encoded they are instead `quote` of the joined parts with `@` safe, which decodes back to the joined parts |
| Clients.Formatter.GetUrl | src/client.py:112-167 | The imperative `get_url` (parts loop, `encoded` flag) returns `Url` of the formatter's switches |
| Clients.BuildRecipients | src/client.py:216-227 | A missing or empty contacts cache is the error `No contacts available`; otherwise there is one recipient per email, in order, carrying that email |
| Clients.BuildRecipientsNames | src/client.py:223-227 | Each email is paired with its name from `email_name_map`, or with `None` |
| Clients.Client.constructor | src/client.py:185-191 | A new client runs an unforced `update()`: it holds the cached apps and the cached default, each empty when its cache is missing, and a missing cache leaves it `empty` |
| Clients.Client.Update | src/client.py:241-271 | Missing caches read as empty; a refresh is started exactly when forced or when either cache is stale; a missing cache leaves the client `empty` |
| Search.ValidEmailSpec | src/search.py:39 | `valid_email` holds exactly when the string starts with a match of `[^@]+@[^@]+\.[^@]+` (trailing text allowed) |
| Search.ValidEmailMatches | src/search.py:39 | A valid email has a non-empty local part, then `@`, then a `.` strictly inside the following run without `@` |
| Search.MatchValid | src/search.py:39 | Any string with such a prefix is accepted |
| Search.NormalizeQuery | src/search.py:43-47 | No arguments give the empty query |
| Search.EmptyQuery | src/search.py:44-63 | An empty normalised query gives exactly one valid compose item, with arg `''` |
| Search.Classify | src/search.py:75-79 | Every address in the first list is valid, and every address in the second is invalid |
| Search.ClassifyPartition | src/search.py:75-79 | Valid and invalid addresses are two subsequences of the pieces; together they hold every piece, and their lengths sum to the number of pieces |
| Search.PartitionSubsequence | src/search.py:75-79 | Both lists keep the input order |
| Search.PartitionMembers | src/search.py:75-79 | Every piece lands in the list its validity names, and no piece is lost |
| Search.ClassifyTyped | src/search.py:74-79 | The loop over all pieces but the last gives `Classify` |
| Search.ExistingOf | src/search.py:80-83 | `existing` is empty exactly when no typed piece is valid |
| Search.ExistingSnoc | src/search.py:80-83 | Each further valid recipient is added to `existing` followed by its own `, ` separator, so `existing` lists the valid pieces in typed order |
| Search.ParseQuery | src/search.py:67-84 | Without a comma the query is kept whole; with one, the last trimmed piece becomes `q` |
| Search.ParseQuerySpec | src/search.py:67-84 | The pieces are the comma-split query, each trimmed. `existing` joins the valid pieces before the last, and ends in `, ` when non-empty. `invalid` is the invalid pieces |
| Search.SplitTyped | src/search.py:66-84 | The splitting loop gives `ParseQuery` |
| Search.GroupHitsSpec | src/search.py:99-101 | The group pass extends the hits without duplicates and adds exactly the matching groups |
| Search.AddEmailsSpec | src/search.py:105-107 | A person's emails are added without duplicates, each paired with the name |
| Search.NameHitsSpec | src/search.py:103-107 | The names pass extends the hits and adds exactly the matching people's (name, email) pairs |
| Search.EmailHitsSpec | src/search.py:112-114 | The email pass extends the hits and adds exactly the entries whose email matches |
| Search.PassSpec | src/search.py:97-131 | One pass (groups, names, emails) extends the hits by exactly what matches in any of the three |
| Search.HitsSpec | src/search.py:93-131 | The hits are duplicate-free. All prefix matches come first, then the substring matches; each list holds exactly the pairs matching in groups, names or emails |
| Search.CollectHits | src/search.py:93-131 | The six collection loops give `Hits` |
| Search.ErrorItems | src/search.py:134-142 | One error item per invalid address, in order |
| Search.AddErrorItems | src/search.py:134-142 | The error loop gives `ErrorItems` |
| Search.ErrorsFirst | src/search.py:134-196 | The error items for the invalid pieces come before every other item |
| Search.NoHitsCompose | src/search.py:145-173 | With no hits, a valid item is offered exactly when `q` is valid, or `q` is empty after valid recipients, or a non-keyword `q` follows existing recipients. A non-empty, non-keyword invalid `q` gives its error item first. A valid `q` gives the compose item for `(existing + q).rstrip(', ')` |
| Search.AddNoHitItems | src/search.py:145-173 | The no-hit branch appends `NoHitItems` |
| Search.HitItemsSpec | src/search.py:179-196 | Shown hits are exactly the hits whose email was not typed. A hit's arg is `existing + email + ', '`, and its icon is the group icon exactly when the email contains `, ` |
| Search.HitItemsAllTyped | src/search.py:179-181 | When every hit's email was typed, no hit item is shown |
| Search.AddHitItems | src/search.py:179-196 | The hit loop appends `HitItems` and leaves `email` at the last hit's email |
| Search.AllTypedUsesLastHit | src/search.py:198-208 | When every hit was typed and no piece was invalid, the single item is built from the last hit's email, as the loop variable leaves it |
| Search.ItemsForQuery | src/search.py:66-208 | Parsing, hit collection and item building together give `ItemsFor` |
| Search.ItemsForParsed | src/search.py:89-208 | Hit collection and item building give `ParsedItems` |
| Search.ItemsForHits | src/search.py:134-208 | With no hits: errors, then the no-hit items; otherwise `SomeHitItems` |
| Search.ItemsForSomeHits | src/search.py:134-208 | With hits: errors, then the hit items, or the all-typed item when nothing was shown |
| Search.ScriptFilter | src/search.py:42-211 | `main` returns `SearchItems` of its arguments and contacts |
| VerboseJson.Load | src/verbose_json.py:21-38 | The loop toggling `in_multiline_comment` returns the kept lines of `Run` joined by `\n` |
| VerboseJson.PlainStartIsText | src/verbose_json.py:25-31 | A line is classified after stripping only ASCII whitespace, as `str.strip()` does on the byte lines of `open(path)`: a line starting with any other character than `/` or `*` is text |
| VerboseJson.NoBreakSpaceIndentKept | src/verbose_json.py:25-36 | A line indented with a no-break space before an opening marker is kept and opens no comment |
| VerboseJson.KeptSubsequence | src/verbose_json.py:25-36 | The kept lines are a subsequence of the input, unmodified, and none is a comment or marker line |
| VerboseJson.KeptSubsequenceBy | src/verbose_json.py:25-36 | The same, for any line classification |
| VerboseJson.ModeSpec | src/verbose_json.py:28-35 | Comment mode is on exactly when some `/*` line is followed by no `*/` line |
| VerboseJson.ModeSpecBy | src/verbose_json.py:28-35 | The same, for any line classification |
| VerboseJson.KeptIff | src/verbose_json.py:25-36 | A line is kept exactly when it is not a `//`, `/*` or `*/` line and comment mode is off; otherwise it is dropped |
| VerboseJson.CommentKeepsDropping | src/verbose_json.py:28-35 | After a `/*` line, even a one-line `/* ... */`, every line is dropped until a line starts with `*/` |
| VerboseJson.CommentKeepsDroppingBy | src/verbose_json.py:28-35 | The same, for any line classification |
| VerboseJson.NoCommentsKeepsAll | src/verbose_json.py:36 | Input without comment lines is kept whole |
| VerboseJson.NoCommentsKeepsAllBy | src/verbose_json.py:36 | The same, for any line classification |
| Contacts.NewerFirstOrder | src/contacts.py:44 | Reverse `(mtime, path)` order is a strict total order |
| Contacts.NewestFirst | src/contacts.py:44 | `paths.sort(reverse=True)` is a newest-first permutation of the paths |
| Contacts.IterAddressbooks | src/contacts.py:30-48 | The generator's loop with `break` yields `Addressbooks` |
| Contacts.AddressbooksSpec | src/contacts.py:35-48 | The local DB comes first. At most `limit - 1` other DBs follow, or all of them when `limit` is out of range. Each is a found path |
| Contacts.ChosenNewest | src/contacts.py:44-48 | No path left out is newer than a chosen one |
| Contacts.PersonName | src/contacts.py:115-122 | A non-empty trimmed `first last` (missing parts as `''`) is the name; when it is empty, the email is the name |
| Contacts.AddressKeyOf | src/contacts.py:110-114 | The primary flag is inverted, so that a primary address sorts first |
| Contacts.PersonAddressesSpec | src/contacts.py:107-114 | Each person's address list holds their rows' keys, in row order |
| Contacts.PeopleContactsKeys | src/contacts.py:107-122 | The contacts dict has exactly the emails of the rows |
| Contacts.PeopleContactsLast | src/contacts.py:122 | An email's name comes from its last row |
| Contacts.PeopleNamesNonEmpty | src/contacts.py:115-122 | With non-empty emails, no contact's name is empty |
| Contacts.LoadPeople | src/contacts.py:105-122 | The people loop fills the three dicts as `PeopleOf` says |
| Contacts.LoadConfig | src/contacts.py:129-132 | The configuration loop gives `ConfigOf` |
| Contacts.ConfigLast | src/contacts.py:129-132 | A (group, person) pair maps to its last row's email id |
| Contacts.AddressOrder | src/contacts.py:146 | Order on `(primary, order, email)` tuples is a strict total order |
| Contacts.MinAddress | src/contacts.py:146-148 | `sorted(...)[0]` is a key of the list, and no key of the list is below it |
| Contacts.KeysOfPersonSpec | src/contacts.py:110-114 | A person's keys are exactly those of their rows, each with flag 0 or 1 |
| Contacts.MemberPrimary | src/contacts.py:142-148 | Without a configured email id (pair absent, id NULL or 0), a person with a primary address contributes one of their primary addresses |
| Contacts.MemberEmailSpec | src/contacts.py:142-148 | Over the people rows: a configured id gives the address of the last row with that id, or the `KeyError` when no row has it. Without one, the least `(primary, order, email)` key of the person's rows gives the address, or nothing when the person has no rows |
| Contacts.AddressIdsBy | src/contacts.py:107-109 | `email_id_address_map` has exactly the address ids of the rows |
| Contacts.AddressLastBy | src/contacts.py:107-109 | An address id maps to the address of the last row with that id |
| Contacts.AppendMember | src/contacts.py:144-148 | Appending keeps the group order. A new group id goes at the end with the one email. Afterwards the id has an entry |
| Contacts.AppendMemberSpec | src/contacts.py:144-148 | Appending adds the email to that group's list only |
| Contacts.GroupStepNames | src/contacts.py:137-141 | `card` rows are skipped, and the first name seen for a group id is kept |
| Contacts.GroupNames | src/contacts.py:134-148 | A group has a name exactly when some non-`card` row names it; the name is the first such row's; every member list's group has a name |
| Contacts.GroupMembers | src/contacts.py:134-148 | A group's member emails are its rows' chosen emails, in row order |
| Contacts.GroupsErrSticky | src/contacts.py:144 | A missing email id (the source's `KeyError`) ends the whole load with that error |
| Contacts.LookupMember | src/contacts.py:142-148 | The lookup on the dicts the people loop built gives `MemberEmail`, whose meaning over the rows `Contacts.MemberEmailSpec` states |
| Contacts.LoadGroups | src/contacts.py:134-148 | The group loop gives `GroupsOf` |
| Contacts.GroupsByName | src/contacts.py:150-153 | The `groups2` loop gives `ByName` |
| Contacts.ByNameKeys | src/contacts.py:150-153 | `groups2` has exactly the names of the groups with members |
| Contacts.ByNameLast | src/contacts.py:150-153 | A name maps to its member emails joined by `, ` (the last group of that name wins) |
| Contacts.LoadFromDb | src/contacts.py:90-155 | `load_from_db` returns `LoadedDb` of the rows |
| Contacts.Merge | src/contacts.py:177-182 | The merged keys are those of both maps |
| Contacts.MergeInto | src/contacts.py:177-182 | The filling loop gives `Merge` |
| Contacts.MergeAllKeys | src/contacts.py:175-182 | The merged map has exactly the keys of any database |
| Contacts.MergeAllEmpty | src/contacts.py:175-182 | A key empty in every database stays empty |
| Contacts.MergeAllFirst | src/contacts.py:175-182 | The first database with a non-empty value for a key decides it |
| Contacts.SortedItems | src/contacts.py:183-184 | `sorted(d.items())` is strictly sorted and holds exactly the map's pairs |
| Contacts.SortedByKey | src/contacts.py:183-184 | The result is sorted by key |
| Contacts.GetContacts | src/contacts.py:173-184 | Contacts and groups are the first-non-empty merge of all databases, as sorted item lists |
| Contacts.RecordName | src/contacts.py:63-74 | A company's name is its organisation, and a company with a NULL or empty organisation gets no name; a person's name is `first last` trimmed; an empty name is not kept |
| Contacts.NameMapNonEmpty | src/contacts.py:63-74 | `id_name_map` holds no empty name |
| Contacts.LoadFromDbOld | src/contacts.py:51-88 | `load_from_db_old` as written returns `OldContacts` |
| Contacts.OldContactsLosesName | src/contacts.py:78-86 | A later row without a name overwrites an earlier name with `None` |
| Contacts.IntendedKeepsName | src/contacts.py:78-86 | In the corrected loop, an email of a named owner keeps a non-empty name |
| Contacts.LoadFromDbOldIntended | src/contacts.py:51-88 | The corrected loop gives `OldContactsIntended` |
| UpdateContacts.PersonToDict | src/update_contacts.py:95-122 | The dict keeps the person's emails, and `is_group` is false |
| UpdateContacts.PersonToDictSpec | src/update_contacts.py:99-120 | Missing properties are `''`. The name is `first last` trimmed, or the company when that is empty, exactly when `is_company`. An empty company is stored as "no company" |
| UpdateContacts.AddressEntry | src/update_contacts.py:206-214 | A record's key is `nickname name email`, and its `is_group` is false (the never-set `group` key) |
| UpdateContacts.AddressEntries | src/update_contacts.py:206-220 | One record per email, in order |
| UpdateContacts.PeopleEntries | src/update_contacts.py:195-221 | People produce only person records |
| UpdateContacts.WithNameSpec | src/update_contacts.py:201-204 | Each email of the person maps to the name; other entries are kept |
| UpdateContacts.PeopleStep | src/update_contacts.py:195-221 | A person without emails adds nothing; a named one with emails also names its emails |
| UpdateContacts.EmailNamesKeys | src/update_contacts.py:201-204 | `email_name_map` has exactly the emails of people with a name |
| UpdateContacts.EmailNamesLast | src/update_contacts.py:201-204 | An email's name is that of the last named person having it |
| UpdateContacts.PeopleEntriesFrom | src/update_contacts.py:206-220 | Every person record carries one of its person's emails and that person's name |
| UpdateContacts.GroupToDict | src/update_contacts.py:125-145 | A group is dropped exactly when it has no distribution email; otherwise it is the group dict of its emails |
| UpdateContacts.GroupEntries | src/update_contacts.py:224-237 | Group records are groups whose key is their name |
| UpdateContacts.GroupEntriesSpec | src/update_contacts.py:224-237 | Group records are exactly the non-empty groups, with `email` the emails joined by `, ` |
| UpdateContacts.AddNames | src/update_contacts.py:201-204 | The naming loop gives `WithName` |
| UpdateContacts.AddRecords | src/update_contacts.py:206-220 | The record loop appends `AddressEntries` |
| UpdateContacts.LoadGroup | src/update_contacts.py:125-145 | The member loop gives `GroupToDict` |
| UpdateContacts.LoadPeople | src/update_contacts.py:195-221 | The people loop gives `PeopleEntries` and `EmailNames` |
| UpdateContacts.LoadGroups | src/update_contacts.py:224-237 | The group loop appends `GroupEntries` |
| UpdateContacts.BuildCache | src/update_contacts.py:176-237 | `main` builds `CacheOf` the people and groups |
| UpdateContacts.PeopleBeforeGroups | src/update_contacts.py:195-237 | Every person record precedes every group record |
| AddressBook.DistributionEmails | src/update_contacts.py:131-140 | At most one email per member |
| AddressBook.DistributionEmailsSpec | src/update_caches.py:127-138 | The emails are exactly the selected addresses; the list is empty exactly when no member has an identifier |
| AddressBook.CollectEmails | src/update_caches.py:127-135 | The member loop gives `DistributionEmails` |
| UpdateCaches.PersonToDict | src/update_caches.py:98-118 | The dict keeps the person's emails |
| UpdateCaches.PersonToDictSpec | src/update_caches.py:103-116 | Missing properties are `''`; the name is `first last` trimmed, or the company when that is empty |
| UpdateCaches.NamedOrder | src/update_caches.py:211-212 | Python's order on `(name, emails)` tuples is a strict total order |
| UpdateCaches.Tagged | src/update_caches.py:193-195 | The pairs of each email with the name |
| UpdateCaches.SortedEmails | src/update_caches.py:208 | `tuple(sorted(emails))` is a sorted permutation |
| UpdateCaches.GroupEntry | src/update_caches.py:203-208 | A group is dropped exactly when it has no email; otherwise it is its name with its emails sorted |
| UpdateCaches.PeopleStep | src/update_caches.py:186-197 | A person without emails adds nothing. One with emails adds `(name, emails)`, and `(email, name)` pairs only when named |
| UpdateCaches.GroupsStep | src/update_caches.py:203-208 | A group adds its entry unless it is dropped |
| UpdateCaches.NamesOfSpec | src/update_caches.py:189-197 | `names` is exactly the `(name, emails)` of the people with emails |
| UpdateCaches.EmailsOfSpec | src/update_caches.py:189-195 | `emails` is exactly the `(email, name)` pairs of people with a non-empty name |
| UpdateCaches.GroupsOfSpec | src/update_caches.py:203-208 | `groups` is exactly the entries of the groups not dropped |
| UpdateCaches.GroupEntrySpec | src/update_caches.py:203-208 | Every group entry is a group's name with its non-empty email list, sorted |
| UpdateCaches.AddEmails | src/update_caches.py:192-195 | The loop adds `Tagged` to the set |
| UpdateCaches.LoadPeople | src/update_caches.py:186-199 | The people loop builds `NamesOf` and `EmailsOf` |
| UpdateCaches.LoadGroups | src/update_caches.py:203-208 | The group loop builds `GroupsOf` |
| UpdateCaches.BuildCaches | src/update_caches.py:175-212 | Each output list is strictly sorted (so duplicate-free) and holds exactly its set |
| UpdateCaches.CachesUnique | src/update_caches.py:211-212 | Two caches of the same records are equal: each sorted list is determined by its set |
| UpdateCaches.CachesOrderFree | src/update_caches.py:186-212 | The caches do not depend on the order in which the records were read: records with equal multisets give equal caches |
| UpdateCaches.NamesMove | src/update_caches.py:186-197 | A `names` entry stays one when the same people are read in another order |
| UpdateCaches.EmailsMove | src/update_caches.py:186-195 | An `emails` entry stays one when the same people are read in another order |
| UpdateCaches.GroupsMove | src/update_caches.py:203-208 | A `groups` entry stays one when the same groups are read in another order |
| MailTo.MailApps.constructor | src/mailto.py:83-85 | The loaded settings' default path is kept |
| MailTo.MailApps.DefaultApp | src/mailto.py:87-95 | `(None, None)` when no path is stored, else `(appname(path), path)` |
| MailTo.MailApps.SetDefaultApp | src/mailto.py:97-103 | The stored path becomes the argument; `None` clears it |
| MailTo.MailApps.ClearDefault | src/mailto.py:196-205 | After `clear_default` no default is stored, and `show_default` names `System Default` |
| MailTo.ShowDefaultTitle | src/mailto.py:208-220 | The title names `System Default` when no app is set, else the app |
| MailTo.PrefixHitsSpec | src/mailto.py:145-151 | Prefix hits keep apps order and are exactly the apps whose lower-cased name starts with the query |
| MailTo.AddSubstringHitsSpec | src/mailto.py:152-155 | The substring loop extends the hits, adds exactly the apps containing the query, and adds no duplicates |
| MailTo.SelectHitsOrder | src/mailto.py:143-157 | Prefix hits come first, then substring hits not already listed |
| MailTo.NewHitsFresh | src/mailto.py:152-155 | Apps added by the substring loop are not among the earlier hits |
| MailTo.SelectNothing | src/mailto.py:156-157 | Nothing is listed exactly when no app name contains the query |
| MailTo.SelectApp | src/mailto.py:143-171 | A missing query (`[<query>]` omitted, src/mailto.py:56 and 236-238) is the `AttributeError` of `query.lower()`; otherwise one item per hit, in hit order |
| Common.ApplescriptifyEach | src/common.py:38-40 | Every `"` becomes `" + quote + "`; every other character is kept, in order |
| Common.ApplescriptifyNoQuote | src/common.py:40 | Text without `"` is unchanged |
| Common.ApplescriptifyRoundTrip | src/common.py:38-40 | The escaping can be undone |
| Common.EscapeRoundTrip | src/common.py:38-40 | The character-wise escaping can be undone |
| Common.Basename | src/common.py:45 | The basename is the suffix of the path after its last `/`: it holds no `/`, and a `/` precedes it unless it is the whole path |
| Common.StripExtensionSpec | src/common.py:45 | `splitext` cuts exactly when some non-`.` character precedes a `.`, and then at the last `.`; otherwise the name is kept whole |
| Common.AppName | src/common.py:43-45 | The app name holds no `/` |
| Common.AppNameOfPath | src/common.py:43-45 | `dir/name.ext` gives `name` |
| Common.AppNameMail | src/common.py:43-45 | `/Applications/Mail.app` gives `Mail` |
| Common.NonBlankLines | src/common.py:81-84 | Every line is stripped and non-empty |
| Common.NonBlankLinesOrder | src/common.py:81-84 | The lines are the non-empty stripped lines, in original order |
| Common.CommandLines | src/common.py:81-84 | `command_lines` yields stripped, non-empty lines |
| Common.MapStrip | src/common.py:84 | One stripped line per line |
| Compose.Recipients | src/compose.py:26-30 | No arguments give `''` |
| Compose.RecipientsOfArgument | src/compose.py:26-30 | The first argument trimmed, with `, ` replaced by `,` |
| Compose.RecipientsOfList | src/compose.py:30 | Replacing `, ` by `,` in a `, `-joined list of comma-free addresses gives the `,`-joined list |
| Compose.ComposeUrl | src/compose.py:33 | The URL is `mailto:` followed by the recipients |
| Compose.Command | src/compose.py:36-40 | `['open', '-a', app, url]` with a default app, else `['open', url]`; the URL is always last |
| Roundcube.ComposeUrl | extra/roundcube.js:8-17 | The result starts with the compose prefix |
| Roundcube.Transform | extra/roundcube.js:3-19 | The result starts with the compose prefix |
| Roundcube.TransformNoQuery | extra/roundcube.js:12-15 | Without `?` the result is the prefix plus the whole unescaped string |
| Roundcube.TransformQuery | extra/roundcube.js:8-17 | The text before the first `?` follows the prefix. The text up to the second `?` is appended after `&` exactly when non-empty. The rest is dropped |
| Roundcube.ComposeQuery | extra/roundcube.js:8-17 | The same, for the already-unescaped string |
| Roundcube.UnescapedMailto | extra/roundcube.js:4-5 | Only the first `mailto:` is removed; text without `&` is otherwise unchanged |
| UrlQuote.EncodeCharSpec | src/client.py:164 | A character's UTF-8 bytes are a lead byte of the right length, continuation bytes, and its code point |
| UrlQuote.DecodeEncode | src/client.py:164 | UTF-8 decoding inverts encoding |
| UrlQuote.EncodeAscii | src/client.py:164 | ASCII text encodes byte for byte |
| UrlQuote.QuoteByte | src/client.py:164 | A safe byte is written as itself; any other as `%` and two hex digits |
| UrlQuote.UnquoteQuoteBytes | src/client.py:164 | Percent-decoding inverts percent-encoding |
| UrlQuote.QuoteRoundTrip | src/client.py:164 | `quote(s.encode('utf-8'), '@')` can be read back |
| UrlQuote.QuoteBytesAscii | src/client.py:164 | Quoted text is ASCII |
| UrlQuote.QuoteSafe | src/client.py:164 | Text of safe characters (letters, digits, `_.-@`) is unchanged |

## Left out

- Reading and writing the rule files, the settings and the caches is not modelled. `json.load` of the filtered text, `wf.cache_data`, `CACHEPATH` and the settings file are left out. Their contents are parameters (`None` when absent).
- The cache-age branch of `get_contacts` (src/contacts.py:169-172) is not modelled: the model always rebuilds from the databases.
- The SQL queries, the Address Book framework, LaunchServices and `mdfind` are not modelled. Rows and records are passed in as sequences. `MailApps.all_apps`, `iter_people`, `iter_groups` and src/update_apps.py are not part of this model.
- `fnmatch` and `email.header.Header` are function parameters (`matches`, `header`), because their behaviour comes from the Python library.
- Process launching is not modelled: `open -a`, `osascript`, `run_in_background`, `is_running`, and `Client().update()` at the end of src/update_caches.py. `Compose.Command` returns the argument list instead of running it.
- Alfred's XML rendering, `print`, the docopt dispatch of `mailto.main`, the help text, and logging and timing are left out. Items are datatypes holding their title, arg and validity.
- src/settings.py and src/test.py are not part of this model. They are persistence plumbing and its test.
- `Client.default_app` (src/client.py:193-214) is left out: it reads settings and calls `bundleid`, a LaunchServices lookup. `build_url` passes the resulting bundle id to `Formatter` as its `client` argument.
- `Clients.Formatter.GetUrl` returns the URL as characters; the source returns it as UTF-8 bytes (`result.encode('utf-8')`, src/client.py:161). Only the percent-encoded case works on the bytes, inside `UrlQuote.Quote`.
- Dict and set order: Python 2 dict and set iteration order is unspecified. Where order is visible (the merged rule table, the order of groups in `groups2`), the model uses insertion order.
- Clients.Formatter.constructor: the source reads each of the five switches from the chosen rules entry (src/client.py:105-107), so an entry in a user's rules file that lacks a key raises `KeyError`. The model's `Rules` datatype always holds all five switches, so this error path is not modelled.
- Clients.Client.constructor: the refresh decision of the `update()` call in `__init__` is not returned, because a constructor returns no value. `Clients.Client.Update` states that decision.
- Contacts.IterAddressbooks: the directory scan (`os.listdir`, `isdir`, `exists`, src/contacts.py:37-43) is not modelled. The `paths` parameter is its result. The float `st_mtime` is modelled as an `int`, so times less than a second apart cannot be told apart.
- `Clients.SelectRulesSpec`: "first matching key" is first in insertion order, which Python 2 does not promise.
- `strip()` on a unicode value removes the characters Python 2.7's `unicode.isspace()` accepts (its Unicode 5.2 whitespace, listed in `Text.Whitespace`). The rules file is opened in byte mode (src/client.py:96), so `VerboseJson` strips its lines with `Text.StripBytes`, which removes only the six ASCII whitespace characters. A non-ASCII character of such a line stands for its UTF-8 bytes.
- `lower()` maps ASCII letters only: the model has no Unicode case table.
- The MIME encoder's output is the uninterpreted `header(name)`. Contracts about encoded names hold for any encoder.
- The config key `u'{}-{}'.format(group_id, person_id)` is modelled as the pair `(group_id, person_id)`. The two agree, because the integer formatting is injective on pairs.
- A NULL group name is modelled as a string.
- The property-map loops of both `ab_person_to_dict` functions are modelled as expressions over the record's fields, because each iteration sets an independent key.
- `Search.NormalizeQuery`: the contract states only the no-argument case. The leading `, ` removal and trimming are its body (`lstrip(', ').strip()`), and `Search.EmptyQuery` states what follows from an empty result.
- The call at src/search.py:95 unpacks three values from `get_contacts()`, which returns two (src/contacts.py:187). The import at src/search.py:28 names `MailTo`, which src/mailto.py does not define. The search model takes the three contact lists as parameters instead.
- Contacts.LoadFromDbOld: `load_from_db_old` is not called by `get_contacts`; it is modelled because its defect is reported below.

## Findings

| source | as written | input that shows it | evidently intended | confidence | as-written member | corrected member |
|---|---|---|---|---|---|---|
| src/contacts.py:78-86 | For an email already seen, a later row whose owner has no name takes the `else` branch and stores `None`, overwriting an earlier name | address rows `[("a@b.c", owner 1), ("a@b.c", owner 2)]` with names `{1: "Ann"}` give `contacts["a@b.c"] == None` | An email with a named owner keeps a non-empty name; unnamed rows only fill missing emails with `''` | not executed | Contacts.OldContactsLosesName | Contacts.IntendedKeepsName |
