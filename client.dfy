/** Email clients and the `mailto:` URLs built for them (src/client.py). */
module Clients {
  import opened Wrappers
  import opened Text
  import UrlQuote

  /**
   * A client's formatting rules: delimit recipients with `, ` rather than `,`; send names; MIME-encode
   * non-ASCII names (the URL is then percent-encoded too); drop names holding a comma; put the recipients
   * right after `mailto:` rather than in a `to=` field.
   */
  datatype Rules = Rules(spaces: bool, names: bool, mime: bool, noCommas: bool, inlineTo: bool)

  /** `DEFAULT_RULES` */
  const DefaultRules := Rules(spaces := true, names := true, mime := true, noCommas := false, inlineTo := false)

  // ---------------------------------------------------------------------------
  // Rule tables: the JSON objects of the `client_rules.json` files, keyed by bundle-id pattern,
  // as lists of entries in the object's iteration order.

  type RuleTable = seq<(string, Rules)>

  predicate UniqueKeys(t: RuleTable) {
    forall i, j :: 0 <= i < j < |t| ==> t[i].0 != t[j].0
  }

  /** `t.get(key)` */
  function Lookup(t: RuleTable, key: string): (r: Option<Rules>)
    ensures r.Some? <==> exists i :: 0 <= i < |t| && t[i].0 == key
  {
    if t == [] then None
    else if t[0].0 == key then Some(t[0].1)
    else
      assert forall i :: 1 <= i < |t| ==> t[i] == t[1..][i - 1];
      Lookup(t[1..], key)
  }

  /** `t[key] = value`: an existing key keeps its place, a new one goes last. */
  function Put(t: RuleTable, key: string, value: Rules): (r: RuleTable)
    ensures |t| <= |r| <= |t| + 1
    ensures forall i :: 0 <= i < |t| ==> r[i].0 == t[i].0
    ensures |r| == |t| + 1 ==> r[|t|] == (key, value) && forall i :: 0 <= i < |t| ==> t[i].0 != key
    ensures UniqueKeys(t) ==> UniqueKeys(r)
  {
    if t == [] then [(key, value)]
    else if t[0].0 == key then [(key, value)] + t[1..]
    else [t[0]] + Put(t[1..], key, value)
  }

  /** `t.update(other)` */
  function Update(t: RuleTable, other: RuleTable): (r: RuleTable)
    ensures |t| <= |r| && forall i :: 0 <= i < |t| ==> r[i].0 == t[i].0
    ensures UniqueKeys(t) ==> UniqueKeys(r)
    decreases |other|
  {
    if other == [] then t else Update(Put(t, other[0].0, other[0].1), other[1..])
  }

  /** After `t[key] = value`, `key` maps to `value` and every other key to what it mapped to before. */
  lemma {:induction false} PutLookup(t: RuleTable, key: string, value: Rules, k: string)
    ensures Lookup(Put(t, key, value), k) == if k == key then Some(value) else Lookup(t, k)
  {
    if t != [] && t[0].0 != key {
      PutLookup(t[1..], key, value, k);
    }
  }

  /** `t.update(other)`: a key of `other` takes `other`'s value, any other key keeps its value. */
  lemma {:induction false} UpdateLookup(t: RuleTable, other: RuleTable, k: string)
    requires UniqueKeys(other)
    ensures Lookup(Update(t, other), k) == if Lookup(other, k).Some? then Lookup(other, k) else Lookup(t, k)
    decreases |other|
  {
    if other != [] {
      var (key, value) := other[0];
      PutLookup(t, key, value, k);
      assert UniqueKeys(other[1..]);
      UpdateLookup(Put(t, key, value), other[1..], k);
      if k == key {
        assert forall i :: 0 <= i < |other[1..]| ==> other[1..][i].0 != key;
      }
    }
  }

  /** The rule files read in turn, each updating what came before; a missing file (`None`) is skipped. */
  function LoadRules(files: seq<Option<RuleTable>>): RuleTable {
    if files == [] then []
    else
      var before := LoadRules(files[..|files| - 1]);
      match files[|files| - 1]
      case None => before
      case Some(t) => Update(before, t)
  }

  /** The data-directory file overrides the workflow's file key by key; keys of only one file keep its rules. */
  lemma LoadRulesOverride(workflowFile: RuleTable, dataFile: RuleTable, k: string)
    requires UniqueKeys(workflowFile) && UniqueKeys(dataFile)
    ensures Lookup(LoadRules([Some(workflowFile), Some(dataFile)]), k) ==
      if Lookup(dataFile, k).Some? then Lookup(dataFile, k) else Lookup(workflowFile, k)
  {
    var files := [Some(workflowFile), Some(dataFile)];
    assert files[..1] == [Some(workflowFile)];
    assert files[..1][..0] == [];
    assert LoadRules(files[..1]) == Update([], workflowFile);
    assert LoadRules(files) == Update(Update([], workflowFile), dataFile);
    UpdateLookup([], workflowFile, k);
    UpdateLookup(Update([], workflowFile), dataFile, k);
  }

  /** The rules for `client`: those of the first key, in iteration order, whose pattern matches it; else the defaults. */
  function SelectRules(t: RuleTable, client: Option<string>, matches: (Option<string>, string) -> bool): Rules {
    if t == [] then DefaultRules
    else if matches(client, t[0].0) then t[0].1
    else SelectRules(t[1..], client, matches)
  }

  /** `SelectRules` gives the defaults exactly when no key matches, and otherwise the first match's rules. */
  lemma {:induction false} SelectRulesSpec(t: RuleTable, client: Option<string>,
                                           matches: (Option<string>, string) -> bool, i: int)
    requires 0 <= i <= |t|
    requires forall j :: 0 <= j < i ==> !matches(client, t[j].0)
    ensures i == |t| ==> SelectRules(t, client, matches) == DefaultRules
    ensures i < |t| && matches(client, t[i].0) ==> SelectRules(t, client, matches) == t[i].1
  {
    if i > 0 {
      SelectRulesSpec(t[1..], client, matches, i - 1);
    }
  }

  // ---------------------------------------------------------------------------
  // Formatting recipients

  /** A recipient: the name the contacts give for the address, if any, and the address. */
  type Contact = (Option<string>, string)

  /** `'{} <{}>'.format(name, email)` */
  function NameAddr(name: string, email: string): string {
    name + " <" + email + ">"
  }

  /**
   * One recipient as `get_url` writes it, and whether its name was MIME-encoded. `header` stands for
   * `str(Header(name, 'utf-8'))`.
   */
  function Render(rules: Rules, useNames: bool, header: string -> string, contact: Contact): (string, bool) {
    var (name, email) := contact;
    if !rules.names || !useNames || name == None then (email, false)
    else
      var encoded := rules.mime && !IsAscii(name.value);
      var n := if encoded then header(name.value) else name.value;
      if ',' in n then
        if rules.noCommas then (email, encoded) else (NameAddr("\"" + n + "\"", email), encoded)
      else (NameAddr(n, email), encoded)
  }

  /** The parts of `get_url`: one per contact, in order. */
  function Parts(rules: Rules, useNames: bool, header: string -> string, contacts: seq<Contact>): (r: seq<string>)
    ensures |r| == |contacts|
    ensures forall k :: 0 <= k < |r| ==> r[k] == Render(rules, useNames, header, contacts[k]).0
  {
    if contacts == [] then []
    else
      var n := |contacts| - 1;
      Parts(rules, useNames, header, contacts[..n]) + [Render(rules, useNames, header, contacts[n]).0]
  }

  /** Whether some contact's name was MIME-encoded. */
  predicate AnyEncoded(rules: Rules, useNames: bool, header: string -> string, contacts: seq<Contact>) {
    exists k :: 0 <= k < |contacts| && Render(rules, useNames, header, contacts[k]).1
  }

  function Separator(rules: Rules): string {
    if rules.spaces then ", " else ","
  }

  function UrlPrefix(rules: Rules): string {
    if rules.inlineTo then "mailto:" else "mailto:?to="
  }

  /** The URL `get_url` returns: the joined parts, percent-encoded when some name was encoded. */
  function Url(rules: Rules, useNames: bool, header: string -> string, contacts: seq<Contact>): string {
    var result := Join(Parts(rules, useNames, header, contacts), Separator(rules));
    UrlPrefix(rules) + (if AnyEncoded(rules, useNames, header, contacts) then UrlQuote.Quote(result) else result)
  }

  /** The loop of `Formatter.__init__` merging the rule files that exist, in order. */
  method MergeRuleFiles(files: seq<Option<RuleTable>>) returns (clientRules: RuleTable)
    ensures clientRules == LoadRules(files)
  {
    clientRules := [];
    var i := 0;
    while i < |files|
      invariant 0 <= i <= |files|
      invariant clientRules == LoadRules(files[..i])
    {
      assert files[..i + 1][..i] == files[..i];
      if files[i].Some? {
        clientRules := Update(clientRules, files[i].value);
      }
      i := i + 1;
    }
    assert files[..|files|] == files;
  }

  /** The loop of `Formatter.__init__` picking the rules of the first key matching the client. */
  method ChooseRules(clientRules: RuleTable, client: Option<string>, matches: (Option<string>, string) -> bool)
    returns (chosen: Rules)
    ensures chosen == SelectRules(clientRules, client, matches)
  {
    chosen := DefaultRules;
    var i := 0;
    while i < |clientRules|
      invariant 0 <= i <= |clientRules|
      invariant forall j :: 0 <= j < i ==> !matches(client, clientRules[j].0)
    {
      if matches(client, clientRules[i].0) {
        chosen := clientRules[i].1;
        break;
      }
      i := i + 1;
    }
    SelectRulesSpec(clientRules, client, matches, i);
  }

  /** The formatter of one client: its rules, and the `use_*` switches copied from them. */
  class Formatter {
    const client: Option<string>
    var rules: Rules
    var useSpaces: bool
    var useNames: bool
    var useMime: bool
    var useNoCommas: bool
    var useInlineTo: bool

    /** The rules of the same client as Formatter's fields. */
    function Switches(): Rules
      reads this
    {
      Rules(useSpaces, useNames, useMime, useNoCommas, useInlineTo)
    }

    /**
     * `Formatter(client, wf)`: the rule files (`None` when a file does not exist) are merged in turn, then
     * the first key whose pattern `matches` the client picks the rules. `matches` stands for `fnmatch`.
     */
    constructor (client: Option<string>, files: seq<Option<RuleTable>>,
                 matches: (Option<string>, string) -> bool)
      ensures this.client == client
      ensures rules == SelectRules(LoadRules(files), client, matches)
      ensures Switches() == rules
    {
      var clientRules := MergeRuleFiles(files);
      var chosen := ChooseRules(clientRules, client, matches);
      this.client := client;
      rules := chosen;
      useSpaces := chosen.spaces;
      useNames := chosen.names;
      useMime := chosen.mime;
      useNoCommas := chosen.noCommas;
      useInlineTo := chosen.inlineTo;
    }

    /** `get_url(contacts, use_names)` */
    method GetUrl(contacts: seq<Contact>, useNamesArg: bool, header: string -> string) returns (url: string)
      ensures url == Url(Switches(), useNamesArg, header, contacts)
    {
      var rs := Switches();
      var parts: seq<string> := [];
      var encoded := false;
      var i := 0;
      while i < |contacts|
        invariant 0 <= i <= |contacts|
        invariant parts == Parts(rs, useNamesArg, header, contacts[..i])
        invariant encoded <==> AnyEncoded(rs, useNamesArg, header, contacts[..i])
      {
        assert contacts[..i + 1] == contacts[..i] + [contacts[i]];
        RenderSnoc(rs, useNamesArg, header, contacts[..i], contacts[i]);
        var (name, email) := contacts[i];
        i := i + 1;
        if !useNames || !useNamesArg {
          parts := parts + [email];
          continue;
        } else if name == None {
          parts := parts + [email];
          continue;
        }
        var n := name.value;
        if useMime {
          if !IsAscii(n) {
            n := header(n);
            encoded := true;
          }
        }
        if ',' in n {
          if useNoCommas {
            parts := parts + [email];
            continue;
          } else {
            n := "\"" + n + "\"";
          }
        }
        var addr := n + " <" + email + ">";
        parts := parts + [addr];
      }
      assert contacts[..|contacts|] == contacts;
      var result := if useSpaces then Join(parts, ", ") else Join(parts, ",");
      if encoded {
        result := UrlQuote.Quote(result);
      }
      if useInlineTo {
        return "mailto:" + result;
      }
      return "mailto:?to=" + result;
    }
  }

  /** Formatting one more contact adds its part at the end, and its encoded flag to the others'. */
  lemma RenderSnoc(rules: Rules, useNames: bool, header: string -> string, contacts: seq<Contact>, c: Contact)
    ensures Parts(rules, useNames, header, contacts + [c]) ==
      Parts(rules, useNames, header, contacts) + [Render(rules, useNames, header, c).0]
    ensures AnyEncoded(rules, useNames, header, contacts + [c]) <==>
      AnyEncoded(rules, useNames, header, contacts) || Render(rules, useNames, header, c).1
  {
    var all := contacts + [c];
    assert all[..|contacts|] == contacts;
    assert forall k :: 0 <= k < |contacts| ==> all[k] == contacts[k];
    assert all[|contacts|] == c;
  }

  /** With names switched off, by the client or by the caller, or for a contact without a name, the bare address. */
  lemma RenderBare(rules: Rules, useNames: bool, header: string -> string, contact: Contact)
    requires !rules.names || !useNames || contact.0 == None
    ensures Render(rules, useNames, header, contact) == (contact.1, false)
  {
  }

  /** With `mime` on, a non-ASCII name is replaced by its encoded word and flags the URL for quoting;
   *  an ASCII name, or any name with `mime` off, is used as it is and flags nothing. */
  lemma RenderMime(rules: Rules, header: string -> string, name: string, email: string)
    requires rules.names
    ensures var (part, encoded) := Render(rules, true, header, (Some(name), email));
      var n := if rules.mime && !IsAscii(name) then header(name) else name;
      && encoded == (rules.mime && !IsAscii(name))
      && (',' !in n ==> part == NameAddr(n, email))
  {
  }

  /** A name that holds a comma once `mime` has had its turn (the name itself, or its encoded word): the bare
   *  address under `no_commas`, else that name as a quoted string. */
  lemma RenderComma(rules: Rules, name: string, email: string, header: string -> string)
    requires rules.names
    ensures var n := if rules.mime && !IsAscii(name) then header(name) else name;
      ',' in n ==>
        Render(rules, true, header, (Some(name), email)).0 == (if rules.noCommas then email else NameAddr("\"" + n + "\"", email))
  {
  }

  /** An ASCII name without a comma gives `name <email>`, whatever the other rules say. */
  lemma RenderPlain(rules: Rules, name: string, email: string, header: string -> string)
    requires rules.names && IsAscii(name) && ',' !in name
    ensures Render(rules, true, header, (Some(name), email)) == (NameAddr(name, email), false)
  {
  }

  /** The URL starts with `mailto:` (inline) or `mailto:?to=`; no contacts give exactly that prefix. */
  lemma UrlShape(rules: Rules, useNames: bool, header: string -> string, contacts: seq<Contact>)
    ensures StartsWith(Url(rules, useNames, header, contacts), UrlPrefix(rules))
    ensures contacts == [] ==> Url(rules, useNames, header, contacts) == UrlPrefix(rules)
  {
    var u := Url(rules, useNames, header, contacts);
    assert u[..|UrlPrefix(rules)|] == UrlPrefix(rules);
    if contacts == [] {
      assert !AnyEncoded(rules, useNames, header, contacts);
    }
  }

  /** Without encoded names the recipients follow the prefix unquoted; with one, they follow as `quote` of
   *  their UTF-8 bytes with `@` safe, which decodes back to the joined parts. */
  lemma UrlQuoting(rules: Rules, useNames: bool, header: string -> string, contacts: seq<Contact>)
    ensures var u, p := Url(rules, useNames, header, contacts), UrlPrefix(rules);
      var joined := Join(Parts(rules, useNames, header, contacts), Separator(rules));
      && |p| <= |u|
      && (!AnyEncoded(rules, useNames, header, contacts) ==> u[|p|..] == joined)
      && (AnyEncoded(rules, useNames, header, contacts) ==> u[|p|..] == UrlQuote.Quote(joined))
      && (AnyEncoded(rules, useNames, header, contacts) ==> UrlQuote.Unquote(u[|p|..]) == Some(joined))
  {
    var joined := Join(Parts(rules, useNames, header, contacts), Separator(rules));
    var p := UrlPrefix(rules);
    var u := Url(rules, useNames, header, contacts);
    if AnyEncoded(rules, useNames, header, contacts) {
      assert u[|p|..] == UrlQuote.Quote(joined);
      UrlQuote.QuoteRoundTrip(joined);
    } else {
      assert u[|p|..] == joined;
    }
  }

  /** With names off nothing is encoded, and the URL lists the bare addresses. */
  lemma {:induction false} NamesOffBare(rules: Rules, useNames: bool, header: string -> string, contacts: seq<Contact>)
    requires !rules.names || !useNames
    ensures !AnyEncoded(rules, useNames, header, contacts)
    ensures Parts(rules, useNames, header, contacts) == seq(|contacts|, k requires 0 <= k < |contacts| => contacts[k].1)
  {
  }

  // ---------------------------------------------------------------------------
  // The client manager

  /** A cached value of the `contacts` cache: the email-to-name map, or one of the other entries. */
  datatype CacheValue = NameMap(m: map<string, string>) | OtherValue

  /**
   * The recipients of `build_url`: each address with its name from the cache's `email_name_map`, or `None`.
   * A missing or empty cache is the `ValueError` 'No contacts available'; a cache without the map, or whose
   * entry is no map, fails too.
   */
  function BuildRecipients(cache: Option<map<string, CacheValue>>, emails: seq<string>): (r: Result<seq<Contact>, string>)
    ensures (cache == None || cache.value == map[]) ==> r == Err("No contacts available")
    ensures r.Ok? ==> |r.value| == |emails| && forall k :: 0 <= k < |emails| ==> r.value[k].1 == emails[k]
  {
    if cache == None || cache.value == map[] then Err("No contacts available")
    else if "email_name_map" !in cache.value || !cache.value["email_name_map"].NameMap? then Err("email_name_map")
    else
      var names := cache.value["email_name_map"].m;
      Ok(seq(|emails|, k requires 0 <= k < |emails| =>
        (if emails[k] in names then Some(names[emails[k]]) else None, emails[k])))
  }

  /** With a name map in the cache, every address gets its mapped name, or `None` when it has none. */
  lemma BuildRecipientsNames(cache: map<string, CacheValue>, emails: seq<string>, k: int)
    requires "email_name_map" in cache && cache["email_name_map"].NameMap? && 0 <= k < |emails|
    ensures var r := BuildRecipients(Some(cache), emails); var names := cache["email_name_map"].m;
      && r.Ok?
      && r.value[k] == (if emails[k] in names then Some(names[emails[k]]) else None, emails[k])
  {
  }

  /** The application caches `Client` keeps: the email apps, and the system default app's info dict. */
  class Client {
    var allEmailApps: seq<string>
    var systemDefaultApp: map<string, string>

    /**
     * `Client(wf)`: starts with no apps and no default, then runs `update()` unforced, so the new client holds
     * the cached apps and default (empty when a cache is missing).
     */
    constructor (cachedApps: Option<seq<string>>, cachedDefault: Option<map<string, string>>,
                 appsFresh: bool, defaultFresh: bool)
      ensures allEmailApps == (if cachedApps == None then [] else cachedApps.value)
      ensures systemDefaultApp == (if cachedDefault == None then map[] else cachedDefault.value)
      ensures (cachedApps == None || cachedDefault == None) ==> Empty()
    {
      allEmailApps := [];
      systemDefaultApp := map[];
      new;
      var refresh := Update(false, cachedApps, cachedDefault, appsFresh, defaultFresh);
    }

    /** `empty`: no email apps or no system default app is known. */
    predicate Empty()
      reads this
    {
      allEmailApps == [] || systemDefaultApp == map[]
    }

    /**
     * `update(force)`: loads the two caches (`None` when missing, read as empty) and tells whether the
     * background refresh is started: when forced, or when either cache is older than a day.
     */
    method Update(force: bool, cachedApps: Option<seq<string>>, cachedDefault: Option<map<string, string>>,
                  appsFresh: bool, defaultFresh: bool) returns (doUpdate: bool)
      modifies this
      ensures allEmailApps == (if cachedApps == None then [] else cachedApps.value)
      ensures systemDefaultApp == (if cachedDefault == None then map[] else cachedDefault.value)
      ensures doUpdate <==> force || !appsFresh || !defaultFresh
      ensures (cachedApps == None || cachedDefault == None) ==> Empty()
    {
      allEmailApps := if cachedApps == None then [] else cachedApps.value;
      systemDefaultApp := if cachedDefault == None then map[] else cachedDefault.value;
      doUpdate := false;
      if force {
        doUpdate := true;
      } else if !appsFresh {
        doUpdate := true;
      } else if !defaultFresh {
        doUpdate := true;
      }
    }
  }
}
