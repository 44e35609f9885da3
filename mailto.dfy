/** Choosing the email client MailTo hands URLs to (src/mailto.py). */
module MailTo {
  import opened Wrappers
  import opened Text
  import Common
  import opened Sorting

  /** One installed application: its name and its path. */
  type App = (string, string)

  /** The settings of the `mailto` script: the path of the chosen client, or none. */
  class MailApps {
    var defaultApp: Option<string>

    /** `_load_settings` without a settings file gives no default; reading the file is not modelled. */
    constructor (stored: Option<string>)
      ensures defaultApp == stored
    {
      defaultApp := stored;
    }

    /** `get_default_app`: `(None, None)` without a stored path, else the app's name and its path. */
    function DefaultApp(): (r: (Option<string>, Option<string>))
      reads this
      ensures defaultApp == None ==> r == (None, None)
      ensures defaultApp.Some? ==> r.0 == Some(Common.AppName(defaultApp.value)) && r.1 == defaultApp
    {
      match defaultApp
      case None => (None, None)
      case Some(path) => (Some(Common.AppName(path)), Some(path))
    }

    /** `set_default_app(path)`: stores the path; `None` clears the default. */
    method SetDefaultApp(path: Option<string>)
      modifies this
      ensures defaultApp == path
      ensures path == None ==> DefaultApp() == (None, None)
    {
      defaultApp := path;
    }

    /** `clear_default`: the stored default is deleted, so the system default applies again. */
    method ClearDefault()
      modifies this
      ensures defaultApp == None && DefaultApp() == (None, None)
      ensures ShowDefaultTitle(DefaultApp().0) == "Default MailTo client : System Default"
    {
      SetDefaultApp(None);
    }
  }

  /** The title `show_default` displays: the app's name, or 'System Default' when none is set. */
  function ShowDefaultTitle(name: Option<string>): (r: string)
    ensures name == None ==> r == "Default MailTo client : System Default"
    ensures name.Some? ==> r == "Default MailTo client : " + name.value
  {
    "Default MailTo client : " + (if name == None then "System Default" else name.value)
  }

  /** The first loop of `select_app`: apps whose lower-cased name starts with the query. */
  function PrefixHits(query: string, apps: seq<App>): seq<App> {
    if apps == [] then []
    else
      var last := apps[|apps| - 1];
      PrefixHits(query, apps[..|apps| - 1]) + (if StartsWith(Lower(last.0), query) then [last] else [])
  }

  /** The second loop of `select_app`: apps whose lower-cased name contains the query and are not yet listed. */
  function AddSubstringHits(hits: seq<App>, query: string, apps: seq<App>): seq<App> {
    if apps == [] then hits
    else
      var h := AddSubstringHits(hits, query, apps[..|apps| - 1]);
      var app := apps[|apps| - 1];
      if Contains(Lower(app.0), query) && app !in h then h + [app] else h
  }

  /** The candidates `select_app` offers for `query`. */
  function SelectHits(query: string, apps: seq<App>): seq<App> {
    var q := Lower(query);
    AddSubstringHits(PrefixHits(q, apps), q, apps)
  }

  /** An entry of the app list `select_app` shows. */
  datatype SelectItem = SelectItem(title: string, arg: string, autocomplete: string, uid: string)

  function ItemFor(hit: App): SelectItem {
    SelectItem("Use " + hit.0 + " for MailTo", hit.1, hit.0, hit.0)
  }

  /** `select_app(query)` over the installed apps: the items it shows, none when nothing matches. `main` passes
   *  `None` when the optional query is omitted, and `query.lower()` then raises `AttributeError`. */
  method SelectApp(query: Option<string>, apps: seq<App>) returns (r: Result<seq<SelectItem>, string>)
    ensures query == None ==> r == Err("AttributeError")
    ensures query.Some? ==> r.Ok? && |r.value| == |SelectHits(query.value, apps)|
    ensures query.Some? ==> forall k :: 0 <= k < |r.value| ==> r.value[k] == ItemFor(SelectHits(query.value, apps)[k])
  {
    if query == None {
      return Err("AttributeError");
    }
    var q := Lower(query.value);
    var hits: seq<App> := [];
    var i := 0;
    while i < |apps|
      invariant 0 <= i <= |apps|
      invariant hits == PrefixHits(q, apps[..i])
    {
      assert apps[..i + 1][..i] == apps[..i];
      if StartsWith(Lower(apps[i].0), q) {
        hits := hits + [apps[i]];
      }
      i := i + 1;
    }
    assert apps[..|apps|] == apps;
    var prefixHits := hits;
    i := 0;
    while i < |apps|
      invariant 0 <= i <= |apps|
      invariant hits == AddSubstringHits(prefixHits, q, apps[..i])
    {
      assert apps[..i + 1][..i] == apps[..i];
      if Contains(Lower(apps[i].0), q) && apps[i] !in hits {
        hits := hits + [apps[i]];
      }
      i := i + 1;
    }
    var items: seq<SelectItem> := [];
    if hits == [] {
      return Ok(items);
    }
    i := 0;
    while i < |hits|
      invariant 0 <= i <= |hits|
      invariant |items| == i && forall k :: 0 <= k < i ==> items[k] == ItemFor(hits[k])
    {
      items := items + [ItemFor(hits[i])];
      i := i + 1;
    }
    return Ok(items);
  }

  /** Every prefix hit is an app, listed in the apps' order, and only apps whose name starts with the query. */
  lemma {:induction false} PrefixHitsSpec(query: string, apps: seq<App>)
    ensures IsSubsequence(PrefixHits(query, apps), apps)
    ensures forall a :: a in PrefixHits(query, apps) <==> a in apps && StartsWith(Lower(a.0), query)
  {
    if apps != [] {
      var init := apps[..|apps| - 1];
      var last := apps[|apps| - 1];
      PrefixHitsSpec(query, init);
      SubsequenceSnoc(PrefixHits(query, init), init, last, StartsWith(Lower(last.0), query));
      assert apps == init + [last];
    }
  }

  /** The substring loop keeps the earlier hits first and adds each missing containing app once. */
  lemma {:induction false} AddSubstringHitsSpec(hits: seq<App>, query: string, apps: seq<App>)
    ensures |hits| <= |AddSubstringHits(hits, query, apps)|
    ensures AddSubstringHits(hits, query, apps)[..|hits|] == hits
    ensures forall a :: a in AddSubstringHits(hits, query, apps) <==>
      a in hits || (a in apps && Contains(Lower(a.0), query))
    ensures NoDuplicates(hits) ==> NoDuplicates(AddSubstringHits(hits, query, apps))
  {
    if apps != [] {
      AddSubstringHitsSpec(hits, query, apps[..|apps| - 1]);
      assert apps == apps[..|apps| - 1] + [apps[|apps| - 1]];
    }
  }

  /**
   * `select_app`: apps whose lower-cased name starts with the lower-cased query come first, in the apps' order;
   * the other apps whose name contains it follow; an app listed twice in `apps` is offered twice only as a prefix hit.
   */
  lemma SelectHitsOrder(query: string, apps: seq<App>)
    ensures var hits, pre := SelectHits(query, apps), PrefixHits(Lower(query), apps);
      && |pre| <= |hits| && hits[..|pre|] == pre
      && IsSubsequence(pre, apps)
      && (forall a :: a in pre <==> a in apps && StartsWith(Lower(a.0), Lower(query)))
      && (forall a :: a in hits <==> a in apps && Contains(Lower(a.0), Lower(query)))
      && (forall k :: |pre| <= k < |hits| ==> hits[k] !in pre)
  {
    var q := Lower(query);
    var pre := PrefixHits(q, apps);
    PrefixHitsSpec(q, apps);
    AddSubstringHitsSpec(pre, q, apps);
    forall a | a in pre ensures Contains(Lower(a.0), q) {
      StartsWithContains(Lower(a.0), q);
    }
    NewHitsFresh(pre, q, apps);
  }

  /** The apps the substring loop adds are not among the hits it started from. */
  lemma {:induction false} NewHitsFresh(hits: seq<App>, query: string, apps: seq<App>)
    ensures var r := AddSubstringHits(hits, query, apps);
      |hits| <= |r| && forall k :: |hits| <= k < |r| ==> r[k] !in hits
  {
    if apps != [] {
      NewHitsFresh(hits, query, apps[..|apps| - 1]);
      AddSubstringHitsSpec(hits, query, apps[..|apps| - 1]);
    }
  }

  /** `select_app` shows nothing exactly when no app name contains the query. */
  lemma SelectNothing(query: string, apps: seq<App>)
    ensures SelectHits(query, apps) == [] <==> forall a :: a in apps ==> !Contains(Lower(a.0), Lower(query))
  {
    SelectHitsOrder(query, apps);
    var hits := SelectHits(query, apps);
    if hits != [] {
      assert hits[0] in hits;
    }
  }
}
