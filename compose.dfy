/** Opening a new message in the chosen client (src/compose.py). */
module Compose {
  import opened Text
  import opened Wrappers
  import MailTo

  /** The recipients argument: the first argument trimmed, `, ` written as `,`; empty without arguments. */
  function Recipients(args: seq<string>): (r: string)
    ensures args == [] ==> r == ""
  {
    var recipients := if |args| > 0 then Strip(args[0]) else "";
    ReplaceAll(recipients, ", ", ",")
  }

  /** An argument holding the addresses joined by `, ` is passed on trimmed and joined by `,`. */
  lemma RecipientsOfArgument(args: seq<string>, parts: seq<string>)
    requires args != [] && Strip(args[0]) == Join(parts, ", ")
    requires forall k :: 0 <= k < |parts| ==> ',' !in parts[k]
    ensures Recipients(args) == Join(parts, ",")
  {
    RecipientsOfList(parts);
  }

  /** A list of addresses joined by `, ` reaches the client joined by `,`. */
  lemma {:induction false} RecipientsOfList(parts: seq<string>)
    requires forall k :: 0 <= k < |parts| ==> ',' !in parts[k]
    ensures ReplaceAll(Join(parts, ", "), ", ", ",") == Join(parts, ",")
  {
    if |parts| == 1 {
      ReplaceAllAbsent(parts[0], ", ", ",") by {
        ContainsNoFirst(parts[0], ", ");
      }
    } else if |parts| > 1 {
      var rest := Join(parts[1..], ", ");
      RecipientsOfList(parts[1..]);
      assert Join(parts, ", ") == parts[0] + (", " + rest);
      ReplaceAllPrefix(parts[0], ", " + rest, ", ", ",");
      assert (", " + rest)[..2] == ", " && (", " + rest)[2..] == rest;
    }
  }

  lemma {:induction false} ContainsNoFirst(s: string, p: string)
    requires p != [] && p[0] !in s
    ensures !Contains(s, p)
    decreases |s|
  {
    if s != [] {
      ContainsNoFirst(s[1..], p);
    }
  }

  /** The URL handed to `open`: `mailto:` followed by the recipients. */
  function ComposeUrl(args: seq<string>): (url: string)
    ensures StartsWith(url, "mailto:") && url[7..] == Recipients(args)
  {
    "mailto:" + Recipients(args)
  }

  /** `main`: the `open` command; `-a <app name>` selects the default client when one is set. */
  method Command(args: seq<string>, apps: MailTo.MailApps) returns (command: seq<string>)
    ensures apps.DefaultApp().0.Some? ==> command == ["open", "-a", apps.DefaultApp().0.value, ComposeUrl(args)]
    ensures apps.DefaultApp().0 == None ==> command == ["open", ComposeUrl(args)]
    ensures command[0] == "open" && command[|command| - 1] == ComposeUrl(args)
  {
    var url := ComposeUrl(args);
    var appname := apps.DefaultApp().0;
    if appname.Some? {
      command := ["open", "-a", appname.value, url];
    } else {
      command := ["open", url];
    }
  }
}
