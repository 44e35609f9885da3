/** The Fluid handler that turns a `mailto:` URL into a Roundcube compose URL (extra/roundcube.js). */
module Roundcube {
  import opened Text

  /** The compose page of the Roundcube installation the script is configured for. */
  const ComposePrefix: string := "https://mail.example.com/?_task=mail&_action=compose&to="

  /** The string `transform` splits: the URL after its two single replacements (the first `mailto:` is
   *  dropped, the first `&amp;` becomes `&`). */
  function Unescaped(inUrl: string): string {
    ReplaceFirst(ReplaceFirst(inUrl, "mailto:", ""), "&amp;", "&")
  }

  /** The compose URL for an unescaped `mailto:` target: the address (the text before the first `?`),
   *  then `&` and the query (the text between the first and second `?`) when that is not empty. */
  function ComposeUrl(s: string): (out: string)
    ensures StartsWith(out, ComposePrefix)
  {
    var splits := Split(s, '?');
    var emailAddr := splits[0];
    var argStr := if |splits| > 1 then splits[1] else "";
    var out := ComposePrefix + emailAddr + (if |argStr| > 0 then "&" + argStr else "");
    assert out[..|ComposePrefix|] == ComposePrefix;
    out
  }

  /** `transform(url)` */
  function Transform(inUrl: string): (out: string)
    ensures StartsWith(out, ComposePrefix)
  {
    ComposeUrl(Unescaped(inUrl))
  }

  /** A URL without a query becomes the compose page addressed to everything after `mailto:`. */
  lemma TransformNoQuery(inUrl: string)
    requires '?' !in Unescaped(inUrl)
    ensures Transform(inUrl) == ComposePrefix + Unescaped(inUrl)
  {
    SplitNoSeparator(Unescaped(inUrl), '?');
  }

  /** With a query, the address is the text before the first `?`, and the query up to any second `?`
   *  follows it after `&`; an empty query adds nothing. */
  lemma TransformQuery(inUrl: string, addr: string, query: string, rest: string)
    requires Unescaped(inUrl) == addr + "?" + query + rest
    requires '?' !in addr && '?' !in query
    requires rest == [] || rest[0] == '?'
    ensures Transform(inUrl) == ComposePrefix + addr + (if query != [] then "&" + query else "")
  {
    ComposeQuery(Unescaped(inUrl), addr, query, rest);
  }

  lemma ComposeQuery(s: string, addr: string, query: string, rest: string)
    requires s == addr + "?" + query + rest
    requires '?' !in addr && '?' !in query
    requires rest == [] || rest[0] == '?'
    ensures ComposeUrl(s) == ComposePrefix + addr + (if query != [] then "&" + query else "")
  {
    assert s[..|addr|] == addr;
    SplitFirst(s, '?', |addr|);
    var tail := s[|addr| + 1..];
    assert tail == query + rest;
    if rest == [] {
      assert tail == query;
      SplitNoSeparator(query, '?');
    } else {
      assert tail[..|query|] == query;
      SplitFirst(tail, '?', |query|);
    }
  }

  /** A `mailto:` URL without `&` loses exactly its scheme. */
  lemma UnescapedMailto(target: string)
    requires '&' !in target
    ensures Unescaped("mailto:" + target) == target
  {
    var u := "mailto:" + target;
    assert u[..7] == "mailto:";
    FindPrefix(u, "mailto:");
    assert ReplaceFirst(u, "mailto:", "") == target;
    FindAbsent(target, "&amp;");
  }
}
