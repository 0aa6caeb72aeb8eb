/** Content negotiation of the API docs page (src/app/docs/route.ts): command
    line clients and callers that accept `text/plain` get the markdown source,
    everybody else the rendered HTML page. The documents themselves are
    represented by which one is chosen. */
module Docs {
  import opened Common

  /** User-Agent fragments that mark a command line client, in source order. */
  const CliAgents: seq<string> := ["curl", "wget", "httpie", "http", "python-requests", "go-http-client"]

  const PlainType: string := "text/plain; charset=utf-8"
  const HtmlType: string := "text/html; charset=utf-8"

  /** `needle` occurs in `s` starting at index `i`. */
  ghost predicate OccursAt(s: string, needle: string, i: int)
  {
    0 <= i && i + |needle| <= |s| && s[i..i + |needle|] == needle
  }

  /** `s.includes(needle)`. */
  function Includes(s: string, needle: string): (b: bool)
    ensures b <==> exists i :: OccursAt(s, needle, i)
    decreases |s|
  {
    if |needle| > |s| then
      assert forall i :: !OccursAt(s, needle, i);
      false
    else if s[..|needle|] == needle then
      assert OccursAt(s, needle, 0);
      true
    else
      var found := Includes(s[1..], needle);
      assert found ==> exists i :: OccursAt(s, needle, i) by {
        if found {
          var i :| OccursAt(s[1..], needle, i);
          assert s[1..][i..i + |needle|] == s[i + 1..i + 1 + |needle|];
          assert OccursAt(s, needle, i + 1);
        }
      }
      assert (exists i :: OccursAt(s, needle, i)) ==> found by {
        if exists i :: OccursAt(s, needle, i) {
          var i :| OccursAt(s, needle, i);
          assert i != 0;
          assert s[1..][i - 1..i - 1 + |needle|] == s[i..i + |needle|];
          assert OccursAt(s[1..], needle, i - 1);
        }
      }
      found
  }

  /** A needle that contains another, found in `s`, means the other is found too. */
  lemma IncludesPrefix(s: string, needle: string, prefix: string)
    requires prefix <= needle && Includes(s, needle)
    ensures Includes(s, prefix)
  {
    var i :| OccursAt(s, needle, i);
    assert s[i..i + |prefix|] == needle[..|prefix|];
    assert OccursAt(s, prefix, i);
  }

  /** ASCII lower-casing, as `toLowerCase` applies it to letters `A` to `Z`. */
  function ToLower(s: string): (t: string)
    ensures |t| == |s|
    ensures forall i :: 0 <= i < |s| ==>
              t[i] == if 'A' <= s[i] <= 'Z' then (s[i] as int + 32) as char else s[i]
  {
    seq(|s|, i requires 0 <= i < |s| => if 'A' <= s[i] <= 'Z' then (s[i] as int + 32) as char else s[i])
  }

  /** Some agent of `agents` occurs in `ua`: `agents.some(a => ua.includes(a))`. */
  function AnyIncluded(ua: string, agents: seq<string>): (b: bool)
    ensures b <==> exists a :: a in agents && Includes(ua, a)
    decreases |agents|
  {
    if |agents| == 0 then false
    else if Includes(ua, agents[0]) then
      assert agents[0] in agents;
      true
    else
      var rest := AnyIncluded(ua, agents[1..]);
      assert forall a :: a in agents[1..] ==> a in agents;
      assert forall a :: a in agents && a != agents[0] ==> a in agents[1..];
      rest
  }

  /** `isCliRequest`: a missing User-Agent counts as empty. */
  function IsCliRequest(userAgent: Option<string>): (b: bool)
    ensures var ua := ToLower(if userAgent.Some? then userAgent.value else "");
            b <==> exists a :: a in CliAgents && Includes(ua, a)
  {
    AnyIncluded(ToLower(if userAgent.Some? then userAgent.value else ""), CliAgents)
  }

  /** Without a User-Agent a request is never a command line request. */
  lemma MissingUserAgentIsNotCli()
    ensures !IsCliRequest(None)
  {
    forall a | a in CliAgents ensures !Includes("", a) {
      assert |a| > 0;
    }
  }

  /** The agent list spelled out. */
  lemma CliAgentsListed(ua: string)
    ensures (exists a :: a in CliAgents && Includes(ua, a)) <==>
              || Includes(ua, "curl") || Includes(ua, "wget") || Includes(ua, "httpie")
              || Includes(ua, "http") || Includes(ua, "python-requests")
              || Includes(ua, "go-http-client")
  {
    assert CliAgents[0] == "curl" && CliAgents[1] == "wget" && CliAgents[2] == "httpie";
    assert CliAgents[3] == "http" && CliAgents[4] == "python-requests" && CliAgents[5] == "go-http-client";
  }

  /** An occurrence of `go-http-client` holds one of `http`. */
  lemma GoClientHoldsHttp(ua: string)
    requires Includes(ua, "go-http-client")
    ensures Includes(ua, "http")
  {
    var needle := "go-http-client";
    var i :| OccursAt(ua, needle, i);
    assert |needle| == 14 && needle[3..7] == "http";
    forall k | 3 <= k < 7 ensures ua[i + k] == needle[k] {
      assert ua[i..i + 14][k] == ua[i + k];
    }
    assert ua[i + 3..i + 7] == "http";
    assert OccursAt(ua, "http", i + 3);
  }

  /** `http` subsumes `httpie` and `go-http-client`: four fragments decide. */
  lemma CliAgentsReduce(userAgent: Option<string>)
    ensures var ua := ToLower(if userAgent.Some? then userAgent.value else "");
            IsCliRequest(userAgent) <==>
              Includes(ua, "curl") || Includes(ua, "wget") || Includes(ua, "http")
              || Includes(ua, "python-requests")
  {
    var ua := ToLower(if userAgent.Some? then userAgent.value else "");
    CliAgentsListed(ua);
    if Includes(ua, "httpie") {
      IncludesPrefix(ua, "httpie", "http");
    }
    if Includes(ua, "go-http-client") {
      GoClientHoldsHttp(ua);
    }
  }

  /** Which document the docs route serves. */
  datatype Document = MarkdownSource | RenderedHtml

  datatype DocsResponse = DocsResponse(document: Document, contentType: string)

  /** `GET /docs`, given the `Accept` and `User-Agent` headers. */
  function DocsGet(accept: Option<string>, userAgent: Option<string>): (r: DocsResponse)
    ensures r.document == RenderedHtml <==>
              !Includes(if accept.Some? then accept.value else "", "text/plain") && !IsCliRequest(userAgent)
    ensures r.contentType == if r.document == RenderedHtml then HtmlType else PlainType
  {
    if Includes(if accept.Some? then accept.value else "", "text/plain") || IsCliRequest(userAgent) then
      DocsResponse(MarkdownSource, PlainType)
    else
      DocsResponse(RenderedHtml, HtmlType)
  }

  /** A caller accepting `text/plain` gets the markdown whatever its User-Agent. */
  lemma PlainAcceptWins(accept: string, userAgent: Option<string>)
    requires Includes(accept, "text/plain")
    ensures DocsGet(Some(accept), userAgent) == DocsResponse(MarkdownSource, PlainType)
  {
  }

  /** A `curl` client in any letter case gets the markdown. */
  lemma CurlGetsMarkdown(accept: Option<string>, prefix: string, curl: string, suffix: string)
    requires ToLower(curl) == "curl"
    ensures DocsGet(accept, Some(prefix + curl + suffix)).document == MarkdownSource
  {
    var ua := prefix + curl + suffix;
    var low := ToLower(ua);
    var n := |prefix|;
    forall k | 0 <= k < 4 ensures low[n + k] == "curl"[k] {
      assert ua[n + k] == curl[k];
      assert ToLower(curl)[k] == "curl"[k];
    }
    assert low[n..n + 4] == "curl";
    assert OccursAt(low, "curl", n);
    CliAgentsReduce(Some(ua));
  }
}
