/** The string handling inside `post_webhook`: the plain-text fallback
    message and the `wait=true` query suffix of the post URL. */
module Delivery {
  import opened Wrappers
  import opened Text

  const Title := "KO4Fun \U{2014} Upcoming Events"

  /** The plain-text fallback is kept to this many characters. */
  const ContentLimit := 1800

  /** How much of an over-long fallback survives before the ellipsis. */
  const KeptChars := 1797

  const Ellipsis := '\U{2026}'

  /** `f"**{TITLE}**\n"`, the bold title line of the fallback. */
  const Header := "**" + Title + "**\n"

  /** The plain-text fallback for a description, cut to the content limit
      with a trailing ellipsis when it is too long. */
  method FallbackText(description: string) returns (text: string)
    ensures |text| <= ContentLimit
    ensures |Header + description| <= ContentLimit ==> text == Header + description
    ensures |Header + description| > ContentLimit ==>
              |text| == KeptChars + 1
              && text[..KeptChars] == (Header + description)[..KeptChars]
              && text[KeptChars] == Ellipsis
    ensures Header <= text
  {
    text := Header + description;
    if |text| > ContentLimit {
      text := text[..KeptChars] + [Ellipsis];
    }
  }

  const WaitParam := "wait=true"

  /** `url + ("&" if "?" in url else "?") + "wait=true"`. */
  function WaitUrl(url: string): (r: string)
    ensures url <= r
    ensures |r| == |url| + 1 + |WaitParam| && r[|url| + 1..] == WaitParam
  {
    url + (if '?' in url then "&" else "?") + WaitParam
  }

  /** The suffix never adds a second `?`: the post URL has as many as the
      webhook URL when that has one, and exactly one otherwise. */
  lemma WaitUrlQuestionMarks(url: string)
    ensures multiset(WaitUrl(url))['?'] == if '?' in url then multiset(url)['?'] else 1
  {
    var sep := if '?' in url then "&" else "?";
    assert WaitUrl(url) == url + sep + WaitParam;
    assert multiset(WaitParam)['?'] == 0 by {
      assert '?' !in WaitParam;
    }
    assert multiset(url + sep + WaitParam) == multiset(url) + multiset(sep) + multiset(WaitParam);
    assert '?' in url <==> '?' in multiset(url);
  }

  /** The query string of a URL: everything after its first `?`. Webhook
      URLs carry no `#fragment`, so none is split off here. */
  function QueryPart(url: string): (q: Option<string>)
    ensures q.Some? <==> '?' in url
  {
    if url == [] then None
    else if url[0] == '?' then Some(url[1..])
    else
      assert url == [url[0]] + url[1..];
      QueryPart(url[1..])
  }

  lemma {:induction false} QueryPartAppend(u: string, t: string)
    ensures QueryPart(u + t) == if '?' in u then Some(QueryPart(u).value + t) else QueryPart(t)
  {
    if u == [] {
      assert u + t == t;
    } else {
      assert u == [u[0]] + u[1..];
      assert (u + t)[1..] == u[1..] + t;
      if u[0] != '?' {
        assert '?' in u <==> '?' in u[1..];
        QueryPartAppend(u[1..], t);
      }
    }
  }

  /** Appending a parameter with the code's `?`/`&` rule adds it as the
      last parameter of the query. */
  lemma {:induction false} AppendParam(url: string, param: string)
    requires '&' !in param
    ensures var r := url + (if '?' in url then "&" else "?") + param;
            QueryPart(r).Some?
            && Split(QueryPart(r).value, '&')
               == (if '?' in url then Split(QueryPart(url).value, '&') else []) + [param]
  {
    SplitWithoutSep(param, '&');
    if '?' in url {
      QueryPartAppend(url, "&" + param);
      var q := QueryPart(url).value;
      assert url + "&" + param == url + ("&" + param);
      assert q + ("&" + param) == q + ['&'] + param;
      SplitAppend(q, param, '&');
    } else {
      QueryPartAppend(url, "?" + param);
      assert url + "?" + param == url + ("?" + param);
      assert ("?" + param)[1..] == param;
    }
  }

  /** The post URL carries the original URL's query parameters followed
      by `wait=true`, and a URL without a query gets `wait=true` as its
      only parameter. */
  lemma WaitUrlQuery(url: string)
    ensures QueryPart(WaitUrl(url)).Some?
    ensures Split(QueryPart(WaitUrl(url)).value, '&')
            == (if '?' in url then Split(QueryPart(url).value, '&') else []) + [WaitParam]
  {
    assert '&' !in WaitParam;
    AppendParam(url, WaitParam);
  }
}
