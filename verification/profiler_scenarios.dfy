/**
 * The two timeline scenarios of the profiler's unit tests, stated over the
 * model: a GET of http://httpbin.org/status/418 answered by a 418 response.
 */
module ProfilerScenarios {
  import opened Wrappers
  import Php
  import Decimal
  import opened Profiler

  const TeapotUrl: string := "http://httpbin.org/status/418"

  /** `new Request('GET', 'http://httpbin.org/status/418')`, HTTP/1.1 by default. */
  const TeapotRequest: Request := Request("GET", TeapotUrl, "1.1", "httpbin.org")

  /** `new Response(418)`: the standard reason phrase, HTTP/1.1 by default. */
  const TeapotResponse: Response := Response(418, "I'm a teapot", "1.1")

  /** The test stub's profiler: every known field, in vocabulary order. */
  const Extended: Profiler := Profiler(AvailableParameters, AvailableParameters)

  lemma TeapotStatus()
    ensures Decimal.IntToDecimal(418) == "418"
  {
  }

  /** The exchange of the tests, with the gateway's host name as given. */
  function Teapot(hostname: Option<string>): Exchange {
    Exchange(TeapotRequest, Some(TeapotResponse), hostname)
  }

  /** A selected field whose `case` yields a truthy string holds that string. */
  lemma StringField(p: Profiler, x: Exchange, k: string, v: string)
    requires Selects(p, k) && CaseValue(k, x) == Some(Php.Str(v)) && !Php.Falsy(v)
    ensures Php.Get(GetParameters(p, x), k) == Some(v)
  {
    SelectedFieldValue(p, x, k, Php.Str(v));
  }

  /** With the default selection: host, method, url, status_code and phrase. */
  lemma DefaultTeapotParameters(hostname: Option<string>)
    ensures var r := GetParameters(Default, Teapot(hostname));
      && r.order == ["host", "method", "url", "status_code", "phrase"]
      && Php.Get(r, "host") == Some("httpbin.org")
      && Php.Get(r, "method") == Some("GET")
      && Php.Get(r, "url") == Some(TeapotUrl)
      && Php.Get(r, "status_code") == Some("418")
      && Php.Get(r, "phrase") == Some("I'm a teapot")
  {
    DefaultKeys(Teapot(hostname));
    DefaultTeapotHost(hostname);
    DefaultTeapotMethod(hostname);
    DefaultTeapotUrl(hostname);
    DefaultTeapotStatus(hostname);
    DefaultTeapotPhrase(hostname);
  }

  lemma DefaultTeapotHost(hostname: Option<string>)
    ensures Php.Get(GetParameters(Default, Teapot(hostname)), "host") == Some("httpbin.org")
  {
    assert DefaultContext[0] == "host" && AvailableParameters[5] == "host";
    assert "httpbin.org"[0] != '0';
    StringField(Default, Teapot(hostname), "host", "httpbin.org");
  }

  lemma DefaultTeapotMethod(hostname: Option<string>)
    ensures Php.Get(GetParameters(Default, Teapot(hostname)), "method") == Some("GET")
  {
    assert DefaultContext[1] == "method" && AvailableParameters[0] == "method";
    assert "GET"[0] != '0';
    StringField(Default, Teapot(hostname), "method", "GET");
  }

  lemma DefaultTeapotUrl(hostname: Option<string>)
    ensures Php.Get(GetParameters(Default, Teapot(hostname)), "url") == Some(TeapotUrl)
  {
    assert DefaultContext[2] == "url" && AvailableParameters[1] == "url";
    assert TeapotUrl[0] != '0';
    StringField(Default, Teapot(hostname), "url", TeapotUrl);
  }

  lemma DefaultTeapotStatus(hostname: Option<string>)
    ensures Php.Get(GetParameters(Default, Teapot(hostname)), "status_code") == Some("418")
  {
    assert DefaultContext[3] == "status_code" && AvailableParameters[7] == "status_code";
    StatusCodeField(Default, Teapot(hostname));
    TeapotStatus();
  }

  lemma DefaultTeapotPhrase(hostname: Option<string>)
    ensures Php.Get(GetParameters(Default, Teapot(hostname)), "phrase") == Some("I'm a teapot")
  {
    assert DefaultContext[4] == "phrase" && AvailableParameters[8] == "phrase";
    assert "I'm a teapot"[0] != '0';
    StringField(Default, Teapot(hostname), "phrase", "I'm a teapot");
  }

  /** The extended selection lists every known field once. */
  lemma ExtendedSelection()
    ensures Php.Distinct(AvailableParameters)
    ensures SelectedKeys(Extended) == AvailableParameters
  {
    VocabularyDistinct();
    Vocabulary();
    Php.ArrayIntersectAll(AvailableParameters, AvailableParameters);
  }

  /**
   * With every field selected in vocabulary order, 'resource' comes right
   * after 'url' and so repeats the URL.
   */
  lemma ExtendedTeapotParameters(hostname: string)
    requires !Php.Falsy(hostname)
    ensures var r := GetParameters(Extended, Teapot(Some(hostname)));
      && r.order == AvailableParameters
      && Php.Get(r, "method") == Some("GET")
      && Php.Get(r, "url") == Some(TeapotUrl)
      && Php.Get(r, "resource") == Some(TeapotUrl)
      && Php.Get(r, "request_version") == Some("1.1")
      && Php.Get(r, "response_version") == Some("1.1")
      && Php.Get(r, "host") == Some("httpbin.org")
      && Php.Get(r, "hostname") == Some(hostname)
      && Php.Get(r, "status_code") == Some("418")
      && Php.Get(r, "phrase") == Some("I'm a teapot")
  {
    var h := Some(hostname);
    ExtendedTeapotOrder(h);
    ExtendedTeapotMethod(h);
    ExtendedTeapotUrl(h);
    ExtendedTeapotRequestVersion(h);
    ExtendedTeapotResponseVersion(h);
    ExtendedTeapotHost(h);
    ExtendedTeapotPhrase(h);
    ExtendedTeapotResource(h);
    ExtendedTeapotHostname(hostname);
    ExtendedTeapotStatus(h);
  }

  lemma ExtendedTeapotOrder(hostname: Option<string>)
    ensures GetParameters(Extended, Teapot(hostname)).order == AvailableParameters
  {
    ExtendedSelection();
  }

  lemma ExtendedTeapotMethod(hostname: Option<string>)
    ensures Php.Get(GetParameters(Extended, Teapot(hostname)), "method") == Some("GET")
  {
    assert AvailableParameters[0] == "method";
    assert "GET"[0] != '0';
    StringField(Extended, Teapot(hostname), "method", "GET");
  }

  lemma ExtendedTeapotUrl(hostname: Option<string>)
    ensures Php.Get(GetParameters(Extended, Teapot(hostname)), "url") == Some(TeapotUrl)
  {
    assert AvailableParameters[1] == "url";
    assert TeapotUrl[0] != '0';
    StringField(Extended, Teapot(hostname), "url", TeapotUrl);
  }

  lemma ExtendedTeapotRequestVersion(hostname: Option<string>)
    ensures Php.Get(GetParameters(Extended, Teapot(hostname)), "request_version") == Some("1.1")
  {
    assert AvailableParameters[3] == "request_version";
    assert "1.1"[0] != '0';
    StringField(Extended, Teapot(hostname), "request_version", "1.1");
  }

  lemma ExtendedTeapotResponseVersion(hostname: Option<string>)
    ensures Php.Get(GetParameters(Extended, Teapot(hostname)), "response_version") == Some("1.1")
  {
    assert AvailableParameters[4] == "response_version";
    assert "1.1"[0] != '0';
    StringField(Extended, Teapot(hostname), "response_version", "1.1");
  }

  lemma ExtendedTeapotHost(hostname: Option<string>)
    ensures Php.Get(GetParameters(Extended, Teapot(hostname)), "host") == Some("httpbin.org")
  {
    assert AvailableParameters[5] == "host";
    assert "httpbin.org"[0] != '0';
    StringField(Extended, Teapot(hostname), "host", "httpbin.org");
  }

  lemma ExtendedTeapotPhrase(hostname: Option<string>)
    ensures Php.Get(GetParameters(Extended, Teapot(hostname)), "phrase") == Some("I'm a teapot")
  {
    assert AvailableParameters[8] == "phrase";
    assert "I'm a teapot"[0] != '0';
    StringField(Extended, Teapot(hostname), "phrase", "I'm a teapot");
  }

  lemma ExtendedTeapotHostname(hostname: string)
    requires !Php.Falsy(hostname)
    ensures Php.Get(GetParameters(Extended, Teapot(Some(hostname))), "hostname") == Some(hostname)
  {
    assert AvailableParameters[6] == "hostname";
    StringField(Extended, Teapot(Some(hostname)), "hostname", hostname);
  }

  lemma ExtendedTeapotStatus(hostname: Option<string>)
    ensures Php.Get(GetParameters(Extended, Teapot(hostname)), "status_code") == Some("418")
  {
    assert AvailableParameters[7] == "status_code";
    StatusCodeField(Extended, Teapot(hostname));
    TeapotStatus();
  }

  lemma ExtendedTeapotResource(hostname: Option<string>)
    ensures Php.Get(GetParameters(Extended, Teapot(hostname)), "resource") == Some(TeapotUrl)
  {
    var x := Teapot(hostname);
    ExtendedSelection();
    CasesExactlyVocabulary(x, "");
    assert AvailableParameters[2] == "resource" && AvailableParameters[1] == "url";
    ResourceRepeatsPrevious(Extended, x, 2);
    ExtendedTeapotUrl(hostname);
  }

  /** `add` with the default profiler emits the one measure the test expects. */
  lemma TeapotMeasure(describe: (Request, Option<Response>) -> string, start: real, end: real,
                      hostname: Option<string>)
    ensures var t := Add([], Default, describe, start, end, Teapot(hostname));
      && |t| == 1
      && t[0].category == "guzzle"
      && t[0].start == start && t[0].end == end
      && t[0].params == GetParameters(Default, Teapot(hostname))
  {
  }
}
