/** Which calls affect which reads of the solved-session cache, and what headers a solution yields. */
module SessionEffects {
  import opened Options
  import opened Sessions
  import opened Text

  // ----- which calls share a session ------------------------------------------------------------------

  /** Same proxy, and URLs with one host up to ASCII case. */
  predicate SameSlot(c: Config, p: string, u: string, q: string, v: string) {
    p == q && c.hostOf(u).Some? && c.hostOf(v).Some? && SameText(c.hostOf(u).value, c.hostOf(v).value)
  }

  lemma SlotsSpelled(c: Config, p: string, u: string, q: string, v: string)
    ensures KeyOf(c, p, u).Some? && KeyOf(c, p, u) == KeyOf(c, q, v) <==> SameSlot(c, p, u, q, v)
    ensures KeyOf(c, p, u).None? <==> c.hostOf(u).None?
  {
    if c.hostOf(u).Some? && c.hostOf(v).Some? {
      LowerForgetsCase(c.hostOf(u).value, c.hostOf(v).value);
    }
  }

  /** What a read returns after a run. */
  function ReadAfter(c: Config, events: seq<Event>, proxy: string, url: string, now: int): seq<Header> {
    Served(c, Run(c, events), proxy, url, now)
  }

  lemma Appended(c: Config, events: seq<Event>, e: Event, now: int)
    requires Monotone(events, e.at) && e.at <= now
    ensures Monotone(events + [e], now) && (events + [e])[..|events|] == events
    ensures Monotone(events, now)
  {
    assert (events + [e])[..|events|] == events;
  }

  /**
   * Another proxy, another host, a read, or a solution without a cookie: the call affects no read of this proxy
   * and URL.
   */
  lemma OtherCallsDoNotMatter(c: Config, events: seq<Event>, e: Event, proxy: string, url: string, now: int)
    requires Monotone(events, e.at) && e.at <= now
    requires || !SameSlot(c, e.proxy, e.url, proxy, url) || e.Read?
             || (e.Store? && CookieHeader(e.solution.cookies).None?)
    ensures ReadAfter(c, events + [e], proxy, url, now) == ReadAfter(c, events, proxy, url, now)
  {
    Appended(c, events, e, now);
    HistoryDecides(c, events, proxy, url, now);
    HistoryDecides(c, events + [e], proxy, url, now);
    SlotsSpelled(c, e.proxy, e.url, proxy, url);
    if e.Store? {
      CookieAdmits(c, e.solution);
    }
    hide Run, Served, SameSlot, KeyOf, RetryHeaders, HasCookie, CookieHeader;
  }

  /** A solution with a cookie, stored for the same proxy and host, is what reads return during its lifetime. */
  lemma StoredIsRead(c: Config, events: seq<Event>, e: Event, proxy: string, url: string, now: int)
    requires Monotone(events, e.at) && e.at <= now
    requires e.Store? && CookieHeader(e.solution.cookies).Some? && SameSlot(c, e.proxy, e.url, proxy, url)
    ensures ReadAfter(c, events + [e], proxy, url, now) ==
      if now - e.at < c.ttl then RetryHeaders(c, e.solution) else []
  {
    Appended(c, events, e, now);
    HistoryDecides(c, events + [e], proxy, url, now);
    SlotsSpelled(c, e.proxy, e.url, proxy, url);
    CookieAdmits(c, e.solution);
    hide Run, Served, SameSlot, KeyOf, RetryHeaders, HasCookie, CookieHeader;
  }

  /** After an invalidation for the same proxy and host, and for a URL without host, a read returns nothing. */
  lemma InvalidatedIsGone(c: Config, events: seq<Event>, e: Event, proxy: string, url: string, now: int)
    requires Monotone(events, e.at) && e.at <= now
    ensures e.Invalidate? && SameSlot(c, e.proxy, e.url, proxy, url) ==> ReadAfter(c, events + [e], proxy, url, now) == []
    ensures c.hostOf(url).None? ==> ReadAfter(c, events, proxy, url, now) == []
    ensures ReadAfter(c, [], proxy, url, now) == []
  {
    Appended(c, events, e, now);
    HistoryDecides(c, events + [e], proxy, url, now);
    SlotsSpelled(c, e.proxy, e.url, proxy, url);
    SlotsSpelled(c, proxy, url, proxy, url);
  }

  lemma CookieAdmits(c: Config, solution: Solution)
    ensures HasCookie(RetryHeaders(c, solution)) <==> CookieHeader(solution.cookies).Some?
  {
    hide CookieHeader;
    var headers := RetryHeaders(c, solution);
    LowerNames();
    if CookieHeader(solution.cookies).Some? {
      assert headers[|headers| - 1].name == "cookie";
    }
  }

  lemma LowerNames()
    ensures Lower("cookie") == "cookie" && Lower("user-agent") != "cookie"
  {
    assert |Lower("user-agent")| == 10;
  }

  // ----- the headers of a solution --------------------------------------------------------------------

  /** A user agent that is not blank and fits in a header comes first, then the cookies, if any. */
  lemma HeadersSpelled(c: Config, solution: Solution)
    ensures var agent, cookie := solution.userAgent, CookieHeader(solution.cookies);
      var usable := agent.Some? && !AllSpace(agent.value) && c.fitsHeader(agent.value);
      RetryHeaders(c, solution) ==
        if usable && cookie.Some? then [Header("user-agent", agent.value), Header("cookie", cookie.value)]
        else if usable then [Header("user-agent", agent.value)]
        else if cookie.Some? then [Header("cookie", cookie.value)]
        else []
  {
    hide CookieHeader, Trim;
    if solution.userAgent.Some? {
      TrimmedAway(solution.userAgent.value);
    }
  }

  /** A name that may be sent: not blank, without semicolon and line break. */
  predicate SafeName(name: string) {
    !AllSpace(name) && ';' !in name && '\r' !in name && '\n' !in name
  }

  predicate SafeValue(value: string) {
    '\r' !in value && '\n' !in value
  }

  lemma FirstEquals(name: string, value: string)
    requires '=' !in name
    ensures var pair := name + "=" + value;
      IndexOf(pair, '=') == |name| && pair[..|name|] == name && pair[|name| + 1..] == value
  {
    IndexAfter(name, '=', value);
    assert name + ['='] + value == name + "=" + value;
  }

  lemma PairIsSafeExactlyWhen(name: string, value: string)
    requires '=' !in name
    ensures SafeCookiePair(name + "=" + value) <==> SafeName(name) && SafeValue(value)
  {
    FirstEquals(name, value);
    TrimmedAway(name);
    hide Trim, IndexOf, AllSpace;
    assert NoLineBreak(name) <==> '\r' !in name && '\n' !in name;
    assert NoLineBreak(value) <==> SafeValue(value);
  }

  /** A cookie given as text is sent as it stands, split at its first '='; without one it is not sent. */
  lemma TextCookie(name: string, value: string)
    requires '=' !in name
    ensures PairOf(Text(name + "=" + value)) ==
      if SafeName(name) && SafeValue(value) then Some(name + "=" + value) else None
    ensures PairOf(Text(name)) == None && PairOf(Other) == None
  {
    PairIsSafeExactlyWhen(name, value);
    NoEquals(name);
    hide SafeCookiePair, SafeName, SafeValue;
  }

  lemma NoEquals(text: string)
    requires '=' !in text
    ensures !SafeCookiePair(text)
  {
    forall i | 0 <= i < |text| ensures text[i] != '=' {
      assert text[i] in text;
    }
  }

  /** A cookie given by fields is sent as name and value, both trimmed; a missing field is empty. */
  lemma FieldCookie(a: string, name: string, b: string, x: string, value: string, y: string)
    requires AllSpace(a) && AllSpace(b) && AllSpace(x) && AllSpace(y)
    requires name != "" ==> !IsSpace(name[0]) && !IsSpace(name[|name| - 1])
    requires value != "" ==> !IsSpace(value[0]) && !IsSpace(value[|value| - 1])
    requires '=' !in name
    ensures PairOf(Fields(Some(a + name + b), Some(x + value + y))) ==
      if SafeName(name) && SafeValue(value) then Some(name + "=" + value) else None
    ensures PairOf(Fields(Some(a + name + b), None)) == if SafeName(name) then Some(name + "=") else None
    ensures PairOf(Fields(None, Some(x + value + y))) == None
  {
    hide Trim, IsSpace, SafeCookiePair;
    TrimPadded(a, name, b);
    TrimPadded(x, value, y);
    TrimPadded("", "", "");
    assert "" + "" + "" == "";
    PairIsSafeExactlyWhen(name, value);
    PairIsSafeExactlyWhen(name, "");
    PairIsSafeExactlyWhen("", value);
    assert name + "=" + "" == name + "=";
  }

  /** Pairs are joined with "; " in the order of the cookies; a cookie without a safe pair leaves no trace. */
  lemma CookieHeaderGrows(cookies: seq<Cookie>, cookie: Cookie)
    ensures var header := CookieHeader(Some(cookies));
      CookieHeader(Some(cookies + [cookie])) ==
        match PairOf(cookie)
        case None => header
        case Some(pair) => if header.None? then Some(pair) else Some(header.value + "; " + pair)
    ensures CookieHeader(None) == None && CookieHeader(Some([])) == None
  {
    hide PairOf;
    assert (cookies + [cookie])[..|cookies|] == cookies;
    var pairs := SafePairs(cookies);
    assert pairs + [] == pairs;
    if PairOf(cookie).Some? && pairs != [] {
      JoinAppend(pairs, PairOf(cookie).value, "; ");
    }
  }

  lemma {:induction false} JoinAppend(parts: seq<string>, last: string, separator: string)
    requires parts != []
    ensures Join(parts + [last], separator) == Join(parts, separator) + separator + last
  {
    if |parts| == 1 {
      assert (parts + [last])[1..] == [last];
    } else {
      assert (parts + [last])[1..] == parts[1..] + [last];
      JoinAppend(parts[1..], last, separator);
    }
  }
}
