/** The cache of solved clearance sessions, against the full history of calls. */
module Sessions {
  import opened Options
  import opened Text

  // ----- cookies of a solution -----------------------------------------------------------------------------

  /** A JSON value in a solution's cookie list: a string, an object (with its two string fields), or anything else. */
  datatype Cookie = Text(text: string) | Fields(name: Option<string>, value: Option<string>) | Other

  datatype Solution = Solution(userAgent: Option<string>, cookies: Option<seq<Cookie>>)

  datatype Header = Header(name: string, value: string)

  predicate NoLineBreak(s: string) {
    forall i :: 0 <= i < |s| ==> s[i] != '\r' && s[i] != '\n'
  }

  predicate SafeCookiePair(pair: string) {
    var n := IndexOf(pair, '=');
    && n < |pair|
    && Trim(pair[..n]) != []
    && ';' !in pair[..n] && NoLineBreak(pair[..n])
    && NoLineBreak(pair[n + 1..])
  }

  function OrEmpty(s: Option<string>): string {
    if s.Some? then s.value else ""
  }

  /** The pair a cookie stands for, if it is safe to send. */
  function PairOf(cookie: Cookie): Option<string> {
    match cookie
    case Text(text) => if SafeCookiePair(text) then Some(text) else None
    case Fields(name, value) =>
      var pair := Trim(OrEmpty(name)) + "=" + Trim(OrEmpty(value));
      if SafeCookiePair(pair) then Some(pair) else None
    case Other => None
  }

  function SafePairs(cookies: seq<Cookie>): seq<string> {
    if cookies == [] then []
    else
      var pair := PairOf(cookies[|cookies| - 1]);
      SafePairs(cookies[..|cookies| - 1]) + if pair.Some? then [pair.value] else []
  }

  function CookieHeader(cookies: Option<seq<Cookie>>): Option<string> {
    var pairs := SafePairs(if cookies.Some? then cookies.value else []);
    if pairs == [] then None else Some(Join(pairs, "; "))
  }

  method SolutionCookieHeader(cookies: Option<seq<Cookie>>) returns (header: Option<string>)
    ensures header == CookieHeader(cookies)
  {
    var all := if cookies.Some? then cookies.value else [];
    var pairs: seq<string> := [];
    for i := 0 to |all|
      invariant pairs == SafePairs(all[..i])
    {
      assert all[..i + 1][..i] == all[..i];
      match all[i] {
        case Text(text) =>
          if SafeCookiePair(text) {
            pairs := pairs + [text];
          }
        case Fields(name, value) =>
          var pair := Trim(OrEmpty(name)) + "=" + Trim(OrEmpty(value));
          if SafeCookiePair(pair) {
            pairs := pairs + [pair];
          }
        case Other =>
      }
    }
    assert all[..|all|] == all;
    header := if pairs == [] then None else Some(Join(pairs, "; "));
  }

  lemma PairIsSafe(cookie: Cookie)
    ensures PairOf(cookie).Some? ==> SafeCookiePair(PairOf(cookie).value)
  {
    hide SafeCookiePair, Trim;
  }

  lemma {:induction false} SafePairsComeFromCookies(cookies: seq<Cookie>)
    ensures forall i :: 0 <= i < |SafePairs(cookies)| ==> SafeCookiePair(SafePairs(cookies)[i])
    ensures SafePairs(cookies) != [] <==> exists i :: 0 <= i < |cookies| && PairOf(cookies[i]).Some?
    decreases |cookies|
  {
    hide PairOf, SafeCookiePair;
    if cookies != [] {
      var front := cookies[..|cookies| - 1];
      SafePairsComeFromCookies(front);
      PairIsSafe(cookies[|cookies| - 1]);
      if i :| 0 <= i < |front| && PairOf(front[i]).Some? {
        assert PairOf(cookies[i]).Some?;
      }
    }
  }

  lemma SafePairHasNoLineBreak(pair: string)
    requires SafeCookiePair(pair)
    ensures NoLineBreak(pair)
  {
    var n := IndexOf(pair, '=');
    forall i | 0 <= i < |pair| ensures pair[i] != '\r' && pair[i] != '\n' {
      assert i < n ==> pair[i] == pair[..n][i];
      assert i > n ==> pair[i] == pair[n + 1..][i - n - 1];
    }
  }

  lemma {:induction false} JoinHasNoLineBreak(pairs: seq<string>)
    requires forall i :: 0 <= i < |pairs| ==> NoLineBreak(pairs[i])
    ensures NoLineBreak(Join(pairs, "; "))
    decreases |pairs|
  {
    if |pairs| > 1 {
      JoinHasNoLineBreak(pairs[1..]);
    }
  }

  /** A cookie header exists exactly when some cookie yields a safe pair, and it never holds a line break. */
  lemma CookieHeaderIsSafe(cookies: seq<Cookie>)
    ensures CookieHeader(Some(cookies)).Some? <==> exists i :: 0 <= i < |cookies| && PairOf(cookies[i]).Some?
    ensures CookieHeader(Some(cookies)).Some? ==> NoLineBreak(CookieHeader(Some(cookies)).value)
  {
    SafePairsComeFromCookies(cookies);
    var pairs := SafePairs(cookies);
    forall i | 0 <= i < |pairs| ensures NoLineBreak(pairs[i]) {
      SafePairHasNoLineBreak(pairs[i]);
    }
    JoinHasNoLineBreak(pairs);
  }

  // ----- the cache -----------------------------------------------------------------------------------------

  /** Lifetime of a session, and what the libraries decide: the host of a URL, and whether text fits in a header. */
  datatype Config = Config(ttl: nat, hostOf: string -> Option<string>, fitsHeader: string -> bool)

  datatype Key = Key(proxy: string, host: string)

  datatype Session = Session(headers: seq<Header>, solvedAt: int)

  function KeyOf(c: Config, proxy: string, url: string): Option<Key> {
    var host := c.hostOf(url);
    if host.None? then None else Some(Key(proxy, Lower(host.value)))
  }

  function RetryHeaders(c: Config, solution: Solution): seq<Header> {
    var agent := solution.userAgent;
    var cookie := CookieHeader(solution.cookies);
    (if agent.Some? && Trim(agent.value) != [] && c.fitsHeader(agent.value)
     then [Header("user-agent", agent.value)] else [])
    + (if cookie.Some? then [Header("cookie", cookie.value)] else [])
  }

  predicate HasCookie(headers: seq<Header>) {
    exists i :: 0 <= i < |headers| && Lower(headers[i].name) == "cookie"
  }

  /** The clock difference, zero when it would be negative. */
  function Elapsed(since: int, now: int): nat {
    if now < since then 0 else now - since
  }

  datatype Event =
    | Read(proxy: string, url: string, at: int)
    | Store(proxy: string, url: string, solution: Solution, at: int)
    | Invalidate(proxy: string, url: string, at: int)

  function After(c: Config, sessions: map<Key, Session>, e: Event): map<Key, Session> {
    var key := KeyOf(c, e.proxy, e.url);
    if key.None? then sessions
    else
      match e
      case Read(_, _, at) =>
        if key.value in sessions && Elapsed(sessions[key.value].solvedAt, at) >= c.ttl
        then sessions - {key.value} else sessions
      case Store(_, _, solution, at) =>
        var headers := RetryHeaders(c, solution);
        if HasCookie(headers) then sessions[key.value := Session(headers, at)] else sessions
      case Invalidate(_, _, _) => sessions - {key.value}
  }

  function Run(c: Config, events: seq<Event>): map<Key, Session> {
    if events == [] then map[] else After(c, Run(c, events[..|events| - 1]), events[|events| - 1])
  }

  /** The clock never runs back, up to `now`. */
  predicate Monotone(events: seq<Event>, now: int) {
    events == [] || (events[|events| - 1].at <= now && Monotone(events[..|events| - 1], events[|events| - 1].at))
  }

  // ----- the specification: the last word of the history ---------------------------------------------------

  /** The event admits or invalidates a session under the key. */
  predicate Touches(c: Config, e: Event, key: Key) {
    KeyOf(c, e.proxy, e.url) == Some(key) && (e.Invalidate? || (e.Store? && HasCookie(RetryHeaders(c, e.solution))))
  }

  function LastWord(c: Config, events: seq<Event>, key: Key): Option<Session> {
    if events == [] then None
    else
      var e := events[|events| - 1];
      if !Touches(c, e, key) then LastWord(c, events[..|events| - 1], key)
      else if e.Store? then Some(Session(RetryHeaders(c, e.solution), e.at))
      else None
  }

  /** What a read must return, from the history alone; reads leave no trace in it. */
  function Expected(c: Config, events: seq<Event>, proxy: string, url: string, now: int): seq<Header> {
    var key := KeyOf(c, proxy, url);
    if key.None? then []
    else
      var word := LastWord(c, events, key.value);
      if word.Some? && now - word.value.solvedAt < c.ttl then word.value.headers else []
  }

  class SolvedSessionCache {
    const c: Config
    var sessions: map<Key, Session>
    ghost var history: seq<Event>

    ghost predicate Valid()
      reads this
    {
      sessions == Run(c, history)
    }

    constructor (c: Config)
      ensures Valid() && history == [] && this.c == c
    {
      this.c := c;
      sessions := map[];
      history := [];
    }

    method SessionHeaders(proxy: string, url: string, now: int) returns (headers: seq<Header>)
      requires Valid() && Monotone(history, now)
      modifies this
      ensures Valid() && history == old(history) + [Read(proxy, url, now)]
      ensures headers == Expected(c, old(history), proxy, url, now)
    {
      hide HasCookie, RetryHeaders, KeyOf, Monotone, LastWord;
      ghost var e := Read(proxy, url, now);
      assert (history + [e])[..|history|] == history;
      history := history + [e];
      var key := KeyOf(c, proxy, url);
      if key.None? {
        return [];
      }
      RunAgreesWithHistory(c, old(history), key.value, now);
      if key.value !in sessions {
        return [];
      }
      var session := sessions[key.value];
      if Elapsed(session.solvedAt, now) >= c.ttl {
        sessions := sessions - {key.value};
        return [];
      }
      return session.headers;
    }

    method StoreSolution(proxy: string, url: string, solution: Solution, now: int)
      requires Valid() && Monotone(history, now)
      modifies this
      ensures Valid() && history == old(history) + [Store(proxy, url, solution, now)]
    {
      ghost var e := Store(proxy, url, solution, now);
      assert (history + [e])[..|history|] == history;
      history := history + [e];
      var headers := RetryHeaders(c, solution);
      if !HasCookie(headers) {
        return;
      }
      var key := KeyOf(c, proxy, url);
      if key.None? {
        return;
      }
      sessions := sessions[key.value := Session(headers, now)];
    }

    method Invalidate(proxy: string, url: string, ghost now: int)
      requires Valid() && Monotone(history, now)
      modifies this
      ensures Valid() && history == old(history) + [Event.Invalidate(proxy, url, now)]
    {
      ghost var e := Event.Invalidate(proxy, url, now);
      assert (history + [e])[..|history|] == history;
      history := history + [e];
      var key := KeyOf(c, proxy, url);
      if key.None? {
        return;
      }
      sessions := sessions - {key.value};
    }
  }

  // ----- refinement ----------------------------------------------------------------------------------------

  /** What is cached is the last word; what is not has none, or one that has expired by then. */
  lemma {:induction false} RunAgreesWithHistory(c: Config, events: seq<Event>, key: Key, now: int)
    requires Monotone(events, now)
    ensures var word := LastWord(c, events, key);
      && (key in Run(c, events) ==> word == Some(Run(c, events)[key]))
      && (key !in Run(c, events) && word.Some? ==> now - word.value.solvedAt >= c.ttl)
      && (word.Some? ==> word.value.solvedAt <= now)
    decreases |events|
  {
    hide HasCookie, RetryHeaders, KeyOf;
    if events != [] {
      RunAgreesWithHistory(c, events[..|events| - 1], key, events[|events| - 1].at);
    }
  }

  /** What a read returns in a given cache. */
  function Served(c: Config, sessions: map<Key, Session>, proxy: string, url: string, now: int): seq<Header> {
    var key := KeyOf(c, proxy, url);
    if key.Some? && key.value in sessions && Elapsed(sessions[key.value].solvedAt, now) < c.ttl
    then sessions[key.value].headers else []
  }

  /** After any run under a clock that never runs back, a read returns what the full history gives. */
  lemma HistoryDecides(c: Config, events: seq<Event>, proxy: string, url: string, now: int)
    ensures Monotone(events, now) ==>
      Served(c, Run(c, events), proxy, url, now) == Expected(c, events, proxy, url, now)
  {
    hide HasCookie, RetryHeaders, KeyOf, Monotone, LastWord, Run;
    var key := KeyOf(c, proxy, url);
    if key.Some? && Monotone(events, now) {
      RunAgreesWithHistory(c, events, key.value, now);
    }
  }

  /** The event admits exactly this session under the key. */
  predicate Admits(c: Config, e: Event, key: Key, session: Session) {
    e.Store? && Touches(c, e, key) && session == Session(RetryHeaders(c, e.solution), e.at)
  }

  predicate NoneTouches(c: Config, events: seq<Event>, from: nat, key: Key) {
    forall j :: from <= j < |events| ==> !Touches(c, events[j], key)
  }

  /** The last word is the session of the last admitted store, with no invalidation and no other store after it. */
  lemma {:induction false} LastWordIsLastAdmitted(c: Config, events: seq<Event>, key: Key, session: Session)
    ensures LastWord(c, events, key) == Some(session) <==>
      exists i :: 0 <= i < |events| && Admits(c, events[i], key, session) && NoneTouches(c, events, i + 1, key)
    decreases |events|
  {
    hide Touches, RetryHeaders;
    if events != [] {
      var n := |events| - 1;
      var front := events[..n];
      LastWordIsLastAdmitted(c, front, key, session);
      if LastWord(c, events, key) == Some(session) {
        if Touches(c, events[n], key) {
          assert Admits(c, events[n], key, session) && NoneTouches(c, events, n + 1, key);
        } else {
          var i :| 0 <= i < |front| && Admits(c, front[i], key, session) && NoneTouches(c, front, i + 1, key);
          assert Admits(c, events[i], key, session);
          forall j | i + 1 <= j < |events| ensures !Touches(c, events[j], key) {
            assert j < n ==> events[j] == front[j];
          }
          assert NoneTouches(c, events, i + 1, key);
        }
      }
      if i :| 0 <= i < |events| && Admits(c, events[i], key, session) && NoneTouches(c, events, i + 1, key) {
        if i < n {
          assert !Touches(c, events[n], key);
          assert Admits(c, front[i], key, session);
          forall j | i + 1 <= j < |front| ensures !Touches(c, front[j], key) {
            assert events[j] == front[j];
          }
          assert NoneTouches(c, front, i + 1, key);
        }
      }
    }
  }

  function WithoutReads(events: seq<Event>): seq<Event> {
    if events == [] then []
    else
      WithoutReads(events[..|events| - 1]) + if events[|events| - 1].Read? then [] else [events[|events| - 1]]
  }

  lemma {:induction false} WithoutReadsKeepsWord(c: Config, events: seq<Event>, key: Key, now: int)
    requires Monotone(events, now)
    ensures LastWord(c, WithoutReads(events), key) == LastWord(c, events, key)
    ensures Monotone(WithoutReads(events), now)
    decreases |events|
  {
    hide HasCookie, RetryHeaders, KeyOf;
    if events != [] {
      var e := events[|events| - 1];
      var front := events[..|events| - 1];
      WithoutReadsKeepsWord(c, front, key, e.at);
      var rest := WithoutReads(front);
      if e.Read? {
        assert WithoutReads(events) == rest;
        if rest != [] {
          assert rest[|rest| - 1].at <= now;
        }
      } else {
        assert WithoutReads(events) == rest + [e] && (rest + [e])[..|rest|] == rest;
      }
    }
  }

  /** Dropping expired sessions on a read cannot be observed: without the reads, every later read returns the same. */
  lemma ReadsAreUnobservable(c: Config, events: seq<Event>, proxy: string, url: string, now: int)
    ensures Monotone(events, now) ==>
      Served(c, Run(c, events), proxy, url, now) == Served(c, Run(c, WithoutReads(events)), proxy, url, now)
  {
    hide HasCookie, RetryHeaders, KeyOf, Monotone, LastWord, Run;
    var key := KeyOf(c, proxy, url);
    if key.Some? && Monotone(events, now) {
      WithoutReadsKeepsWord(c, events, key.value, now);
      HistoryDecides(c, events, proxy, url, now);
      HistoryDecides(c, WithoutReads(events), proxy, url, now);
    }
  }

  /** Among the headers is a cookie header, and its value holds no line break. */
  predicate CarriesSafeCookie(headers: seq<Header>) {
    exists i :: 0 <= i < |headers| && headers[i].name == "cookie" && NoLineBreak(headers[i].value)
  }

  lemma AdmittedCarriesCookie(c: Config, solution: Solution)
    requires HasCookie(RetryHeaders(c, solution))
    ensures CarriesSafeCookie(RetryHeaders(c, solution))
  {
    var headers := RetryHeaders(c, solution);
    var i :| 0 <= i < |headers| && Lower(headers[i].name) == "cookie";
    assert headers[i].name == "user-agent" ==> |Lower(headers[i].name)| == 10;
    assert solution.cookies.Some?;
    CookieHeaderIsSafe(solution.cookies.value);
  }

  /** After any run, every cached session carries a clearance cookie: a user agent alone is never enough. */
  lemma {:induction false} EverySessionCarriesCookie(c: Config, events: seq<Event>, key: Key)
    ensures key in Run(c, events) ==> CarriesSafeCookie(Run(c, events)[key].headers)
    decreases |events|
  {
    hide HasCookie, RetryHeaders, KeyOf, CarriesSafeCookie;
    if events != [] {
      EverySessionCarriesCookie(c, events[..|events| - 1], key);
      var e := events[|events| - 1];
      if e.Store? && HasCookie(RetryHeaders(c, e.solution)) {
        AdmittedCarriesCookie(c, e.solution);
      }
    }
  }
}
