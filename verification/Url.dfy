/** Splitting a URL with the regular expression of Appendix B of RFC 3986. */
module Url {
  import opened Options

  /** The five components; None where the optional group did not take part in the match. */
  datatype Parts = Parts(scheme: Option<string>, authority: Option<string>, path: string,
                         query: Option<string>, fragment: Option<string>)

  // Inside brackets the expression is a POSIX one, in which a backslash stands for itself.
  const SCHEME_STOP: set<char> := {':', '\\', '/', '?', '#'}
  const AUTHORITY_STOP: set<char> := {'\\', '/', '?', '#'}
  const PATH_STOP: set<char> := {'?', '#'}
  const QUERY_STOP: set<char> := {'#'}

  predicate Avoids(s: string, stop: set<char>) {
    forall k | 0 <= k < |s| :: s[k] !in stop
  }

  function Before(o: Option<string>, end: string): string {
    match o case None => "" case Some(s) => s + end
  }

  function After(start: string, o: Option<string>): string {
    match o case None => "" case Some(s) => start + s
  }

  // ---------------------------------------------------------------- what the expression accepts

  /** Recomposition, section 5.3 of RFC 3986: groups 1, 3, 5, 6 and 8 one after the other. */
  function Compose(p: Parts): string {
    Before(p.scheme, ":") + (After("//", p.authority) + (p.path + (After("?", p.query) + After("#", p.fragment))))
  }

  /** The parts are one way for the expression to match; its dot does not take the NUL character. */
  predicate Matches(url: string, p: Parts) {
    && url == Compose(p)
    && (p.scheme.Some? ==> p.scheme.value != "" && Avoids(p.scheme.value, SCHEME_STOP))
    && (p.authority.Some? ==> Avoids(p.authority.value, AUTHORITY_STOP))
    && Avoids(p.path, PATH_STOP)
    && (p.query.Some? ==> Avoids(p.query.value, QUERY_STOP))
    && (p.fragment.Some? ==> Avoids(p.fragment.value, {'\0'}))
  }

  /** The expression, spelled out: an optional scheme up to a colon, an optional authority behind two
      slashes, a path, an optional query behind a question mark, an optional fragment behind a number
      sign, and which characters each of them may hold. */
  lemma MatchesIff(url: string, p: Parts)
    ensures Matches(url, p) <==>
            && url == (if p.scheme.Some? then p.scheme.value + ":" else "") +
                      ((if p.authority.Some? then "//" + p.authority.value else "") + (p.path +
                      ((if p.query.Some? then "?" + p.query.value else "") +
                       (if p.fragment.Some? then "#" + p.fragment.value else ""))))
            && (p.scheme.Some? ==> p.scheme.value != "" && forall c | c in p.scheme.value ::
                  c != ':' && c != '\\' && c != '/' && c != '?' && c != '#')
            && (p.authority.Some? ==> forall c | c in p.authority.value ::
                  c != '\\' && c != '/' && c != '?' && c != '#')
            && (forall c | c in p.path :: c != '?' && c != '#')
            && (p.query.Some? ==> '#' !in p.query.value)
            && (p.fragment.Some? ==> '\0' !in p.fragment.value)
  {
    forall s: string, stop: set<char> ensures Avoids(s, stop) <==> forall c | c in s :: c !in stop {
      AvoidsIff(s, stop);
    }
    hide Avoids;
  }

  lemma AvoidsIff(s: string, stop: set<char>)
    ensures Avoids(s, stop) <==> forall c | c in s :: c !in stop
  {
    if Avoids(s, stop) {
      forall c | c in s ensures c !in stop {
        var k :| 0 <= k < |s| && s[k] == c;
      }
    }
  }

  // ---------------------------------------------------------------- the match preferred

  /** The length of the longest prefix without the characters given. */
  function Span(s: string, stop: set<char>): (n: nat)
    ensures n <= |s| && Avoids(s[..n], stop) && (n < |s| ==> s[n] in stop)
  {
    if s == "" || s[0] in stop then 0
    else
      var n := Span(s[1..], stop);
      assert forall k | 0 < k <= n :: s[k] == s[1..][k - 1];
      1 + n
  }

  lemma SpanIs(s: string, stop: set<char>, n: nat)
    requires n <= |s| && Avoids(s[..n], stop) && (n < |s| ==> s[n] in stop)
    ensures Span(s, stop) == n
  {
  }

  function TakeScheme(s: string): (Option<string>, string) {
    var n := Span(s, SCHEME_STOP);
    if 0 < n < |s| && s[n] == ':' then (Some(s[..n]), s[n + 1..]) else (None, s)
  }

  function TakeAuthority(s: string): (Option<string>, string) {
    if "//" <= s then var n := Span(s[2..], AUTHORITY_STOP); (Some(s[2..2 + n]), s[2 + n..]) else (None, s)
  }

  function TakeQuery(s: string): (Option<string>, string) {
    if "?" <= s then var n := Span(s[1..], QUERY_STOP); (Some(s[1..1 + n]), s[1 + n..]) else (None, s)
  }

  /** The match in which each group in turn is as long as it can be. */
  function Split(url: string): Option<Parts> {
    var (scheme, s) := TakeScheme(url);
    var (authority, t) := TakeAuthority(s);
    var n := Span(t, PATH_STOP);
    var (query, u) := TakeQuery(t[n..]);
    if u == "" then Some(Parts(scheme, authority, t[..n], query, None))
    else if Avoids(u[1..], {'\0'}) then Some(Parts(scheme, authority, t[..n], query, Some(u[1..])))
    else None
  }

  // ---------------------------------------------------------------- each stage

  /** A scheme would be read off the front. */
  predicate SchemeLike(s: string) {
    var n := Span(s, SCHEME_STOP);
    0 < n < |s| && s[n] == ':'
  }

  lemma SchemeTaken(s: string)
    ensures var (o, rest) := TakeScheme(s);
            && s == Before(o, ":") + rest
            && (o.Some? ==> o.value != "" && Avoids(o.value, SCHEME_STOP))
            && (o.None? ==> !SchemeLike(s))
  {
  }

  lemma SchemeIs(o: Option<string>, rest: string)
    requires o.Some? ==> o.value != "" && Avoids(o.value, SCHEME_STOP)
    requires o.None? ==> !SchemeLike(rest)
    ensures TakeScheme(Before(o, ":") + rest) == (o, rest)
  {
    if o.Some? {
      var s := o.value + ":" + rest;
      assert s[..|o.value|] == o.value;
      SpanIs(s, SCHEME_STOP, |o.value|);
      assert s[|o.value| + 1..] == rest;
    } else {
      assert "" + rest == rest;
    }
  }

  lemma Cut(s: string, i: nat, n: nat)
    requires i + n <= |s|
    ensures s[i..][..n] == s[i..i + n] && s == s[..i] + s[i..i + n] + s[i + n..]
  {
  }

  lemma AuthorityTaken(s: string)
    ensures var (o, rest) := TakeAuthority(s);
            && s == After("//", o) + rest
            && (o.Some? ==> Avoids(o.value, AUTHORITY_STOP) && (rest == "" || rest[0] in AUTHORITY_STOP))
            && (o.None? ==> !("//" <= rest))
  {
    if "//" <= s { Cut(s, 2, Span(s[2..], AUTHORITY_STOP)); }
    hide Avoids;
  }

  lemma AuthorityIs(o: Option<string>, rest: string)
    requires o.Some? ==> Avoids(o.value, AUTHORITY_STOP) && (rest == "" || rest[0] in AUTHORITY_STOP)
    requires o.None? ==> !("//" <= rest)
    ensures TakeAuthority(After("//", o) + rest) == (o, rest)
  {
    if o.Some? {
      var s := "//" + o.value + rest;
      assert s[2..] == o.value + rest && s[2..][..|o.value|] == o.value;
      SpanIs(s[2..], AUTHORITY_STOP, |o.value|);
      assert s[2..2 + |o.value|] == o.value && s[2 + |o.value|..] == rest;
    } else {
      assert "" + rest == rest;
    }
  }

  lemma QueryTaken(s: string)
    requires s == "" || s[0] in PATH_STOP
    ensures var (o, rest) := TakeQuery(s);
            && s == After("?", o) + rest
            && (o.Some? ==> Avoids(o.value, QUERY_STOP))
            && (rest == "" || rest[0] == '#')
  {
    if "?" <= s { Cut(s, 1, Span(s[1..], QUERY_STOP)); }
    hide Avoids;
  }

  lemma QueryIs(o: Option<string>, rest: string)
    requires (o.Some? ==> Avoids(o.value, QUERY_STOP)) && (rest == "" || rest[0] == '#')
    ensures TakeQuery(After("?", o) + rest) == (o, rest)
  {
    if o.Some? {
      var s := "?" + o.value + rest;
      assert s[1..] == o.value + rest && s[1..][..|o.value|] == o.value;
      SpanIs(s[1..], QUERY_STOP, |o.value|);
      assert s[1..1 + |o.value|] == o.value && s[1 + |o.value|..] == rest;
    } else {
      assert "" + rest == rest;
    }
  }

  // ---------------------------------------------------------------- splitting and recomposing

  /** Parts that say where they end: an authority is not run on by the path, and a path does not
      look like an authority or a scheme that is absent. */
  predicate WellFormed(p: Parts) {
    && Matches(Compose(p), p)
    && (p.authority.Some? ==> p.path == "" || p.path[0] in AUTHORITY_STOP)
    && (p.authority.None? ==> !("//" <= p.path))
    && (p.scheme.None? && p.authority.None? ==> !SchemeLike(p.path))
  }

  function Tail(p: Parts): string {
    After("?", p.query) + After("#", p.fragment)
  }

  lemma TailStarts(p: Parts)
    ensures Tail(p) == "" || Tail(p)[0] in PATH_STOP
  {
  }

  /** What follows a path tells nothing new about how it starts. */
  lemma PathStarts(path: string, tail: string)
    requires Avoids(path, PATH_STOP) && (tail == "" || tail[0] in PATH_STOP)
    ensures SchemeLike(path + tail) <==> SchemeLike(path)
    ensures "//" <= path + tail <==> "//" <= path
    ensures path + tail == "" || (path + tail)[0] in AUTHORITY_STOP <==> path == "" || path[0] in AUTHORITY_STOP
  {
    var n := Span(path, SCHEME_STOP);
    assert (path + tail)[..n] == path[..n];
    SpanIs(path + tail, SCHEME_STOP, n);
  }

  lemma AuthorityIsNoScheme(o: Option<string>, rest: string)
    requires o.Some?
    ensures !SchemeLike(After("//", o) + rest)
  {
  }

  /** Splitting finds a match, and one that is well formed. */
  lemma SplitIsWellFormed(url: string)
    requires Split(url).Some?
    ensures Matches(url, Split(url).value) && WellFormed(Split(url).value)
  {
    hide TakeScheme, TakeAuthority, TakeQuery, SchemeLike, Matches, WellFormed, Before, After, Avoids;
    var p := Split(url).value;
    var (_, s) := TakeScheme(url);
    var (_, t) := TakeAuthority(s);
    var n := Span(t, PATH_STOP);
    var (_, u) := TakeQuery(t[n..]);
    SchemeTaken(url);
    AuthorityTaken(s);
    QueryTaken(t[n..]);
    FragmentTaken(u);
    assert t == t[..n] + t[n..];
    StagesFit(url, p, s, t);
  }

  lemma FragmentTaken(u: string)
    requires u == "" || u[0] == '#'
    ensures u == After("#", if u == "" then None else Some(u[1..]))
  {
  }

  lemma StagesFit(url: string, p: Parts, s: string, t: string)
    requires url == Before(p.scheme, ":") + s && s == After("//", p.authority) + t && t == p.path + Tail(p)
    requires if p.scheme.Some? then p.scheme.value != "" && Avoids(p.scheme.value, SCHEME_STOP) else !SchemeLike(url)
    requires if p.authority.None? then !("//" <= t)
             else Avoids(p.authority.value, AUTHORITY_STOP) && (t == "" || t[0] in AUTHORITY_STOP)
    requires Avoids(p.path, PATH_STOP) && (p.query.Some? ==> Avoids(p.query.value, QUERY_STOP))
             && (p.fragment.Some? ==> Avoids(p.fragment.value, {'\0'}))
    ensures Matches(url, p) && WellFormed(p)
  {
    TailStarts(p);
    PathStarts(p.path, Tail(p));
    assert p.scheme.None? ==> url == s;
    assert p.authority.None? ==> s == t;
    hide SchemeLike, Tail;
  }

  lemma WellFormedIsSplit(p: Parts)
    requires WellFormed(p)
    ensures Split(Compose(p)) == Some(p)
  {
    var u := After("#", p.fragment);
    var rest := p.path + Tail(p);
    TailStarts(p);
    PathStarts(p.path, Tail(p));
    var s := After("//", p.authority) + rest;
    assert p.authority.None? ==> s == rest;
    if p.authority.Some? { AuthorityIsNoScheme(p.authority, rest); }
    SchemeIs(p.scheme, s);
    AuthorityIs(p.authority, rest);
    assert rest[..|p.path|] == p.path && rest[|p.path|..] == Tail(p);
    SpanIs(rest, PATH_STOP, |p.path|);
    QueryIs(p.query, u);
    hide TakeScheme, TakeAuthority, TakeQuery, SchemeLike;
    assert p.fragment.Some? ==> u[1..] == p.fragment.value;
  }

  /** Recomposed parts split into themselves exactly when they are well formed. */
  lemma RecompositionSplitsBackIff(p: Parts)
    ensures Split(Compose(p)) == Some(p) <==> WellFormed(p)
  {
    hide Split, WellFormed;
    if WellFormed(p) { WellFormedIsSplit(p); }
    if Split(Compose(p)) == Some(p) { SplitIsWellFormed(Compose(p)); }
  }

  // ---------------------------------------------------------------- the match is the preferred one

  /** Any other match gives an earlier group less: the scheme, or else the authority. */
  lemma SplitIsPreferred(url: string, q: Parts)
    requires Matches(url, q) && Split(url).Some?
    ensures var p := Split(url).value;
            || q == p
            || (q.scheme.None? && p.scheme.Some?)
            || (q.scheme == p.scheme && |After("//", q.authority)| < |After("//", p.authority)|)
  {
    SplitGroups(url);
    hide Split, TakeScheme, TakeAuthority, SchemeLike;
    if WellFormed(q) {
      WellFormedIsSplit(q);
    } else {
      var rest := q.path + Tail(q);
      TailStarts(q);
      PathStarts(q.path, Tail(q));
      UnlikeSplit(url, q, rest);
    }
  }

  lemma SplitGroups(url: string)
    requires Split(url).Some?
    ensures Split(url).value.scheme == TakeScheme(url).0
    ensures Split(url).value.authority == TakeAuthority(TakeScheme(url).1).0
  {
  }

  lemma UnlikeSplit(url: string, q: Parts, rest: string)
    requires Matches(url, q) && url == Before(q.scheme, ":") + (After("//", q.authority) + rest)
    requires || (q.scheme.None? && q.authority.None? && SchemeLike(rest))
             || (if q.authority.Some? then rest != "" && rest[0] !in AUTHORITY_STOP else "//" <= rest)
    ensures || (q.scheme.None? && TakeScheme(url).0.Some?)
            || (TakeScheme(url).0 == q.scheme &&
                |After("//", q.authority)| < |After("//", TakeAuthority(TakeScheme(url).1).0)|)
  {
    if q.scheme.None? && q.authority.None? && SchemeLike(rest) {
      assert url == rest;
    } else {
      LongerAuthority(url, q, rest);
    }
  }

  lemma LongerAuthority(url: string, q: Parts, rest: string)
    requires Matches(url, q) && url == Before(q.scheme, ":") + (After("//", q.authority) + rest)
    requires q.scheme.None? && q.authority.None? ==> !SchemeLike(rest)
    requires if q.authority.Some? then rest != "" && rest[0] !in AUTHORITY_STOP else "//" <= rest
    ensures TakeScheme(url).0 == q.scheme
    ensures |After("//", q.authority)| < |After("//", TakeAuthority(TakeScheme(url).1).0)|
  {
    hide TakeScheme, TakeAuthority, SchemeLike, Before, Avoids;
    var s := After("//", q.authority) + rest;
    if q.authority.Some? { AuthorityIsNoScheme(q.authority, rest); } else { assert s == rest; }
    SchemeIs(q.scheme, s);
    AuthorityRunsOn(q.authority, rest);
  }

  lemma AuthorityRunsOn(o: Option<string>, rest: string)
    requires if o.None? then "//" <= rest
             else Avoids(o.value, AUTHORITY_STOP) && rest != "" && rest[0] !in AUTHORITY_STOP
    ensures |After("//", o)| < |After("//", TakeAuthority(After("//", o) + rest).0)|
  {
  }

  /** What the URL holds from its first number sign on. */
  function FromHash(url: string): string {
    url[Span(url, QUERY_STOP)..]
  }

  lemma FromHashIs(prefix: string, u: string)
    requires Avoids(prefix, QUERY_STOP) && (u == "" || u[0] == '#')
    ensures FromHash(prefix + u) == u
  {
    assert (prefix + u)[..|prefix|] == prefix;
    SpanIs(prefix + u, QUERY_STOP, |prefix|);
  }

  /** Nothing before the fragment holds a number sign. */
  lemma BeforeHash(scheme: Option<string>, authority: Option<string>, path: string, query: Option<string>)
    requires (scheme.Some? ==> Avoids(scheme.value, SCHEME_STOP))
             && (authority.Some? ==> Avoids(authority.value, AUTHORITY_STOP))
    requires Avoids(path, PATH_STOP) && (query.Some? ==> Avoids(query.value, QUERY_STOP))
    ensures Avoids(Before(scheme, ":") + (After("//", authority) + (path + After("?", query))), QUERY_STOP)
  {
  }

  lemma MatchFromHash(url: string, q: Parts)
    requires Matches(url, q)
    ensures FromHash(url) == After("#", q.fragment)
  {
    BeforeHash(q.scheme, q.authority, q.path, q.query);
    var prefix := Before(q.scheme, ":") + (After("//", q.authority) + (q.path + After("?", q.query)));
    assert url == prefix + After("#", q.fragment);
    FromHashIs(prefix, After("#", q.fragment));
  }

  lemma SplitFromHash(url: string)
    ensures Split(url).Some? <==> Avoids(FromHash(url), {'\0'})
  {
    hide TakeScheme, TakeAuthority, TakeQuery, SchemeLike, Before, After, FromHash;
    var (scheme, s) := TakeScheme(url);
    var (authority, t) := TakeAuthority(s);
    var n := Span(t, PATH_STOP);
    var (query, u) := TakeQuery(t[n..]);
    SchemeTaken(url);
    AuthorityTaken(s);
    QueryTaken(t[n..]);
    BeforeHash(scheme, authority, t[..n], query);
    Regroup(Before(scheme, ":"), After("//", authority), t[..n], After("?", query), u);
    assert t == t[..n] + t[n..];
    FromHashIs(Before(scheme, ":") + (After("//", authority) + (t[..n] + After("?", query))), u);
  }

  lemma Regroup(a: string, b: string, c: string, d: string, u: string)
    ensures (a + (b + (c + d))) + u == a + (b + (c + (d + u)))
  {
  }

  /** A URL is malformed, which is to say that nothing matches, exactly when there is a NUL
      character behind its first number sign. */
  lemma MalformedIff(url: string)
    ensures Split(url).None? <==> !Avoids(FromHash(url), {'\0'})
    ensures Split(url).None? <==> forall q :: !Matches(url, q)
  {
    SplitFromHash(url);
    if Split(url).Some? {
      SplitIsWellFormed(url);
    } else {
      forall q ensures !Matches(url, q) {
        if Matches(url, q) { MatchFromHash(url, q); }
      }
    }
  }

  // ---------------------------------------------------------------- the groups handed out

  function OrEmpty(o: Option<string>): string {
    match o case None => "" case Some(s) => s
  }

  /** The groups of the match; one that took no part reads as empty. */
  function Groups(p: Parts): seq<string> {
    [Compose(p), Before(p.scheme, ":"), OrEmpty(p.scheme), After("//", p.authority), OrEmpty(p.authority),
     p.path, After("?", p.query), OrEmpty(p.query), After("#", p.fragment), OrEmpty(p.fragment)]
  }

  /** An absent component can still be told from an empty one. */
  lemma GroupsDetermineParts(p: Parts, q: Parts)
    requires Groups(p) == Groups(q)
    ensures p == q
  {
  }

  /** A component and the same with its mark: both empty, or one is the other with the mark. */
  predicate Marked(whole: string, before: string, bare: string, after: string) {
    (whole == "" && bare == "") || whole == before + bare + after
  }

  predicate HasGroups(g: map<int, string>) {
    forall i | 0 <= i < 10 :: i in g
  }

  /** What the ten groups are, for callers that read them by number. */
  predicate GroupsOf(url: string, g: map<int, string>)
    requires HasGroups(g)
  {
    && g[0] == url == g[1] + g[3] + g[5] + g[6] + g[8]
    && Marked(g[1], "", g[2], ":") && Marked(g[3], "//", g[4], "") && Marked(g[6], "?", g[7], "")
    && Marked(g[8], "#", g[9], "")
    && (g[1] != "" ==> g[2] != "")
    && (forall c | c in g[2] :: c != ':' && c != '\\' && c != '/' && c != '?' && c != '#')
    && (forall c | c in g[4] :: c != '\\' && c != '/' && c != '?' && c != '#')
    && (forall c | c in g[5] :: c != '?' && c != '#')
    && '#' !in g[7] && '\0' !in g[9]
  }

  lemma MarkedIf(start: string, o: Option<string>, end: string)
    ensures Marked(Before(o, end), "", OrEmpty(o), end) && Marked(After(start, o), start, OrEmpty(o), "")
  {
    assert "" + OrEmpty(o) + end == OrEmpty(o) + end;
    assert start + OrEmpty(o) + "" == start + OrEmpty(o);
  }

  lemma GroupsAre(url: string, g: map<int, string>)
    requires Split(url).Some? && |Groups(Split(url).value)| == 10
    requires forall i | 0 <= i < 10 :: i in g && g[i] == Groups(Split(url).value)[i]
    ensures HasGroups(g) && GroupsOf(url, g)
  {
    var p := Split(url).value;
    SplitLossless(url);
    SplitIsWellFormed(url);
    MatchesIff(url, p);
    MarkedIf("", p.scheme, ":");
    MarkedIf("//", p.authority, "");
    MarkedIf("?", p.query, "");
    MarkedIf("#", p.fragment, "");
    assert Before(p.scheme, ":") != "" ==> p.scheme.Some?;
    hide Split, Matches, WellFormed, Compose, Before, After, Marked;
  }

  /** A NUL character behind a number sign. */
  predicate NulAfterHash(url: string) {
    exists i, j | 0 <= i < j < |url| :: url[i] == '#' && url[j] == '\0'
  }

  lemma MalformedIsNulAfterHash(url: string)
    ensures Split(url).None? <==> NulAfterHash(url)
  {
    MalformedIff(url);
    hide Split, Matches;
    NulFromHash(url, Span(url, QUERY_STOP));
  }

  lemma NulFromHash(url: string, n: nat)
    requires n <= |url| && Avoids(url[..n], QUERY_STOP) && (n < |url| ==> url[n] == '#')
    ensures Avoids(url[n..], {'\0'}) <==> !NulAfterHash(url)
  {
    if !Avoids(url[n..], {'\0'}) {
      var j :| 0 <= j < |url[n..]| && url[n..][j] == '\0';
      assert url[n] == '#' && url[n + j] == '\0';
    }
    if NulAfterHash(url) {
      forall k | 0 <= k < n ensures url[k] != '#' { assert url[..n][k] == url[k]; }
      var i, j :| 0 <= i < j < |url| && url[i] == '#' && url[j] == '\0';
      assert url[n..][j - n] == '\0';
    }
  }

  /** parse_url: a malformed URL leaves the map alone; entries other than the ten groups stay. */
  method ParseUrl(url: string, parts: map<int, string>) returns (ok: bool, parts': map<int, string>)
    ensures ok <==> Split(url).Some?
    ensures ok <==> !NulAfterHash(url)
    ensures !ok ==> parts' == parts
    ensures ok ==> forall i | 0 <= i < 10 :: i in parts' && parts'[i] == Groups(Split(url).value)[i]
    ensures ok ==> HasGroups(parts') && GroupsOf(url, parts')
    ensures ok ==> forall i | !(0 <= i < 10) :: (i in parts' <==> i in parts) && (i in parts ==> parts'[i] == parts[i])
  {
    MalformedIsNulAfterHash(url);
    hide *;
    var found := Split(url);
    if found.None? {
      return false, parts;
    }
    SplitLossless(url);
    parts' := CopyOut(Groups(found.value), parts);
    GroupsAre(url, parts');
    return true, parts';
  }

  method CopyOut(groups: seq<string>, parts: map<int, string>) returns (parts': map<int, string>)
    ensures forall i | 0 <= i < |groups| :: i in parts' && parts'[i] == groups[i]
    ensures forall i | !(0 <= i < |groups|) :: (i in parts' <==> i in parts) && (i in parts ==> parts'[i] == parts[i])
  {
    parts' := parts;
    for i := 0 to |groups|
      invariant forall j | 0 <= j < i :: j in parts' && parts'[j] == groups[j]
      invariant forall j | !(0 <= j < i) :: (j in parts' <==> j in parts) && (j in parts ==> parts'[j] == parts[j])
    {
      parts' := parts'[i := groups[i]];
    }
  }

  /** Groups 1, 3, 5, 6 and 8 make up the input. */
  lemma SplitLossless(url: string)
    requires Split(url).Some?
    ensures var g := Groups(Split(url).value);
            |g| == 10 && g[0] == url == g[1] + g[3] + g[5] + g[6] + g[8]
  {
    hide Split, WellFormed, Before, After, Avoids;
    SplitIsWellFormed(url);
    var p := Split(url).value;
    Concatenated(Before(p.scheme, ":"), After("//", p.authority), p.path, After("?", p.query), After("#", p.fragment));
  }

  lemma Concatenated(a: string, b: string, c: string, d: string, e: string)
    ensures a + (b + (c + (d + e))) == a + b + c + d + e
  {
  }
}
