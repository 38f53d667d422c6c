/**
 * The `auth` middleware: whitelist by URL prefix, take the bearer token
 * from the Authorization header, verify it, look the user up by the
 * token's email and attach `{ id, email, name }` to the request.
 *
 * The whitelist holds "/", so every URL that starts with "/" is let
 * through. The `db` the middleware queries is the module's connection
 * function, which has no `query` method; `DbHandle` keeps that case.
 */
module Auth {
  import opened Wrappers
  import opened Js
  import opened Database
  import opened UserService

  const WhiteList: seq<string> := ["/", "/register", "/login"]

  /** `s.startsWith(prefix)` */
  predicate StartsWith(s: string, prefix: string) {
    |prefix| <= |s| && s[..|prefix|] == prefix
  }

  /** `list.find(item => url.startsWith(item))` */
  function FindPrefix(list: seq<string>, url: string): (r: Option<string>)
    ensures r.Some? ==> r.value in list && StartsWith(url, r.value)
    ensures r.None? ==> forall item :: item in list ==> !StartsWith(url, item)
  {
    if list == [] then None
    else if StartsWith(url, list[0]) then Some(list[0])
    else FindPrefix(list[1..], url)
  }

  /** The `find` result is a non-empty string, hence truthy, whenever there is one. */
  predicate Whitelisted(url: string) {
    FindPrefix(WhiteList, url).Some?
  }

  /** Whitelisted exactly when the URL starts with "/". */
  lemma WhitelistedIffRooted(url: string)
    ensures Whitelisted(url) <==> |url| >= 1 && url[0] == '/'
  {
    if |url| >= 1 && url[0] == '/' {
      assert StartsWith(url, WhiteList[0]);
    }
    if Whitelisted(url) {
      var item := FindPrefix(WhiteList, url).value;
      assert item[0] == '/';
      assert url[..|item|][0] == url[0];
    }
  }

  // ---------------------------------------------------------------- split

  /** `s.split(sep)` */
  function Split(s: string, sep: char): (r: seq<string>)
    ensures |r| >= 1
    ensures forall i :: 0 <= i < |r| ==> sep !in r[i]
  {
    if s == [] then [""]
    else
      var rest := Split(s[1..], sep);
      if s[0] == sep then [""] + rest
      else [[s[0]] + rest[0]] + rest[1..]
  }

  /** `fields.join(sep)` */
  function Join(fields: seq<string>, sep: char): string
    requires |fields| >= 1
  {
    if |fields| == 1 then fields[0] else fields[0] + [sep] + Join(fields[1..], sep)
  }

  lemma {:induction false} JoinConsHead(c: char, fields: seq<string>, sep: char)
    requires |fields| >= 1
    ensures Join([[c] + fields[0]] + fields[1..], sep) == [c] + Join(fields, sep)
  {
    var g := [[c] + fields[0]] + fields[1..];
    assert g[1..] == fields[1..];
  }

  /** Joining the fields gives back the string. */
  lemma {:induction false} JoinSplit(s: string, sep: char)
    ensures Join(Split(s, sep), sep) == s
  {
    if s != [] {
      JoinSplit(s[1..], sep);
      var rest := Split(s[1..], sep);
      if s[0] == sep {
        assert ([""] + rest)[1..] == rest;
      } else {
        JoinConsHead(s[0], rest, sep);
      }
      assert s == [s[0]] + s[1..];
    }
  }

  lemma {:induction false} SplitPrefix(a: string, b: string, sep: char)
    requires sep !in a
    ensures Split(a + [sep] + b, sep) == [a] + Split(b, sep)
  {
    if a == [] {
      assert ([sep] + b)[1..] == b;
    } else {
      assert (a + [sep] + b)[1..] == a[1..] + [sep] + b;
      SplitPrefix(a[1..], b, sep);
      assert a == [a[0]] + a[1..];
    }
  }

  lemma {:induction false} SplitNoSep(s: string, sep: char)
    requires sep !in s
    ensures Split(s, sep) == [s]
  {
    if s != [] {
      SplitNoSep(s[1..], sep);
      assert s == [s[0]] + s[1..];
    }
  }

  /** Splitting a join of separator-free fields gives back the fields. */
  lemma {:induction false} SplitJoin(fields: seq<string>, sep: char)
    requires |fields| >= 1
    requires forall i :: 0 <= i < |fields| ==> sep !in fields[i]
    ensures Split(Join(fields, sep), sep) == fields
  {
    if |fields| == 1 {
      SplitNoSep(fields[0], sep);
    } else {
      SplitJoin(fields[1..], sep);
      SplitPrefix(fields[0], Join(fields[1..], sep), sep);
      assert fields == [fields[0]] + fields[1..];
    }
  }

  // ---------------------------------------------------------------- token

  /** `req.headers.authorization?.split(' ')[1]` */
  function TokenOf(authorization: Val): (t: Val)
    ensures t == Undefined || t.Str?
  {
    match authorization
    case Str(h) =>
      var fields := Split(h, ' ');
      if |fields| >= 2 then Str(fields[1]) else Undefined
    case _ => Undefined
  }

  /** "Bearer <t>" carries the token t; a header without a space carries none. */
  lemma BearerToken(scheme: string, t: string)
    requires ' ' !in scheme && ' ' !in t
    ensures TokenOf(Str(scheme + " " + t)) == Str(t)
    ensures TokenOf(Str(scheme)) == Undefined
  {
    SplitJoin([scheme, t], ' ');
    assert Join([scheme, t], ' ') == scheme + " " + t;
    SplitNoSep(scheme, ' ');
  }

  // ---------------------------------------------------------------- outcome

  /** The `db` the middleware calls `.query` on. */
  datatype DbHandle =
    | ConnectionFactory
    | QueryConnection(users: seq<UserRow>, fails: bool)

  /** `req.user` */
  datatype ReqUser = ReqUser(id: nat, email: Val, name: Val)

  datatype Outcome =
    | Next
    | Authenticated(user: ReqUser)
    | Unauthorized401
    | ServerError500

  /**
   * What `auth(req, res, next)` does. `verify` is `jwt.verify` with the
   * server's secret: the decoded claims, or None when it throws.
   */
  function Decide(url: string, authorization: Val, verify: string -> Option<map<string, Val>>, db: DbHandle): (r: Outcome)
    ensures r == Next <==> Whitelisted(url)
    ensures r == ServerError500 ==> db.QueryConnection? && db.fails
    ensures r.Authenticated? ==> db.QueryConnection? && !db.fails && Truthy(TokenOf(authorization))
  {
    if Whitelisted(url) then Next
    else
      var token := TokenOf(authorization);
      if !Truthy(token) then Unauthorized401
      else
        match verify(token.s)
        case None => Unauthorized401
        case Some(decoded) =>
          match db
          case ConnectionFactory => Unauthorized401 // `db.query` is not a function: the catch answers 401
          case QueryConnection(users, fails) =>
            if fails then ServerError500
            else
              match UserByEmail(users, Prop(decoded, "email"))
              case None => Unauthorized401
              case Some(u) => Authenticated(ReqUser(u.id, u.email, u.name))
  }

  /** Every URL starting with "/" is passed to `next()` whatever the header. */
  lemma RootedUrlsBypassAuth(url: string, authorization: Val, verify: string -> Option<map<string, Val>>, db: DbHandle)
    requires |url| >= 1 && url[0] == '/'
    ensures Decide(url, authorization, verify, db) == Next
  {
    WhitelistedIffRooted(url);
  }

  /** Outside the whitelist, a missing or empty token is 401 and `next()` is not called. */
  lemma NoTokenUnauthorized(url: string, authorization: Val, verify: string -> Option<map<string, Val>>, db: DbHandle)
    requires !Whitelisted(url) && !Truthy(TokenOf(authorization))
    ensures Decide(url, authorization, verify, db) == Unauthorized401
  {
  }

  /** Outside the whitelist, a token `jwt.verify` rejects is 401 from the catch. */
  lemma RejectedTokenUnauthorized(url: string, authorization: Val, verify: string -> Option<map<string, Val>>, db: DbHandle)
    requires !Whitelisted(url) && Truthy(TokenOf(authorization))
    requires verify(TokenOf(authorization).s).None?
    ensures Decide(url, authorization, verify, db) == Unauthorized401
  {
  }

  /** A verified token whose user lookup fails is 500. */
  lemma LookupErrorServerError(url: string, authorization: Val, verify: string -> Option<map<string, Val>>, users: seq<UserRow>)
    requires !Whitelisted(url) && Truthy(TokenOf(authorization))
    requires verify(TokenOf(authorization).s).Some?
    ensures Decide(url, authorization, verify, QueryConnection(users, true)) == ServerError500
  {
  }

  /**
   * A verified token whose email claim matches no user is 401; one that
   * matches authenticates the first user with that email.
   */
  lemma LookupDecides(url: string, authorization: Val, verify: string -> Option<map<string, Val>>, users: seq<UserRow>)
    requires !Whitelisted(url) && Truthy(TokenOf(authorization))
    requires verify(TokenOf(authorization).s).Some?
    ensures var found := UserByEmail(users, Prop(verify(TokenOf(authorization).s).value, "email"));
      Decide(url, authorization, verify, QueryConnection(users, false)) ==
        if found.None? then Unauthorized401
        else Authenticated(ReqUser(found.value.id, found.value.email, found.value.name))
  {
  }

  /** With the connection function as `db`, no request is ever authenticated. */
  lemma FactoryNeverAuthenticates(url: string, authorization: Val, verify: string -> Option<map<string, Val>>)
    ensures !Decide(url, authorization, verify, ConnectionFactory).Authenticated?
    ensures Decide(url, authorization, verify, ConnectionFactory) in {Next, Unauthorized401}
  {
  }

  /**
   * An authenticated request carries exactly the id, email and name of a
   * user row whose email equals the token's email claim.
   */
  lemma AuthenticatedIsStoredUser(url: string, authorization: Val, verify: string -> Option<map<string, Val>>,
                                  users: seq<UserRow>, fails: bool)
    requires Decide(url, authorization, verify, QueryConnection(users, fails)).Authenticated?
    ensures var token := TokenOf(authorization);
      && !Whitelisted(url) && !fails && token.Str? && verify(token.s).Some?
      && exists u :: u in users && SqlTextEquals(u.email, Prop(verify(token.s).value, "email"))
           && Decide(url, authorization, verify, QueryConnection(users, fails)).user == ReqUser(u.id, u.email, u.name)
  {
    var token := TokenOf(authorization);
    var u := UserByEmail(users, Prop(verify(token.s).value, "email")).value;
    assert u in users;
  }
}
