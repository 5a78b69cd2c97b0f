/**
 * The client-side decisions of services/authService.js: which server response counts
 * as authenticated, which language to show, and where the token comes from. Browser
 * state (storage, the URL's `au` parameter, `document.cookie`, `navigator`) arrives
 * as parameters; storage writes and URL rewriting are not modelled.
 */
module AuthService {
  import opened Wrappers
  import opened Text
  import Accounts

  /** A decoded JSON value. Numbers are integers here; an object keeps its members in order. */
  datatype Json =
    | JNull
    | JBool(b: bool)
    | JNum(n: int)
    | JStr(s: string)
    | JArr(items: seq<Json>)
    | JObj(members: seq<(string, Json)>)

  /** JavaScript truthiness of a value; `undefined` is a missing member. */
  predicate Truthy(v: Option<Json>)
  {
    match v
    case None => false
    case Some(JNull) => false
    case Some(JBool(b)) => b
    case Some(JNum(n)) => n != 0
    case Some(JStr(s)) => s != ""
    case Some(JArr(_)) => true
    case Some(JObj(_)) => true
  }

  /** Position of the last member named `k`. */
  function LastIndexOf(members: seq<(string, Json)>, k: string): (r: Option<nat>)
    ensures r.None? <==> forall i :: 0 <= i < |members| ==> members[i].0 != k
    ensures r.Some? ==> r.value < |members| && members[r.value].0 == k
                        && forall j :: r.value < j < |members| ==> members[j].0 != k
  {
    if |members| == 0 then None
    else if members[|members| - 1].0 == k then Some(|members| - 1)
    else LastIndexOf(members[..|members| - 1], k)
  }

  /** The member named `k`; with a repeated name `JSON.parse` keeps the last one. */
  function Member(members: seq<(string, Json)>, k: string): (r: Option<Json>)
    ensures r.Some? <==> exists i :: 0 <= i < |members| && members[i].0 == k
    ensures r.Some? ==> exists i :: 0 <= i < |members| && members[i] == (k, r.value)
                                    && forall j :: i < j < |members| ==> members[j].0 != k
  {
    match LastIndexOf(members, k)
    case None => None
    case Some(i) => Some(members[i].1)
  }

  /** Property access `resp.k`: only an object has named members. */
  function Prop(v: Json, k: string): Option<Json>
  {
    if v.JObj? then Member(v.members, k) else None
  }

  /** `Object.keys(resp).includes(k)`; an array's keys are its indices, which no hint matches. */
  predicate HasKey(v: Json, k: string)
  {
    v.JObj? && exists i :: 0 <= i < |v.members| && v.members[i].0 == k
  }

  const IdentityHints: seq<string> := ["user", "user_id", "uid", "email", "name"]

  /** One of `valid`, `success`, `ok` is the boolean `true`. */
  predicate ExplicitlyValid(resp: Json)
  {
    Prop(resp, "valid") == Some(JBool(true)) || Prop(resp, "success") == Some(JBool(true))
    || Prop(resp, "ok") == Some(JBool(true))
  }

  /** `isValidAuthResponse`. */
  function IsValidAuthResponse(resp: Json): (r: bool)
    ensures r ==> resp.JObj?
    ensures Truthy(Prop(resp, "error")) ==> !r
    ensures r <==> resp.JObj? && !Truthy(Prop(resp, "error"))
                   && (ExplicitlyValid(resp) || exists k :: k in IdentityHints && HasKey(resp, k))
  {
    if !Truthy(Some(resp)) || !(resp.JObj? || resp.JArr?) then false
    else if Truthy(Prop(resp, "error")) then false
    else if ExplicitlyValid(resp) then true
    else exists k :: k in IdentityHints && HasKey(resp, k)
  }

  function TokenJson(token: Option<string>): Json
  {
    match token
    case Some(t) => JStr(t)
    case None => JNull
  }

  /** The JSON that check_session.php sends for an `authUser` reply. */
  function AuthReplyJson(r: Accounts.AuthReply): Json
  {
    match r
    case Authenticated(user, token) =>
      JObj([("status", JStr("authenticated")),
            ("user", JObj([("username", JStr(user.username)), ("lang", JStr(user.lang)), ("email", JStr(user.email))])),
            ("received_token", TokenJson(token))])
    case AuthInvalidToken(token) =>
      JObj([("status", JStr("invalid_token")),
            ("message", JStr("Authentication failed.")),
            ("received_token", TokenJson(token))])
  }

  /** The `authenticated` reply carries no `error` and has the `user` key. */
  lemma AuthenticatedReplyAccepted(user: Accounts.UserView, token: Option<string>)
    ensures IsValidAuthResponse(AuthReplyJson(Accounts.Authenticated(user, token)))
  {
    var json := AuthReplyJson(Accounts.Authenticated(user, token));
    assert json.members[0].0 == "status" && json.members[1].0 == "user" && json.members[2].0 == "received_token";
    assert LastIndexOf(json.members, "error").None?;
    assert "user" in IdentityHints && HasKey(json, "user");
  }

  /** The `invalid_token` reply has no `error`, no `valid`/`success`/`ok` and no identity key. */
  lemma InvalidReplyRejected(token: Option<string>)
    ensures !IsValidAuthResponse(AuthReplyJson(Accounts.AuthInvalidToken(token)))
  {
    var json := AuthReplyJson(Accounts.AuthInvalidToken(token));
    var keys := {"status", "message", "received_token"};
    assert forall i :: 0 <= i < |json.members| ==> json.members[i].0 in keys;
    assert LastIndexOf(json.members, "valid").None?;
    assert LastIndexOf(json.members, "success").None?;
    assert LastIndexOf(json.members, "ok").None?;
    forall k | k in IdentityHints ensures !HasKey(json, k) {
      assert k !in keys;
    }
  }

  /**
   * Client and server agree: the client accepts the server's answer to a token
   * exactly when the server found a user with that token.
   */
  lemma ServerReplyAccepted(users: seq<Accounts.User>, token: Option<string>)
    ensures IsValidAuthResponse(AuthReplyJson(Accounts.AuthUser(users, token))) <==> Accounts.Known(users, token)
  {
    match Accounts.AuthUser(users, token)
    case Authenticated(user, _) => AuthenticatedReplyAccepted(user, token);
    case AuthInvalidToken(_) => InvalidReplyRejected(token);
  }

  /** One `getItem` call: no item, an item, or a storage that throws (e.g. disabled). */
  datatype StorageRead = NoItem | Item(value: string) | Throws

  /**
   * `localStorage.getItem(k) || sessionStorage.getItem(k)` inside a `try`:
   * `None` when the expression is falsy or throws.
   */
  function FromStorage(local: StorageRead, session: StorageRead): (r: Option<string>)
    ensures r.Some? ==> r.value != ""
    ensures local.Throws? ==> r.None?
    ensures local.Item? && local.value != "" ==> r == Some(local.value)
    ensures (!local.Throws? && (local.NoItem? || local.value == "") && session.Item? && session.value != ""
             ==> r == Some(session.value))
    ensures r.Some? ==> local == Item(r.value) || (!local.Throws? && session == Item(r.value))
  {
    match local
    case Throws => None
    case Item(v) => if v != "" then Some(v) else FromSession(session)
    case NoItem => FromSession(session)
  }

  function FromSession(session: StorageRead): Option<string>
  {
    match session
    case Item(v) => if v != "" then Some(v) else None
    case _ => None
  }

  /** `getCurrentLang`. */
  function CurrentLang(local: StorageRead, session: StorageRead, language: string, userLanguage: string): (r: string)
    ensures FromStorage(local, session).Some? ==> r == Upper(FromStorage(local, session).value)
    ensures FromStorage(local, session).None? ==> r in {"FR", "EN"}
    ensures FromStorage(local, session).None? ==>
              (r == "FR" <==> Upper(Prefix2(if language != "" then language
                                           else if userLanguage != "" then userLanguage
                                           else "en")) == "FR")
  {
    match FromStorage(local, session)
    case Some(stored) => Upper(stored)
    case None =>
      var nav := if language != "" then language else if userLanguage != "" then userLanguage else "en";
      if Upper(Prefix2(nav)) == "FR" then "FR" else "EN"
  }

  /** `s.slice(0, 2)`. */
  function Prefix2(s: string): (r: string)
    ensures |r| == if |s| < 2 then |s| else 2
    ensures r == s[..|r|]
  {
    if |s| < 2 then s else s[..2]
  }

  /** A browser language starting with "fr" in any case gives FR, anything else EN. */
  lemma NavigatorLanguage(language: string)
    requires language != ""
    ensures CurrentLang(NoItem, NoItem, language, "") == "FR" <==>
              |language| >= 2 && UpperChar(language[0]) == 'F' && UpperChar(language[1]) == 'R'
  {
    var p := Prefix2(language);
    if |language| >= 2 {
      assert Upper(p) == [UpperChar(language[0]), UpperChar(language[1])];
    } else {
      assert |Upper(p)| < 2;
    }
  }

  const AuthTokenKey: string := "auth_token="
  const TokenKey: string := "token="

  /** `s` continues with `key` at position `p`. */
  predicate KeyAt(s: string, p: nat, key: string)
  {
    p + |key| <= |s| && s[p..p + |key|] == key
  }

  /** A cookie starts at `p`: the start of the string, or right after "; ". */
  predicate CookieStart(c: string, p: nat)
  {
    p == 0 || (2 <= p <= |c| && c[p - 2..p] == "; ")
  }

  /** `[^;]*` from position `p`: the longest run without a semicolon. */
  function ValueFrom(c: string, p: nat): (v: string)
    requires p <= |c|
    ensures p + |v| <= |c| && v == c[p..p + |v|]
    ensures forall i :: 0 <= i < |v| ==> v[i] != ';'
    ensures p + |v| == |c| || c[p + |v|] == ';'
    decreases |c| - p
  {
    if p == |c| || c[p] == ';' then "" else [c[p]] + ValueFrom(c, p + 1)
  }

  /** The two keys start with different letters, so at most one of them sits at `p`. */
  lemma KeysExclusive(c: string, p: nat)
    ensures !(KeyAt(c, p, AuthTokenKey) && KeyAt(c, p, TokenKey))
  {
    if KeyAt(c, p, AuthTokenKey) {
      assert c[p..p + |AuthTokenKey|][0] == c[p] == 'a';
      assert p + |TokenKey| <= |c| ==> c[p..p + |TokenKey|][0] == c[p];
    }
  }

  /** The capture of `(?:^|; )(?:auth_token|token)=([^;]+)` when its key starts at `p`. */
  function MatchAt(c: string, p: nat): (r: Option<string>)
    requires p <= |c|
    ensures r.Some? ==> CookieStart(c, p) && (KeyAt(c, p, AuthTokenKey) || KeyAt(c, p, TokenKey))
    ensures r.Some? ==> r.value != "" && forall i :: 0 <= i < |r.value| ==> r.value[i] != ';'
    ensures (r.Some? <==>
               CookieStart(c, p)
               && ((KeyAt(c, p, AuthTokenKey) && ValueFrom(c, p + |AuthTokenKey|) != "")
                   || (KeyAt(c, p, TokenKey) && ValueFrom(c, p + |TokenKey|) != "")))
    ensures r.Some? && KeyAt(c, p, AuthTokenKey) ==> r.value == ValueFrom(c, p + |AuthTokenKey|)
    ensures r.Some? && KeyAt(c, p, TokenKey) ==> r.value == ValueFrom(c, p + |TokenKey|)
  {
    KeysExclusive(c, p);
    if !CookieStart(c, p) then None
    else if KeyAt(c, p, AuthTokenKey) then
      var v := ValueFrom(c, p + |AuthTokenKey|);
      if v == "" then None else Some(v)
    else if KeyAt(c, p, TokenKey) then
      var v := ValueFrom(c, p + |TokenKey|);
      if v == "" then None else Some(v)
    else None
  }

  /** No match has its key at a position in [p, q). */
  predicate NoMatchBetween(c: string, p: nat, q: nat)
  {
    forall k :: p <= k < q && k <= |c| ==> MatchAt(c, k).None?
  }

  /** `document.cookie.match(...)`: the leftmost match at or after position `p`. */
  function FirstCookieMatch(c: string, p: nat): (r: Option<string>)
    requires p <= |c|
    ensures r.None? <==> NoMatchBetween(c, p, |c| + 1)
    ensures r.Some? ==> exists q :: p <= q <= |c| && MatchAt(c, q) == r && NoMatchBetween(c, p, q)
    decreases |c| - p
  {
    var here := MatchAt(c, p);
    if here.Some? then
      assert NoMatchBetween(c, p, p);
      here
    else if p == |c| then None
    else
      var r := FirstCookieMatch(c, p + 1);
      assert forall q :: p < q && NoMatchBetween(c, p + 1, q) ==> NoMatchBetween(c, p, q);
      r
  }

  /**
   * `getToken`: the `au` URL parameter, else the stored `auth_token`, else the first
   * `auth_token`/`token` cookie after `decodeURIComponent` (`decode`; `None` when it
   * throws), else null.
   */
  function GetToken(au: Option<string>, local: StorageRead, session: StorageRead, cookie: string,
                    decode: string -> Option<string>): (r: Option<string>)
    ensures au.Some? && au.value != "" ==> r == au
    ensures (au.None? || au.value == "") && FromStorage(local, session).Some? ==> r == FromStorage(local, session)
    ensures ((au.None? || au.value == "") && FromStorage(local, session).None? && FirstCookieMatch(cookie, 0).Some?
             ==> r == decode(FirstCookieMatch(cookie, 0).value))
    ensures ((au.None? || au.value == "") && FromStorage(local, session).None? && FirstCookieMatch(cookie, 0).None?
             ==> r.None?)
    ensures r.Some? ==> r == au || r == FromStorage(local, session)
                        || (FirstCookieMatch(cookie, 0).Some? && r == decode(FirstCookieMatch(cookie, 0).value))
  {
    if au.Some? && au.value != "" then au
    else match FromStorage(local, session)
      case Some(t) => Some(t)
      case None =>
        match FirstCookieMatch(cookie, 0)
        case None => None
        case Some(raw) => decode(raw)
  }

  datatype Gate = Proceed(resp: Json) | RedirectNoToken | RedirectInvalid

  /** `ensureAuthenticated`, with the token and the session response as inputs. */
  function EnsureAuthenticated(token: Option<string>, resp: Json): (g: Gate)
    ensures g.Proceed? <==> token.Some? && token.value != "" && IsValidAuthResponse(resp)
    ensures g.Proceed? ==> g.resp == resp
    ensures g == RedirectNoToken <==> token.None? || token.value == ""
    ensures g == RedirectInvalid <==> token.Some? && token.value != "" && !IsValidAuthResponse(resp)
  {
    if token.None? || token.value == "" then RedirectNoToken
    else if !IsValidAuthResponse(resp) then RedirectInvalid
    else Proceed(resp)
  }

  /**
   * With no URL parameter and nothing stored, `getToken` decodes the FIRST of two
   * `token` cookies.
   */
  lemma GetTokenFirstOfTwoCookies(decode: string -> Option<string>)
    ensures GetToken(None, NoItem, NoItem, "token=a; token=b", decode) == decode("a")
  {
    var c := "token=a; token=b";
    assert c[0..6] == TokenKey;
    KeysExclusive(c, 0);
    assert c[7] == ';' && ValueFrom(c, 7) == "";
    assert ValueFrom(c, 6) == "a";
    assert MatchAt(c, 0) == Some("a");
  }

  /**
   * `ensureAuthenticated` against the server: with a non-empty token the client
   * proceeds exactly when the server knows the token, and redirects otherwise.
   */
  lemma SessionGate(users: seq<Accounts.User>, token: Option<string>)
    requires token.Some? && token.value != ""
    ensures (EnsureAuthenticated(token, AuthReplyJson(Accounts.AuthUser(users, token))).Proceed?
             <==> Accounts.Known(users, token))
    ensures (!Accounts.Known(users, token)
             ==> EnsureAuthenticated(token, AuthReplyJson(Accounts.AuthUser(users, token))) == RedirectInvalid)
  {
    ServerReplyAccepted(users, token);
  }

  /** A lone `token` cookie is found. */
  lemma CookieExampleToken()
    ensures FirstCookieMatch("token=abc", 0) == Some("abc")
  {
    var c := "token=abc";
    assert c[0..6] == TokenKey && !KeyAt(c, 0, AuthTokenKey);
    assert ValueFrom(c, 9) == "" && ValueFrom(c, 8) == "c" && ValueFrom(c, 7) == "bc";
    assert ValueFrom(c, 6) == "abc";
    assert MatchAt(c, 0) == Some("abc");
  }

  /** The leftmost cookie wins: `auth_token` before `token` yields the `auth_token` value. */
  lemma CookieExampleLeftmost()
    ensures FirstCookieMatch("auth_token=x; token=y", 0) == Some("x")
  {
    var c := "auth_token=x; token=y";
    assert c[0..11] == AuthTokenKey;
    assert c[12] == ';' && ValueFrom(c, 12) == "";
    assert ValueFrom(c, 11) == "x";
    assert MatchAt(c, 0) == Some("x");
  }

  /** A key must start a cookie: "mytoken=z" does not match at its "token". */
  lemma CookieExampleNotAtStart()
    ensures MatchAt("mytoken=z", 2).None?
  {
    var c := "mytoken=z";
    assert c[0..2][0] == 'm';
  }
}
