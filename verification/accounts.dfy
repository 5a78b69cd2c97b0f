/**
 * The `users` table and the two account operations of back/api/Account.php:
 * authenticating a token and changing the display language. The identity lookup
 * `Resolve` is also the one the punch endpoints use.
 */
module Accounts {
  import opened Wrappers
  import opened Text

  datatype User = User(username: string, email: string, displayLang: string, authToken: string)

  /** The user projection the endpoints return: `lang` is the stored language upper-cased. */
  datatype UserView = UserView(username: string, lang: string, email: string)

  function View(u: User): UserView
  {
    UserView(u.username, Upper(u.displayLang), u.email)
  }

  /** Some row of the table carries the token; a null token matches no row. */
  predicate Known(users: seq<User>, token: Option<string>)
  {
    token.Some? && exists i :: 0 <= i < |users| && users[i].authToken == token.value
  }

  /** Position of the first row carrying token `t`. */
  function FirstWithToken(users: seq<User>, t: string): (r: Option<nat>)
    ensures r.None? <==> forall i :: 0 <= i < |users| ==> users[i].authToken != t
    ensures r.Some? ==> r.value < |users| && users[r.value].authToken == t
                        && forall j :: 0 <= j < r.value ==> users[j].authToken != t
  {
    if |users| == 0 then None
    else if users[0].authToken == t then Some(0)
    else match FirstWithToken(users[1..], t)
      case None => None
      case Some(i) => Some(i + 1)
  }

  /** `SELECT ... FROM users WHERE auth_token = ?`, first row: fails closed on a null or unknown token. */
  function Resolve(users: seq<User>, token: Option<string>): (r: Option<User>)
    ensures r.Some? <==> Known(users, token)
    ensures r.Some? ==> r.value in users && r.value.authToken == token.value
  {
    if token.None? then None
    else match FirstWithToken(users, token.value)
      case None => None
      case Some(i) => Some(users[i])
  }

  datatype AuthReply =
    | Authenticated(user: UserView, receivedToken: Option<string>)
    | AuthInvalidToken(receivedToken: Option<string>)

  /** `Account::authUser`. */
  function AuthUser(users: seq<User>, token: Option<string>): (r: AuthReply)
    ensures r.receivedToken == token
    ensures r.Authenticated? <==> Known(users, token)
    ensures r.Authenticated? ==> exists u :: u in users && u.authToken == token.value && r.user == View(u)
    ensures r.Authenticated? ==> forall i :: 0 <= i < |r.user.lang| ==> !IsAsciiLower(r.user.lang[i])
  {
    match Resolve(users, token)
    case Some(u) =>
      UpperShape(u.displayLang);
      Authenticated(View(u), token)
    case None => AuthInvalidToken(token)
  }

  /** The accepted display languages, after normalisation. */
  const AllowedLangs: set<string> := {"EN", "PT", "FR"}

  /** `strtoupper(trim((string)$lang))`; a null `lang` casts to the empty string. */
  function NormalizeLang(lang: Option<string>): string
  {
    Upper(Trim(lang.GetOr("")))
  }

  datatype LangReply =
    | InvalidLang(receivedToken: Option<string>, receivedLang: string)
    | LangInvalidToken(receivedToken: Option<string>)
    | Updated(user: UserView, receivedToken: Option<string>)

  /** `UPDATE users SET display_lang = ? WHERE auth_token = ?`. */
  function SetLang(users: seq<User>, t: string, lang: string): (r: seq<User>)
    ensures |r| == |users|
    ensures forall i :: 0 <= i < |users| && users[i].authToken == t ==> r[i] == users[i].(displayLang := lang)
    ensures forall i :: 0 <= i < |users| && users[i].authToken != t ==> r[i] == users[i]
  {
    seq(|users|, i requires 0 <= i < |users| =>
      if users[i].authToken == t then users[i].(displayLang := lang) else users[i])
  }

  /**
   * `Account::changeLang`: the reply and the users table afterwards. The re-read
   * after the `UPDATE` finds the same first row as the token check, now carrying
   * the new language.
   */
  function ChangeLang(users: seq<User>, token: Option<string>, lang: Option<string>): (out: (LangReply, seq<User>))
    ensures out.0.receivedToken == token
    ensures out.0.InvalidLang? <==> NormalizeLang(lang) !in AllowedLangs
    ensures out.0.InvalidLang? ==> out.0.receivedLang == NormalizeLang(lang) && out.1 == users
    ensures out.0.LangInvalidToken? <==> NormalizeLang(lang) in AllowedLangs && !Known(users, token)
    ensures out.0.LangInvalidToken? ==> out.1 == users
    ensures out.0.Updated? ==>
              && out.0.user.lang == NormalizeLang(lang)
              && |out.1| == |users|
              && (forall i :: 0 <= i < |users| && users[i].authToken == token.value ==>
                    out.1[i] == users[i].(displayLang := NormalizeLang(lang)))
              && (forall i :: 0 <= i < |users| && users[i].authToken != token.value ==> out.1[i] == users[i])
              && exists u :: u in users && u.authToken == token.value
                             && out.0.user.username == u.username && out.0.user.email == u.email
  {
    var n := NormalizeLang(lang);
    if n !in AllowedLangs then (InvalidLang(token, n), users)
    else match Resolve(users, token)
      case None => (LangInvalidToken(token), users)
      case Some(u) =>
        UpperIdempotent(Trim(lang.GetOr("")));
        (Updated(View(u.(displayLang := n)), token), SetLang(users, token.value, n))
  }

  /** After the `UPDATE`, the token resolves to the same user with the new language. */
  lemma ResolveAfterSetLang(users: seq<User>, t: string, lang: string)
    requires Known(users, Some(t))
    ensures Resolve(SetLang(users, t, lang), Some(t)) == Some(Resolve(users, Some(t)).value.(displayLang := lang))
  {
    var updated := SetLang(users, t, lang);
    var i := FirstWithToken(users, t).value;
    assert forall k :: 0 <= k < |users| ==> updated[k].authToken == users[k].authToken;
    assert updated[i].authToken == t;
    var j := FirstWithToken(updated, t).value;
    assert !(j < i) && !(i < j);
  }

  /** Changing the language twice with the same inputs is the same as changing it once. */
  lemma ChangeLangIdempotent(users: seq<User>, token: Option<string>, lang: Option<string>)
    ensures ChangeLang(ChangeLang(users, token, lang).1, token, lang) == ChangeLang(users, token, lang)
  {
    var (reply, users') := ChangeLang(users, token, lang);
    var n := NormalizeLang(lang);
    if reply.Updated? {
      var t := token.value;
      var u := Resolve(users, token).value;
      assert users' == SetLang(users, t, n);
      assert reply == Updated(View(u.(displayLang := n)), token);
      ResolveAfterSetLang(users, t, n);
      assert Resolve(users', token) == Some(u.(displayLang := n));
      SetLangTwice(users, t, n);
      assert ChangeLang(users', token, lang) == (Updated(View(u.(displayLang := n).(displayLang := n)), token), users');
    }
  }

  /** Setting the same language twice is setting it once. */
  lemma SetLangTwice(users: seq<User>, t: string, lang: string)
    ensures SetLang(SetLang(users, t, lang), t, lang) == SetLang(users, t, lang)
  {
  }

  /** The reply and the new table depend on `lang` only through its normalised form. */
  lemma ChangeLangSeesOnlyNormalized(users: seq<User>, token: Option<string>, a: Option<string>, b: Option<string>)
    requires NormalizeLang(a) == NormalizeLang(b)
    ensures ChangeLang(users, token, a) == ChangeLang(users, token, b)
  {
  }

  /** Surrounding blanks do not matter: " en " is accepted as EN. */
  lemma LangExampleBlanks()
    ensures NormalizeLang(Some(" en ")) == "EN"
  {
    assert IsTrimChar(" en "[0]) && " en "[1..] == "en ";
    assert !IsTrimChar("en "[0]);
    assert TrimLeft("en ") == "en ";
    assert TrimLeft(" en ") == "en ";
    assert IsTrimChar("en "[2]) && "en "[..2] == "en";
    assert !IsTrimChar("en"[1]);
    assert TrimRight("en") == "en";
    assert TrimRight("en ") == "en";
    assert Upper("en") == "EN";
  }

  /** Letter case does not matter: "eN" is accepted as EN, "FR" as FR. */
  lemma LangExampleCase()
    ensures NormalizeLang(Some("eN")) == "EN"
    ensures NormalizeLang(Some("FR")) == "FR"
  {
    assert !IsTrimChar('e') && !IsTrimChar('N') && !IsTrimChar('F') && !IsTrimChar('R');
    assert TrimLeft("eN") == "eN" && TrimRight("eN") == "eN";
    assert TrimLeft("FR") == "FR" && TrimRight("FR") == "FR";
    assert Upper("eN") == "EN";
    assert Upper("FR") == "FR";
  }

  /** "DE" and a missing language are refused. */
  lemma LangExampleRejected(users: seq<User>, token: Option<string>)
    ensures ChangeLang(users, token, Some("DE")) == (InvalidLang(token, "DE"), users)
    ensures ChangeLang(users, token, None) == (InvalidLang(token, ""), users)
  {
    assert !IsTrimChar('D') && !IsTrimChar('E');
    assert TrimLeft("DE") == "DE" && TrimRight("DE") == "DE";
    assert Upper("DE") == "DE";
    assert NormalizeLang(Some("DE")) == "DE" && "DE" !in AllowedLangs;
    assert NormalizeLang(None) == "" && "" !in AllowedLangs;
  }
}
