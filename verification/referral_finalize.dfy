/** `POST /api/referrals/finalize`: reads the referral click id from the
    `rb_ref` cookie and the user's bearer token, attaches the user to the
    referral row once, and optionally collects reward grants. The user
    lookup, the row lookup, the grant procedure and `decodeURIComponent`
    are parameters, each returning None where the source gets nothing back
    or the call throws. */
module ReferralFinalize {
  import opened Wrappers
  import opened Text
  import opened Json

  // ---------------------------------------------------------------------
  // getCookie

  /** The name of the referral cookie. */
  const RefCookie := "rb_ref"

  /** The key of one cookie pair: the text before its first "=" (`k` in
      `const [k, ...rest] = part.split('=')`). */
  function CookieKey(part: string): string {
    Split(part, "=")[0]
  }

  /** The value of one cookie pair, `rest.join('=')`: everything after the
      first "=", or "" when there is none. */
  function CookieValue(part: string): string {
    Join(Split(part, "=")[1..], "=")
  }

  /** A pair splits at its first "=" and keeps any later "=" in its value. */
  lemma PairParts(k: string, v: string)
    requires Lacks(k, '=')
    ensures CookieKey(k + "=" + v) == k
    ensures CookieValue(k + "=" + v) == v
  {
    var s := k + "=" + v;
    IndexOfAfterFree(k, "=", v);
    SplitStep(s, "=", |k|);
    assert s[..|k|] == k;
    assert s[|k| + 1..] == v;
    assert Split(s, "=")[1..] == Split(v, "=");
    JoinSplit(v, "=");
  }

  /** A part without "=" is all key and has an empty value. */
  lemma BarePart(part: string)
    requires Lacks(part, '=')
    ensures CookieKey(part) == part
    ensures CookieValue(part) == ""
  {
    IndexOfAbsent(part, "=");
    SplitNone(part, "=");
  }

  /** The cookie header split with a regex on a semicolon followed by any
      run of whitespace: the pieces between semicolons, each but the first
      without the whitespace that follows its semicolon. */
  function CookieParts(raw: string): (r: seq<string>)
    ensures |r| >= 1
    ensures forall i :: 1 <= i < |r| ==> |r[i]| == 0 || !IsSpace(r[i][0])
  {
    var ps := Split(raw, ";");
    seq(|ps|, i requires 0 <= i < |ps| => if i == 0 then ps[0] else TrimStart(ps[i]))
  }

  /** The outcome of `getCookie`: the value, null, or the error that
      `decodeURIComponent` throws on a malformed key. */
  datatype Lookup = Found(value: string) | Absent | DecodeFails

  /** No part before the i-th ends the lookup: each key decodes, to a
      name other than `name`. */
  predicate Undecided(parts: seq<string>, i: nat, name: string, decode: string -> Option<string>)
    requires i <= |parts|
  {
    forall j :: 0 <= j < i ==> decode(CookieKey(parts[j])).Some? && decode(CookieKey(parts[j])) != Some(name)
  }

  /** The loop of `getCookie`: the first part whose decoded key is `name`
      gives its value; a key that fails to decode ends the lookup. */
  function Find(parts: seq<string>, name: string, decode: string -> Option<string>): (r: Lookup)
    ensures r.Found? ==>
      exists i :: 0 <= i < |parts| && decode(CookieKey(parts[i])) == Some(name) && r.value == CookieValue(parts[i])
    ensures r == Absent <==>
      forall i :: 0 <= i < |parts| ==> decode(CookieKey(parts[i])).Some? && decode(CookieKey(parts[i])) != Some(name)
    decreases |parts|
  {
    if |parts| == 0 then Absent
    else
      match decode(CookieKey(parts[0]))
      case None => DecodeFails
      case Some(k) =>
        if k == name then Found(CookieValue(parts[0]))
        else
          var r := Find(parts[1..], name, decode);
          assert forall i :: 1 <= i < |parts| ==> parts[i] == parts[1..][i - 1];
          r
  }

  /** With the first part undecided, being undecided before `i + 1` in the
      parts is being undecided before `i` in the rest. */
  lemma UndecidedShift(parts: seq<string>, name: string, decode: string -> Option<string>, i: nat)
    requires i < |parts| && Undecided(parts, 1, name, decode)
    ensures Undecided(parts, i + 1, name, decode) <==> Undecided(parts[1..], i, name, decode)
  {
    if Undecided(parts[1..], i, name, decode) {
      forall j | 0 <= j < i + 1
        ensures decode(CookieKey(parts[j])).Some? && decode(CookieKey(parts[j])) != Some(name)
      {
        if j > 0 { assert parts[j] == parts[1..][j - 1]; }
      }
    }
    if Undecided(parts, i + 1, name, decode) {
      forall j | 0 <= j < i
        ensures decode(CookieKey(parts[1..][j])).Some? && decode(CookieKey(parts[1..][j])) != Some(name)
      {
        assert parts[1..][j] == parts[j + 1];
      }
    }
  }

  /** A key that fails to decode, with every key before it decoding to
      another name, makes the lookup throw. */
  lemma {:induction false} FailureThrows(parts: seq<string>, name: string, decode: string -> Option<string>, j: nat)
    requires j < |parts| && decode(CookieKey(parts[j])).None? && Undecided(parts, j, name, decode)
    ensures Find(parts, name, decode) == DecodeFails
    decreases j
  {
    if j > 0 {
      var tail := parts[1..];
      assert forall i :: 0 <= i < j - 1 ==> tail[i] == parts[i + 1];
      assert tail[j - 1] == parts[j];
      FailureThrows(tail, name, decode, j - 1);
    }
  }

  /** A lookup that throws does so at a key that fails to decode, with
      every key before it decoding to another name. */
  lemma {:induction false} ThrowHasFailure(parts: seq<string>, name: string, decode: string -> Option<string>)
    requires Find(parts, name, decode) == DecodeFails
    ensures exists i :: 0 <= i < |parts| && decode(CookieKey(parts[i])).None? && Undecided(parts, i, name, decode)
    decreases |parts|
  {
    if decode(CookieKey(parts[0])).None? {
      assert Undecided(parts, 0, name, decode);
    } else {
      ThrowHasFailure(parts[1..], name, decode);
      var i :| 0 <= i < |parts[1..]| && decode(CookieKey(parts[1..][i])).None? && Undecided(parts[1..], i, name, decode);
      assert parts[1..][i] == parts[i + 1];
      assert Undecided(parts, 1, name, decode);
      UndecidedShift(parts, name, decode, i);
    }
  }

  /** The lookup throws exactly when some key fails to decode before any
      key decodes to `name`. */
  lemma FindThrows(parts: seq<string>, name: string, decode: string -> Option<string>)
    ensures Find(parts, name, decode) == DecodeFails <==>
      exists i :: 0 <= i < |parts| && decode(CookieKey(parts[i])).None? && Undecided(parts, i, name, decode)
  {
    if Find(parts, name, decode) == DecodeFails {
      ThrowHasFailure(parts, name, decode);
    }
    if exists i :: 0 <= i < |parts| && decode(CookieKey(parts[i])).None? && Undecided(parts, i, name, decode) {
      var i :| 0 <= i < |parts| && decode(CookieKey(parts[i])).None? && Undecided(parts, i, name, decode);
      FailureThrows(parts, name, decode, i);
    }
  }

  /** Reading a cookie: a value comes from a part whose key decodes to
      `name`, the first such part wins when every key before it decodes,
      null means every key decoded to another name, and the read throws
      exactly when a key fails to decode before any key matches. A missing
      header reads as "". */
  lemma GetCookieReads(header: Option<string>, name: string, decode: string -> Option<string>)
    ensures var ps := CookieParts(header.GetOr(""));
      var r := GetCookie(header, name, decode);
      && (r.Found? ==> exists i :: 0 <= i < |ps| && decode(CookieKey(ps[i])) == Some(name) && r.value == CookieValue(ps[i]))
      && (forall i :: 0 <= i < |ps| && decode(CookieKey(ps[i])) == Some(name) && Undecided(ps, i, name, decode) ==>
            r == Found(CookieValue(ps[i])))
      && (r == Absent <==> forall i :: 0 <= i < |ps| ==> decode(CookieKey(ps[i])).Some? && decode(CookieKey(ps[i])) != Some(name))
      && (r == DecodeFails <==> exists i :: 0 <= i < |ps| && decode(CookieKey(ps[i])).None? && Undecided(ps, i, name, decode))
  {
    var ps := CookieParts(header.GetOr(""));
    FindThrows(ps, name, decode);
    forall i | 0 <= i < |ps| && decode(CookieKey(ps[i])) == Some(name) && Undecided(ps, i, name, decode)
      ensures Find(ps, name, decode) == Found(CookieValue(ps[i]))
    {
      FirstMatchWins(ps, name, decode, i);
    }
  }

  /** `getCookie(req, name)`; a missing header reads as "". */
  function GetCookie(header: Option<string>, name: string, decode: string -> Option<string>): Lookup {
    Find(CookieParts(header.GetOr("")), name, decode)
  }

  /** The first part whose key decodes to `name` wins, provided the keys
      before it decode to other names. */
  lemma {:induction false} FirstMatchWins(parts: seq<string>, name: string, decode: string -> Option<string>, j: nat)
    requires j < |parts|
    requires forall i :: 0 <= i < j ==>
      decode(CookieKey(parts[i])).Some? && decode(CookieKey(parts[i])) != Some(name)
    requires decode(CookieKey(parts[j])) == Some(name)
    ensures Find(parts, name, decode) == Found(CookieValue(parts[j]))
    decreases j
  {
    if j > 0 {
      var tail := parts[1..];
      assert forall i :: 0 <= i < j - 1 ==> tail[i] == parts[i + 1];
      FirstMatchWins(tail, name, decode, j - 1);
    }
  }

  /** Without a cookie header nothing is found, for any name other than ""
      (the empty header is one part with the empty key). */
  lemma NoHeaderNoCookie(name: string, decode: string -> Option<string>)
    requires decode("") == Some("") && name != ""
    ensures GetCookie(None, name, decode) == Absent
  {
    var parts := CookieParts("");
    assert Split("", ";") == [""] by {
      IndexOfAbsent("", ";");
      SplitNone("", ";");
    }
    assert parts == [""];
    BarePart("");
  }

  /** Cookies as a browser sends them: no semicolon inside a pair, and no
      pair starting with whitespace. */
  predicate WellFormedCookies(cs: seq<string>) {
    |cs| >= 1 && forall i :: 0 <= i < |cs| ==> Lacks(cs[i], ';') && (|cs[i]| == 0 || !IsSpace(cs[i][0]))
  }

  /** A space before a "; "-joined list is the ";"-join of the spaced
      items. */
  lemma {:induction false} SpacedJoin(cs: seq<string>)
    requires |cs| >= 1
    ensures " " + Join(cs, "; ") == Join(PrefixEach(" ", cs), ";")
    decreases |cs|
  {
    if |cs| > 1 {
      var tail := cs[1..];
      var rest := Join(tail, "; ");
      assert Join(cs, "; ") == cs[0] + "; " + rest;
      assert Join(PrefixEach(" ", cs), ";") == (" " + cs[0]) + ";" + (" " + rest) by {
        SpacedJoin(tail);
        assert PrefixEach(" ", cs) == [" " + cs[0]] + PrefixEach(" ", tail);
        JoinCons(" " + cs[0], PrefixEach(" ", tail), ";");
      }
      SemicolonSpace(" " + cs[0], rest);
    }
  }

  /** A "; "-joined list is the ";"-join of its first item and the other
      items spaced. */
  lemma SemicolonSpaceJoin(cs: seq<string>)
    requires |cs| >= 1
    ensures Join(cs, "; ") == Join([cs[0]] + PrefixEach(" ", cs[1..]), ";")
  {
    if |cs| > 1 {
      var tail := cs[1..];
      var rest := Join(tail, "; ");
      assert Join(cs, "; ") == cs[0] + "; " + rest;
      assert Join([cs[0]] + PrefixEach(" ", tail), ";") == cs[0] + ";" + (" " + rest) by {
        SpacedJoin(tail);
        JoinCons(cs[0], PrefixEach(" ", tail), ";");
      }
      SemicolonSpace(cs[0], rest);
    }
  }

  /** "; " between two texts is ";" followed by a space. */
  lemma SemicolonSpace(a: string, b: string)
    ensures a + "; " + b == a + ";" + (" " + b)
  {
    assert "; " == ";" + " ";
  }

  /** Splitting a cookie header of well-formed pairs joined by "; " gives
      the pairs back. */
  lemma SplitCookieHeader(cs: seq<string>)
    requires WellFormedCookies(cs)
    ensures Split(Join(cs, "; "), ";") == [cs[0]] + PrefixEach(" ", cs[1..])
  {
    var ps := [cs[0]] + PrefixEach(" ", cs[1..]);
    SemicolonSpaceJoin(cs);
    forall i | 0 <= i < |ps| ensures Lacks(ps[i], ';') {
      if i > 0 {
        LacksConcat(" ", cs[i], ';');
      }
    }
    SplitJoin(ps, ";");
  }

  lemma CookiePartsOfHeader(cs: seq<string>)
    requires WellFormedCookies(cs)
    ensures CookieParts(Join(cs, "; ")) == cs
  {
    var ps := [cs[0]] + PrefixEach(" ", cs[1..]);
    SplitCookieHeader(cs);
    var raw := Join(cs, "; ");
    var r := CookieParts(raw);
    assert |r| == |cs| && r[0] == cs[0];
    forall i | 1 <= i < |cs| ensures r[i] == cs[i] {
      assert r[i] == TrimStart(ps[i]);
      assert ps[i] == " " + cs[i];
      TrimStartAround(" ", cs[i]);
    }
  }

  /** A cookie set as `name=value` in a browser's header is read back,
      whatever "=" the value holds, when the cookies before it have other
      names and `name` decodes to itself. */
  lemma ReadsBackCookie(cs: seq<string>, name: string, v: string, j: nat, decode: string -> Option<string>)
    requires WellFormedCookies(cs) && j < |cs|
    requires cs[j] == name + "=" + v && Lacks(name, '=') && decode(name) == Some(name)
    requires forall i :: 0 <= i < j ==> decode(CookieKey(cs[i])).Some? && decode(CookieKey(cs[i])) != Some(name)
    ensures GetCookie(Some(Join(cs, "; ")), name, decode) == Found(v)
  {
    CookiePartsOfHeader(cs);
    PairParts(name, v);
    FirstMatchWins(cs, name, decode, j);
  }

  // ---------------------------------------------------------------------
  // The bearer token

  const BearerPrefix := "Bearer "

  /** `authHeader.startsWith('Bearer ') ? authHeader.slice(7) : null`; a
      missing header reads as "". */
  function BearerToken(header: Option<string>): (r: Option<string>)
    ensures r.Some? <==> StartsWith(header.GetOr(""), BearerPrefix)
    ensures r.Some? ==> header.GetOr("") == BearerPrefix + r.value
  {
    var h := header.GetOr("");
    if StartsWith(h, BearerPrefix) then Some(h[|BearerPrefix|..]) else None
  }

  /** The prefix is seven characters, and a prefixed token is read back. */
  lemma BearerRoundTrip(token: string)
    ensures |BearerPrefix| == 7
    ensures BearerToken(Some(BearerPrefix + token)) == Some(token)
  {
    assert (BearerPrefix + token)[..|BearerPrefix|] == BearerPrefix;
    assert (BearerPrefix + token)[|BearerPrefix|..] == token;
  }

  // ---------------------------------------------------------------------
  // Attaching the user, once

  /** The referral row: its id, and who signed up through it and when. */
  datatype Referral = Referral(id: string, signedUpUser: Option<string>, signedUpAt: Option<string>)

  /** `!!refRow.signed_up_user`. */
  predicate Attached(row: Referral) {
    row.signedUpUser.Some? && |row.signedUpUser.value| > 0
  }

  /** The row after the attach step at time `now`: a row without a user
      gets `userId` and the time; a row that has one keeps it. */
  function Attach(row: Referral, userId: string, now: string): (r: Referral)
    ensures r.id == row.id
    ensures Attached(row) ==> r == row
    ensures !Attached(row) ==> r.signedUpUser == Some(userId) && r.signedUpAt == Some(now)
  {
    if Attached(row) then row else row.(signedUpUser := Some(userId), signedUpAt := Some(now))
  }

  /** Attaching is done at most once: a second attach, by any user at any
      time, leaves the row as the first one left it. */
  lemma AttachOnce(row: Referral, u1: string, t1: string, u2: string, t2: string)
    requires |u1| > 0
    ensures Attach(Attach(row, u1, t1), u2, t2) == Attach(row, u1, t1)
  {
  }

  // ---------------------------------------------------------------------
  // Grants

  /** `Array.isArray(data) ? data : data ? [data] : []`. */
  function NormalizeGrants(data: Json): (r: seq<Json>)
    ensures data.JArr? ==> r == data.items
    ensures !data.JArr? ==> r == (if Truthy(data) then [data] else [])
  {
    if data.JArr? then data.items else if Truthy(data) then [data] else []
  }

  /** A normalised list stays as it is when normalised again. */
  lemma NormalizeGrantsIdempotent(data: Json)
    ensures NormalizeGrants(JArr(NormalizeGrants(data))) == NormalizeGrants(data)
  {
  }

  /** The grants in the reply: none unless rewards are switched on with
      exactly "true"; none when the procedure throws; otherwise its data
      normalised to a list. */
  function Grants(rewardsSetting: Option<string>, rpc: Option<Json>): (r: seq<Json>)
    ensures rewardsSetting != Some("true") || rpc.None? ==> r == []
    ensures rewardsSetting == Some("true") && rpc.Some? ==> r == NormalizeGrants(rpc.value)
  {
    if rewardsSetting == Some("true") && rpc.Some? then NormalizeGrants(rpc.value) else []
  }

  // ---------------------------------------------------------------------
  // The route

  /** How the request ends. `NoCookie`, `NoClick` and `Finalized` answer
      200 and clear the cookie; `NoUserToken` and `NoUser` answer 401. */
  datatype Outcome = NoCookie | NoUserToken | NoUser | NoClick | Finalized(grants: seq<Json>)

  /** The reply and the row written back, if any. */
  datatype Finalize = Finalize(outcome: Outcome, write: Option<Referral>)

  /** The HTTP status of the reply: 401 for the two refusals, 200 for the
      three `ok` replies. */
  function Status(o: Outcome): (code: int)
    ensures code == 200 <==> o.NoCookie? || o.NoClick? || o.Finalized?
    ensures code == 401 <==> o.NoUserToken? || o.NoUser?
  {
    if o == NoUserToken || o == NoUser then 401 else 200
  }

  /** Whether the reply expires the referral cookie: exactly the replies
      that answer 200. */
  function ClearsCookie(o: Outcome): (b: bool)
    ensures b <==> o.NoCookie? || o.NoClick? || o.Finalized?
  {
    Status(o) == 200
  }

  /** The request's headers. */
  datatype Request = Request(cookieHeader: Option<string>, authHeader: Option<string>)

  /** The services the route calls: the user id behind a token, the
      referral row of a click id (None when there is none or the query
      fails), and the grant procedure's data for a click id (None when it
      throws). */
  datatype Services = Services(
    userOf: string -> Option<string>,
    rowOf: string -> Option<Referral>,
    grantsOf: string -> Option<Json>)

  /** `POST(req)` at time `now`. None when `decodeURIComponent` throws
      while the cookie is read. */
  function Post(req: Request, decode: string -> Option<string>, svc: Services, rewardsSetting: Option<string>, now: string): (r: Option<Finalize>)
    ensures r.None? <==> GetCookie(req.cookieHeader, RefCookie, decode) == DecodeFails
    ensures r.Some? && r.value.write.Some? ==> r.value.outcome.Finalized?
  {
    match GetCookie(req.cookieHeader, RefCookie, decode)
    case DecodeFails => None
    case Absent => Some(Finalize(NoCookie, None))
    case Found(clickId) =>
      if |clickId| == 0 then Some(Finalize(NoCookie, None))
      else
        var token := BearerToken(req.authHeader);
        if token.None? || |token.value| == 0 then Some(Finalize(NoUserToken, None))
        else
          var user := svc.userOf(token.value);
          if user.None? || |user.value| == 0 then Some(Finalize(NoUser, None))
          else
            var row := svc.rowOf(clickId);
            if row.None? then Some(Finalize(NoClick, None))
            else
              var write := if Attached(row.value) then None else Some(Attach(row.value, user.value, now));
              Some(Finalize(Finalized(Grants(rewardsSetting, svc.grantsOf(clickId))), write))
  }

  /** A request that reaches the row writes the user into it exactly when
      the row has no user yet, and the written row is the attached one. */
  lemma PostAttaches(req: Request, decode: string -> Option<string>, svc: Services, rewardsSetting: Option<string>,
                     now: string, clickId: string, token: string, user: string)
    requires GetCookie(req.cookieHeader, RefCookie, decode) == Found(clickId) && |clickId| > 0
    requires BearerToken(req.authHeader) == Some(token) && |token| > 0
    requires svc.userOf(token) == Some(user) && |user| > 0
    requires svc.rowOf(clickId).Some?
    ensures Post(req, decode, svc, rewardsSetting, now).Some?
    ensures Post(req, decode, svc, rewardsSetting, now).value.outcome
      == Finalized(Grants(rewardsSetting, svc.grantsOf(clickId)))
    ensures Post(req, decode, svc, rewardsSetting, now).value.write.Some? <==> !Attached(svc.rowOf(clickId).value)
    ensures Post(req, decode, svc, rewardsSetting, now).value.write.Some? ==>
      Post(req, decode, svc, rewardsSetting, now).value.write.value == Attach(svc.rowOf(clickId).value, user, now)
  {
  }

  /** Finalising twice attaches once: when the row the first request wrote
      is what the second request finds, the second writes nothing. */
  lemma FinalizeOnce(req: Request, decode: string -> Option<string>, svc: Services, svc2: Services,
                     rewardsSetting: Option<string>, now: string, now2: string, clickId: string)
    requires GetCookie(req.cookieHeader, RefCookie, decode) == Found(clickId)
    requires Post(req, decode, svc, rewardsSetting, now).Some?
    requires Post(req, decode, svc, rewardsSetting, now).value.write.Some?
    requires svc2.rowOf(clickId) == Post(req, decode, svc, rewardsSetting, now).value.write
    ensures Post(req, decode, svc2, rewardsSetting, now2).Some?
    ensures Post(req, decode, svc2, rewardsSetting, now2).value.write.None?
  {
    var token := BearerToken(req.authHeader).value;
    var user := svc.userOf(token).value;
    var row := svc.rowOf(clickId).value;
    assert svc2.rowOf(clickId) == Some(Attach(row, user, now)) && !Attached(row) && |user| > 0;
  }

  /** A request without the referral cookie ends at once, before the token
      is looked at. */
  lemma NoCookieFirst(req: Request, decode: string -> Option<string>, svc: Services, rewardsSetting: Option<string>, now: string)
    requires GetCookie(req.cookieHeader, RefCookie, decode) == Absent
    ensures Post(req, decode, svc, rewardsSetting, now) == Some(Finalize(NoCookie, None))
    ensures ClearsCookie(NoCookie)
  {
  }

  /** An empty cookie value (`rb_ref=`) counts as no cookie: the reply is
      `no_cookie`, the cookie is cleared and nothing is written. */
  lemma EmptyCookieIsNoCookie(req: Request, decode: string -> Option<string>, svc: Services, rewardsSetting: Option<string>, now: string)
    requires GetCookie(req.cookieHeader, RefCookie, decode) == Found("")
    ensures Post(req, decode, svc, rewardsSetting, now) == Some(Finalize(NoCookie, None))
    ensures ClearsCookie(NoCookie)
  {
  }

  /** A cookie without a bearer token, or with `Bearer ` followed by
      nothing, is refused with 401 and nothing is written. */
  lemma TokenRequired(req: Request, decode: string -> Option<string>, svc: Services, rewardsSetting: Option<string>, now: string, clickId: string)
    requires GetCookie(req.cookieHeader, RefCookie, decode) == Found(clickId) && |clickId| > 0
    requires BearerToken(req.authHeader).None? || BearerToken(req.authHeader).value == ""
    ensures Post(req, decode, svc, rewardsSetting, now) == Some(Finalize(NoUserToken, None))
    ensures Status(NoUserToken) == 401
  {
  }

  /** A token that names no user (or a user without an id) is refused with
      401 `no_user`, and nothing is written. */
  lemma UserRequired(req: Request, decode: string -> Option<string>, svc: Services, rewardsSetting: Option<string>,
                     now: string, clickId: string, token: string)
    requires GetCookie(req.cookieHeader, RefCookie, decode) == Found(clickId) && |clickId| > 0
    requires BearerToken(req.authHeader) == Some(token) && |token| > 0
    requires svc.userOf(token).None? || svc.userOf(token).value == ""
    ensures Post(req, decode, svc, rewardsSetting, now) == Some(Finalize(NoUser, None))
    ensures Status(NoUser) == 401
  {
  }

  /** A signed-in request whose click id has no row, or whose lookup
      fails, answers `no_click`, clears the cookie and writes nothing. */
  lemma UnknownClick(req: Request, decode: string -> Option<string>, svc: Services, rewardsSetting: Option<string>,
                     now: string, clickId: string, token: string)
    requires GetCookie(req.cookieHeader, RefCookie, decode) == Found(clickId) && |clickId| > 0
    requires BearerToken(req.authHeader) == Some(token) && |token| > 0
    requires svc.userOf(token).Some? && |svc.userOf(token).value| > 0
    requires svc.rowOf(clickId).None?
    ensures Post(req, decode, svc, rewardsSetting, now) == Some(Finalize(NoClick, None))
    ensures ClearsCookie(NoClick) && Status(NoClick) == 200
  {
  }
}
